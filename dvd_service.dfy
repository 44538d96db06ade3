/**
 * DvdService: cache-aside over the dvd table. The Redis hash "dvds" is a map
 * from an id string to a dvd; the table is the DvdRepository. The returned DTO
 * copies the four fields of the dvd one for one, so it is the dvd itself here.
 *
 * The service keeps the cache coherent with the table: every entry sits under
 * the canonical string of an id (what UUID.toString() writes) and equals the
 * row with that id. updateDvd and deleteDvd as written key the cache by the
 * caller's string instead; UpdateDvdAsWritten and DeleteDvdAsWritten model
 * that, and the two methods at the end of the module show where it goes wrong.
 */
module DvdCaching {
  import opened Common
  import opened JavaStrings
  import opened Uuids
  import opened Entities
  import opened Requests
  import opened DvdStore

  // ---------------------------------------------------------------- titles

  /** The chars the title filter keeps: `[a-zA-Z0-9\s+.':-]`. */
  predicate IsTitleChar(c: char) {
    IsAsciiLetter(c) || IsAsciiDigit(c) || IsRegexSpace(c)
    || c == '+' || c == '.' || c == '\'' || c == ':' || c == '-'
  }

  /** The chars a sanitised title can hold: a title char, and of the `\s` chars only the space. */
  predicate IsSanitizedChar(c: char) {
    IsTitleChar(c) && (IsRegexSpace(c) ==> c == ' ')
  }

  /** A non-empty word of title chars without `\s`. */
  predicate IsCleanWord(w: string) {
    w != [] && forall i | 0 <= i < |w| :: IsTitleChar(w[i]) && !IsRegexSpace(w[i])
  }

  /** title.replaceAll("[^a-zA-Z0-9\\s+.':-]", "") */
  function RemoveDisallowed(s: string): (r: string)
    ensures |r| <= |s|
    ensures forall i | 0 <= i < |r| :: IsTitleChar(r[i])
    ensures (forall i | 0 <= i < |s| :: IsTitleChar(s[i])) ==> r == s
    ensures (forall i | 0 <= i < |s| :: !IsTitleChar(s[i])) ==> r == []
    decreases |s|
  {
    if s == [] then []
    else (if IsTitleChar(s[0]) then [s[0]] else []) + RemoveDisallowed(s[1..])
  }
  /** Removing disallowed chars works char by char: a char is kept exactly when it is allowed. */
  lemma RemoveDisallowedChar(c: char)
    ensures RemoveDisallowed([c]) == if IsTitleChar(c) then [c] else []
  {
  }

  /** The allowed chars of a concatenation are those of each part, in order. */
  lemma {:induction false} RemoveDisallowedConcat(a: string, b: string)
    ensures RemoveDisallowed(a + b) == RemoveDisallowed(a) + RemoveDisallowed(b)
    decreases |a|
  {
    if a != [] {
      assert (a + b)[0] == a[0] && (a + b)[1..] == a[1..] + b;
      RemoveDisallowedConcat(a[1..], b);
    } else {
      assert a + b == b;
    }
  }


  /** sanitizeTitle: trim, drop the disallowed chars, then collapse each `\s` run to one space. */
  function SanitizeTitle(title: string): string {
    ReplaceSpaceRuns(RemoveDisallowed(Trim(title)), " ")
  }

  /** A sanitised title holds only allowed chars and never two spaces side by side. */
  lemma SanitizedTitleChars(title: string)
    ensures var r := SanitizeTitle(title);
      (forall i | 0 <= i < |r| :: IsSanitizedChar(r[i])) && NoDoubleSpace(r)
  {
    var kept := RemoveDisallowed(Trim(title));
    ReplaceSpaceRunsKeeps(kept, " ", IsSanitizedChar);
    CollapsedSpacesAreSingle(kept);
  }

  /** A sanitised title is blank exactly when it is "" or a single space. */
  lemma BlankSanitizedTitle(title: string)
    ensures var r := SanitizeTitle(title);
      IsBlank(r) <==> r == [] || r == " "
  {
    var r := SanitizeTitle(title);
    SanitizedTitleChars(title);
    if IsBlank(r) && r != [] {
      assert forall i | 0 <= i < |r| :: r[i] == ' ';
      if |r| >= 2 {
        NoSpacePairAt(r, 0);
      }
    }
  }

  lemma NoSpacePairAt(r: string, i: int)
    requires NoDoubleSpace(r) && 0 <= i < |r| - 1
    ensures !(r[i] == ' ' && r[i + 1] == ' ')
  {
  }

  /** The chars trim() keeps all come from its argument. */
  lemma TrimChars(s: string)
    ensures forall i | 0 <= i < |Trim(s)| :: Trim(s)[i] in s
  {
    var t := TrimStart(s);
    var r := TrimEnd(t);
    forall i | 0 <= i < |r| ensures r[i] in s {
      assert r[i] == t[i] == s[|s| - |t| + i];
    }
  }

  /** A title made only of disallowed chars, such as "!#$&$@", sanitises to "". */
  lemma UnrecognisableTitleIsEmpty(title: string)
    requires forall i | 0 <= i < |title| :: !IsTitleChar(title[i])
    ensures SanitizeTitle(title) == []
  {
    TrimChars(title);
    var t := Trim(title);
    assert forall i | 0 <= i < |t| :: !IsTitleChar(t[i]);
  }

  /**
   * trim() runs before the filter, so a space that sat next to a removed
   * char at the edge survives: "! Matrix" sanitises to " Matrix".
   */
  lemma EdgeSpaceSurvives(c: char, w: string)
    requires !IsTitleChar(c) && !IsTrimmable(c)
    requires IsCleanWord(w)
    ensures SanitizeTitle([c] + " " + w) == " " + w
  {
    EdgeIsTrimmed(c, w);
    EdgeCharRemoved(c, w);
    LeadingSpaceKept(w);
  }

  lemma EdgeIsTrimmed(c: char, w: string)
    requires !IsTrimmable(c) && IsCleanWord(w)
    ensures Trim([c] + " " + w) == [c] + " " + w
  {
    var s := [c] + " " + w;
    assert s[0] == c && s[|s| - 1] == w[|w| - 1];
    TrimOfTrimmedString(s);
  }

  lemma EdgeCharRemoved(c: char, w: string)
    requires !IsTitleChar(c) && IsCleanWord(w)
    ensures RemoveDisallowed([c] + " " + w) == " " + w
  {
    var s := [c] + " " + w;
    assert s[1..] == " " + w;
    assert forall i | 0 <= i < |" " + w| :: IsTitleChar((" " + w)[i]);
  }

  lemma LeadingSpaceKept(w: string)
    requires IsCleanWord(w)
    ensures ReplaceSpaceRuns(" " + w, " ") == " " + w
  {
    assert [] + " " + w == " " + w;
    ReplaceOneRun([], " ", w, " ");
  }

  /** Any run of `\s` chars between two words becomes one space, so "Harry  Potter" reads as "Harry Potter". */
  lemma SpacingBetweenWords(a: string, sp: string, b: string)
    requires IsCleanWord(a) && IsCleanWord(b)
    requires sp != [] && forall i | 0 <= i < |sp| :: IsRegexSpace(sp[i])
    ensures SanitizeTitle(a + sp + b) == a + " " + b
  {
    var s := a + sp + b;
    assert Trim(s) == s by {
      assert s[0] == a[0] && s[|s| - 1] == b[|b| - 1];
      TrimOfTrimmedString(s);
    }
    assert RemoveDisallowed(s) == s by {
      assert forall i | 0 <= i < |s| :: IsTitleChar(s[i]);
    }
    ReplaceOneRun(a, sp, b, " ");
  }

  /** A single clean word is its own sanitised form. */
  lemma CleanWordUnchanged(w: string)
    requires IsCleanWord(w)
    ensures SanitizeTitle(w) == w
  {
    assert Trim(w) == w by {
      TrimOfTrimmedString(w);
    }
    ReplaceSpaceRunsNoSpace(w, " ");
  }

  // ---------------------------------------------------------------- the cache

  /** Every entry sits under the canonical string of an id in the table and equals that row. */
  predicate Coherent(rows: map<Uuid, Dvd>, cache: map<string, Dvd>) {
    forall key | key in cache ::
      IsCanonical(key) && ParseId(key).value in rows && rows[ParseId(key).value] == cache[key]
  }

  /** With a coherent cache, a hit answers what the table would. */
  lemma CacheHitAgreesWithTable(rows: map<Uuid, Dvd>, cache: map<string, Dvd>, key: string)
    requires Coherent(rows, cache) && key in cache
    ensures Lookup(rows, key) == Ok(Some(cache[key]))
  {
  }

  /** Storing a row and caching it under its canonical key keeps the cache coherent. */
  lemma CoherentAfterPut(rows: map<Uuid, Dvd>, cache: map<string, Dvd>, id: Uuid, d: Dvd)
    requires Coherent(rows, cache)
    ensures Coherent(rows[id := d], cache[IdString(id) := d])
  {
    ParseIdString(id);
    forall key | key in cache && key != IdString(id)
      ensures ParseId(key).value != id
    {
      assert IdString(ParseId(key).value) == key;
    }
  }

  /** Deleting a row and its canonical entry keeps the cache coherent. */
  lemma CoherentAfterDelete(rows: map<Uuid, Dvd>, cache: map<string, Dvd>, id: Uuid)
    requires Coherent(rows, cache)
    ensures Coherent(rows - {id}, cache - {IdString(id)})
  {
    forall key | key in cache && key != IdString(id)
      ensures ParseId(key).value != id
    {
      assert IdString(ParseId(key).value) == key;
    }
  }

  // ---------------------------------------------------------------- outcomes

  const NoTitleMessage: string := "No title was provided"
  const DuplicateTitleMessage: string := "Dvd already exists"
  const EmptyPatchMessage: string := "Either quantity or genre must be provided"

  /** Some row has exactly this title. */
  predicate TitleTaken(rows: map<Uuid, Dvd>, title: string) {
    exists id | id in rows :: rows[id].title == title
  }

  /** What createDvd answers for a complete request, given the id the database would generate. */
  function CreateResult(rows: map<Uuid, Dvd>, request: DvdCreateRequest, generated: Uuid): (r: Result<Dvd>)
    requires CreateComplete(request)
    ensures r == Err(IllegalArgument(NoTitleMessage)) <==> IsBlank(SanitizeTitle(request.title.value))
    ensures r == Err(Duplicate(DuplicateTitleMessage)) <==>
      !IsBlank(SanitizeTitle(request.title.value)) && TitleTaken(rows, SanitizeTitle(request.title.value))
    ensures r.Ok? <==>
      !IsBlank(SanitizeTitle(request.title.value)) && !TitleTaken(rows, SanitizeTitle(request.title.value))
      && generated !in rows
    ensures r.Ok? ==> r.value == Dvd(Some(generated), SanitizeTitle(request.title.value),
                                     request.genre.value, request.quantity.value)
  {
    var title := SanitizeTitle(request.title.value);
    if IsBlank(title) then Err(IllegalArgument(NoTitleMessage))
    else if TitleTaken(rows, title) then Err(Duplicate(DuplicateTitleMessage))
    else if generated in rows then Err(DataAccess(DuplicateKeyMessage))
    else Ok(Dvd(Some(generated), title, request.genre.value, request.quantity.value))
  }

  /** A created dvd has a title no other row had, so titles stay distinct. */
  lemma CreatedTitleIsNew(rows: map<Uuid, Dvd>, request: DvdCreateRequest, generated: Uuid)
    requires CreateComplete(request)
    requires CreateResult(rows, request, generated).Ok?
    ensures var d := CreateResult(rows, request, generated).value;
      forall id | id in rows :: rows[id].title != d.title
  {
  }

  /** updateDvdProperties: each field the patch carries replaces the dvd's; id and title stay. */
  function ApplyPatch(d: Dvd, patch: DvdUpdateRequest): (r: Dvd)
    ensures r.id == d.id && r.title == d.title
    ensures r.quantity == (if patch.quantity.Some? then patch.quantity.value else d.quantity)
    ensures r.genre == (if patch.genre.Some? then patch.genre.value else d.genre)
  {
    d.(quantity := patch.quantity.GetOr(d.quantity), genre := patch.genre.GetOr(d.genre))
  }

  /** Applying a patch twice is applying it once. */
  lemma ApplyPatchIdempotent(d: Dvd, patch: DvdUpdateRequest)
    ensures ApplyPatch(ApplyPatch(d, patch), patch) == ApplyPatch(d, patch)
  {
  }

  /** The repository's update of a patched row stores exactly the patched row. */
  lemma UpdateStoresPatchedRow(rows: map<Uuid, Dvd>, id: Uuid, patch: DvdUpdateRequest)
    requires WellKeyed(rows) && id in rows
    ensures UpdatedRows(rows, ApplyPatch(rows[id], patch)) == rows[id := ApplyPatch(rows[id], patch)]
  {
  }

  /** What updateDvd answers: the patched row, or why there is none. */
  function UpdateResult(rows: map<Uuid, Dvd>, dvdId: string, patch: DvdUpdateRequest): (r: Result<Dvd>)
    requires WellKeyed(rows)
    ensures patch.quantity.None? && patch.genre.None? ==> r == Err(IllegalArgument(EmptyPatchMessage))
    ensures r.Ok? <==> (patch.quantity.Some? || patch.genre.Some?) && Lookup(rows, dvdId).Ok?
                       && Lookup(rows, dvdId).value.Some?
    ensures r.Ok? ==> ParseId(dvdId).Some? && r.value.id == ParseId(dvdId)
                      && r.value == ApplyPatch(rows[ParseId(dvdId).value], patch)
    ensures (patch.quantity.Some? || patch.genre.Some?) && ParseId(dvdId).None? ==>
              r == Err(DataAccess(InvalidIdMessage(dvdId)))
    ensures (patch.quantity.Some? || patch.genre.Some?) && ParseId(dvdId).Some? && ParseId(dvdId).value !in rows ==>
              r == Err(NotFound(NotFoundMessage(dvdId)))
  {
    if patch.quantity.None? && patch.genre.None? then Err(IllegalArgument(EmptyPatchMessage))
    else
      match Lookup(rows, dvdId)
      case Err(e) => Err(e)
      case Ok(None) => Err(NotFound(NotFoundMessage(dvdId)))
      case Ok(Some(d)) => Ok(ApplyPatch(d, patch))
  }

  /** What the table says for an id string: the row, or why there is none. */
  function TableRead(rows: map<Uuid, Dvd>, dvdId: string): (r: Result<Dvd>)
    ensures r.Ok? <==> ParseId(dvdId).Some? && ParseId(dvdId).value in rows
    ensures r.Ok? ==> r.value == rows[ParseId(dvdId).value]
    ensures ParseId(dvdId).Some? && ParseId(dvdId).value !in rows ==> r == Err(NotFound(NotFoundMessage(dvdId)))
  {
    match Lookup(rows, dvdId)
    case Err(e) => Err(e)
    case Ok(None) => Err(NotFound(NotFoundMessage(dvdId)))
    case Ok(Some(d)) => Ok(d)
  }

  // ---------------------------------------------------------------- the service

  class DvdService {
    const repository: DvdRepository
    var cache: map<string, Dvd>

    ghost predicate Valid()
      reads this, repository
    {
      repository.Valid() && Coherent(repository.rows, cache)
    }

    constructor(repository: DvdRepository)
      requires repository.Valid()
      ensures Valid() && this.repository == repository && cache == map[]
    {
      this.repository := repository;
      cache := map[];
    }

    /**
     * createDvd: sanitise the title, refuse a blank or taken one, insert, and
     * cache the new row under its id's canonical string. Every failure leaves
     * table and cache as they were.
     */
    method CreateDvd(request: DvdCreateRequest, generated: Uuid) returns (r: Result<Dvd>)
      requires Valid() && CreateComplete(request)
      modifies this, repository
      ensures Valid()
      ensures r == CreateResult(old(repository.rows), request, generated)
      ensures r.Ok? ==> repository.rows == old(repository.rows)[generated := r.value]
                        && cache == old(cache)[IdString(generated) := r.value]
      ensures r.Err? ==> repository.rows == old(repository.rows) && cache == old(cache)
    {
      var title := SanitizeTitle(request.title.value);
      if IsBlank(title) {
        return Err(IllegalArgument(NoTitleMessage));
      }
      var taken := repository.ExistsDvdWithTitle(title);
      if taken {
        return Err(Duplicate(DuplicateTitleMessage));
      }
      r := repository.CreateDvd(Dvd(None, title, request.genre.value, request.quantity.value), generated);
      if r.Ok? {
        CoherentAfterPut(old(repository.rows), cache, generated, r.value);
        cache := cache[IdString(generated) := r.value];
      }
    }

    /**
     * updateDvd, keyed by the canonical string of the id the table found: the
     * patched row goes to the table and to the cache.
     */
    method UpdateDvd(dvdId: string, patch: DvdUpdateRequest) returns (r: Result<Dvd>)
      requires Valid()
      modifies this, repository
      ensures Valid()
      ensures r == UpdateResult(old(repository.rows), dvdId, patch)
      ensures r.Ok? ==> repository.rows == old(repository.rows)[ParseId(dvdId).value := r.value]
                        && cache == old(cache)[IdString(ParseId(dvdId).value) := r.value]
      ensures r.Err? ==> repository.rows == old(repository.rows) && cache == old(cache)
    {
      if patch.quantity.None? && patch.genre.None? {
        return Err(IllegalArgument(EmptyPatchMessage));
      }
      var found := repository.FindDvdById(dvdId);
      if found.Err? {
        return Err(found.error);
      }
      if found.value.None? {
        return Err(NotFound(NotFoundMessage(dvdId)));
      }
      var id := ParseId(dvdId).value;
      var patched := ApplyPatch(found.value.value, patch);
      UpdateStoresPatchedRow(repository.rows, id, patch);
      repository.UpdateDvd(patched);
      CoherentAfterPut(old(repository.rows), cache, id, patched);
      cache := cache[IdString(id) := patched];
      r := Ok(patched);
    }

    /** updateDvd as written: the patched row is cached under the caller's string. */
    method UpdateDvdAsWritten(dvdId: string, patch: DvdUpdateRequest) returns (r: Result<Dvd>)
      requires repository.Valid()
      modifies this, repository
      ensures repository.Valid()
      ensures r == UpdateResult(old(repository.rows), dvdId, patch)
      ensures r.Ok? ==> repository.rows == old(repository.rows)[ParseId(dvdId).value := r.value]
                        && cache == old(cache)[dvdId := r.value]
      ensures r.Err? ==> repository.rows == old(repository.rows) && cache == old(cache)
    {
      if patch.quantity.None? && patch.genre.None? {
        return Err(IllegalArgument(EmptyPatchMessage));
      }
      var found := repository.FindDvdById(dvdId);
      if found.Err? {
        return Err(found.error);
      }
      if found.value.None? {
        return Err(NotFound(NotFoundMessage(dvdId)));
      }
      var patched := ApplyPatch(found.value.value, patch);
      UpdateStoresPatchedRow(repository.rows, ParseId(dvdId).value, patch);
      repository.UpdateDvd(patched);
      cache := cache[dvdId := patched];
      r := Ok(patched);
    }

    /**
     * findDvdById: a cached entry is returned without reading the table; on a
     * miss the row is read and cached under its id's canonical string. With a
     * coherent cache the answer is always the table's.
     */
    method FindDvdById(dvdId: string) returns (r: Result<Dvd>)
      requires repository.Valid()
      modifies this
      ensures dvdId in old(cache) ==> r == Ok(old(cache)[dvdId]) && cache == old(cache)
      ensures dvdId !in old(cache) ==> r == TableRead(repository.rows, dvdId)
      ensures dvdId !in old(cache) && r.Ok? ==>
        r.value.id.Some? && cache == old(cache)[IdString(r.value.id.value) := r.value]
      ensures r.Err? ==> cache == old(cache)
      ensures old(Valid()) ==> Valid() && r == TableRead(repository.rows, dvdId)
    {
      if dvdId in cache {
        if Valid() {
          CacheHitAgreesWithTable(repository.rows, cache, dvdId);
        }
        return Ok(cache[dvdId]);
      }
      var found := repository.FindDvdById(dvdId);
      if found.Err? {
        return Err(found.error);
      }
      if found.value.None? {
        return Err(NotFound(NotFoundMessage(dvdId)));
      }
      var d := found.value.value;
      var id := ParseId(dvdId).value;
      if Valid() {
        assert repository.rows[id := d] == repository.rows;
        CoherentAfterPut(repository.rows, cache, id, d);
      }
      cache := cache[IdString(d.id.value) := d];
      r := Ok(d);
    }

    /** findDvds: a title search for a title that is not blank, else every row; the cache is not used. */
    method FindDvds(title: Option<string>) returns (r: set<Dvd>)
      ensures title.Some? && !IsBlank(title.value) ==> r == TitleSearch(repository.rows, title.value)
      ensures title.None? || IsBlank(title.value) ==> r == repository.rows.Values
    {
      if title.Some? && !IsBlank(title.value) {
        r := repository.FindDvdsByTitle(title.value);
      } else {
        r := repository.FindAllDvds();
      }
    }

    /** deleteDvd, keyed by the canonical string: the table first, then the cache entry of that id. */
    method DeleteDvd(dvdId: string) returns (r: Outcome)
      requires Valid()
      modifies this, repository
      ensures Valid()
      ensures r.Pass? <==> ParseId(dvdId).Some? && ParseId(dvdId).value in old(repository.rows)
      ensures r.Pass? ==> repository.rows == old(repository.rows) - {ParseId(dvdId).value}
                          && cache == old(cache) - {IdString(ParseId(dvdId).value)}
      ensures ParseId(dvdId).Some? && ParseId(dvdId).value !in old(repository.rows) ==>
        r == Fail(NotFound(NotFoundMessage(dvdId)))
      ensures r.Fail? ==> repository.rows == old(repository.rows) && cache == old(cache)
    {
      r := repository.DeleteDvd(dvdId);
      if r.Pass? {
        var id := ParseId(dvdId).value;
        CoherentAfterDelete(old(repository.rows), cache, id);
        cache := cache - {IdString(id)};
      }
    }

    /** deleteDvd as written: the cache entry under the caller's string is removed. */
    method DeleteDvdAsWritten(dvdId: string) returns (r: Outcome)
      requires repository.Valid()
      modifies this, repository
      ensures repository.Valid()
      ensures r.Pass? <==> ParseId(dvdId).Some? && ParseId(dvdId).value in old(repository.rows)
      ensures r.Pass? ==> repository.rows == old(repository.rows) - {ParseId(dvdId).value}
                          && cache == old(cache) - {dvdId}
      ensures r.Fail? ==> repository.rows == old(repository.rows) && cache == old(cache)
    {
      r := repository.DeleteDvd(dvdId);
      if r.Pass? {
        cache := cache - {dvdId};
      }
    }
  }

  // ---------------------------------------------------------------- the raw-key defects

  /**
   * updateDvd as written: after an update through the upper-case spelling of
   * an id, a read through the canonical string still serves the old quantity.
   */
  method StaleReadAfterUpperCaseUpdate() returns (served: Dvd, stored: Dvd)
    ensures served.quantity == 1 && stored.quantity == 2 && served.id == stored.id
  {
    var repository := new DvdRepository();
    var service := new DvdService(repository);
    var created := repository.CreateDvd(Dvd(None, "Matrix", Thriller, 1), AllTens);
    var canonical := IdString(AllTens);
    ParseIdString(AllTens);
    var upper := seq(36, i requires 0 <= i < 36 => if IsHyphenAt(i) then '-' else 'A');
    UpperCaseSpellingNamesSameId();
    var first := service.FindDvdById(canonical);
    var updated := service.UpdateDvdAsWritten(upper, DvdUpdateRequest(Some(2), None));
    var second := service.FindDvdById(canonical);
    served := second.value;
    stored := repository.rows[AllTens];
  }

  /**
   * deleteDvd as written: after a delete through the upper-case spelling of
   * an id, a read through the canonical string still serves the deleted dvd.
   */
  method DeletedDvdStillServed() returns (served: Result<Dvd>, inTable: bool)
    ensures served == Ok(Dvd(Some(AllTens), "Matrix", Thriller, 1)) && !inTable
  {
    var repository := new DvdRepository();
    var service := new DvdService(repository);
    var created := repository.CreateDvd(Dvd(None, "Matrix", Thriller, 1), AllTens);
    var canonical := IdString(AllTens);
    ParseIdString(AllTens);
    var upper := seq(36, i requires 0 <= i < 36 => if IsHyphenAt(i) then '-' else 'A');
    UpperCaseSpellingNamesSameId();
    var first := service.FindDvdById(canonical);
    var deleted := service.DeleteDvdAsWritten(upper);
    served := service.FindDvdById(canonical);
    inTable := AllTens in repository.rows;
  }
}
