/**
 * DvdRepository: the `dvd` table behind JDBC. The table is a map from id to
 * row; the id the database generates for an insert is a parameter of the
 * insert, since it is random. Ids arrive as strings and go through
 * `CAST(? AS uuid)`, which fails for a string that is not a uuid.
 */
module DvdStore {
  import opened Common
  import opened JavaStrings
  import opened SqlLike
  import opened Uuids
  import opened Entities

  /** Every row carries the id it is stored under. */
  predicate WellKeyed(rows: map<Uuid, Dvd>) {
    forall id | id in rows :: rows[id].id == Some(id)
  }

  /** The database's answer when the generated id is already taken by another row. */
  const DuplicateKeyMessage: string := "duplicate key value violates unique constraint \"dvd_pkey\""

  /** The database's answer when the id string is not a uuid. */
  function InvalidIdMessage(dvdId: string): string {
    "invalid input syntax for type uuid: \"" + dvdId + "\""
  }

  function NotFoundMessage(dvdId: string): string {
    "Dvd was not found with id: " + dvdId
  }

  /** `SELECT ... WHERE id = CAST(? AS uuid)`: the row if there is one, an error if the string is not a uuid. */
  function Lookup(rows: map<Uuid, Dvd>, dvdId: string): (r: Result<Option<Dvd>>)
    ensures r.Err? <==> ParseId(dvdId).None?
    ensures r.Err? ==> r.error == DataAccess(InvalidIdMessage(dvdId))
    ensures r.Ok? && r.value.Some? <==> ParseId(dvdId).Some? && ParseId(dvdId).value in rows
    ensures r.Ok? && r.value.Some? ==> r.value.value == rows[ParseId(dvdId).value]
  {
    match ParseId(dvdId)
    case None => Err(DataAccess(InvalidIdMessage(dvdId)))
    case Some(id) => Ok(if id in rows then Some(rows[id]) else None)
  }

  /** The search pattern the title query binds: the text between two `%`. */
  function SearchPattern(title: string): (p: string)
    ensures PatternOk(p)
  {
    PatternOkUnlessEndsWithEscape("%" + title + "%");
    "%" + title + "%"
  }

  /** `SELECT ... WHERE title ILIKE '%' || title || '%'` */
  function TitleSearch(rows: map<Uuid, Dvd>, title: string): (r: set<Dvd>)
    ensures forall d :: d in r <==> d in rows.Values && ILike(d.title, SearchPattern(title))
  {
    set id | id in rows && ILike(rows[id].title, SearchPattern(title)) :: rows[id]
  }

  /**
   * The search pattern never makes the database fail, even for a title that
   * ends with a backslash (that backslash escapes the closing `%`), and the
   * database's matcher keeps exactly the titles ILike keeps.
   */
  lemma SearchNeverFails(t: string, title: string)
    ensures MatchText(t, SearchPattern(title)) != EscapeError
    ensures MatchText(t, SearchPattern(title)) == LikeTrue <==> ILike(t, SearchPattern(title))
  {
    MatchTextAgrees(t, SearchPattern(title));
  }

  /** For a query without `%`, `_` or backslash the search finds the titles containing it, in any case. */
  lemma PlainTitleSearch(rows: map<Uuid, Dvd>, title: string, d: Dvd)
    requires IsPlain(title)
    ensures d in TitleSearch(rows, title) <==> d in rows.Values && ContainsIgnoreCase(d.title, title)
  {
    ContainsPattern(d.title, title);
  }

  /** A lone `_` is a wildcard: the search returns every row whose title is not empty. */
  lemma UnderscoreTitleSearch(rows: map<Uuid, Dvd>, d: Dvd)
    ensures d in TitleSearch(rows, "_") <==> d in rows.Values && d.title != []
  {
    assert SearchPattern("_") == "%_%";
    UnderscoreMatchesAnyText(d.title);
  }

  /** `UPDATE dvd SET genre = ?, quantity = ? WHERE id = ?`: a null or absent id updates nothing. */
  function UpdatedRows(rows: map<Uuid, Dvd>, dvd: Dvd): map<Uuid, Dvd> {
    if dvd.id.Some? && dvd.id.value in rows then
      rows[dvd.id.value := rows[dvd.id.value].(genre := dvd.genre, quantity := dvd.quantity)]
    else rows
  }

  /** An update keeps every id and title, changes at most the row it names, and keeps rows under their ids. */
  lemma UpdateKeepsIdsAndTitles(rows: map<Uuid, Dvd>, dvd: Dvd)
    requires WellKeyed(rows)
    ensures var u := UpdatedRows(rows, dvd);
      WellKeyed(u) && u.Keys == rows.Keys
      && (forall id | id in rows :: u[id].id == rows[id].id && u[id].title == rows[id].title)
      && (forall id | id in rows && Some(id) != dvd.id :: u[id] == rows[id])
  {
  }

  /** On the row it names, an update sets exactly the genre and the quantity. */
  lemma UpdateSetsGenreAndQuantity(rows: map<Uuid, Dvd>, dvd: Dvd)
    requires dvd.id.Some? && dvd.id.value in rows
    ensures var row := UpdatedRows(rows, dvd)[dvd.id.value];
      row.genre == dvd.genre && row.quantity == dvd.quantity
  {
  }

  /** The table. */
  class DvdRepository {
    var rows: map<Uuid, Dvd>

    ghost predicate Valid()
      reads this
    {
      WellKeyed(rows)
    }

    constructor()
      ensures Valid() && rows == map[]
    {
      rows := map[];
    }

    /**
     * INSERT: the row gets the generated id; title, genre and quantity are
     * stored as given. An id already in use is the database's duplicate-key error.
     */
    method CreateDvd(dvd: Dvd, generated: Uuid) returns (r: Result<Dvd>)
      requires Valid()
      modifies this
      ensures Valid()
      ensures generated in old(rows) ==> r == Err(DataAccess(DuplicateKeyMessage)) && rows == old(rows)
      ensures generated !in old(rows) ==>
        r == Ok(dvd.(id := Some(generated))) && rows == old(rows)[generated := r.value]
    {
      if generated in rows {
        return Err(DataAccess(DuplicateKeyMessage));
      }
      var saved := dvd.(id := Some(generated));
      rows := rows[generated := saved];
      r := Ok(saved);
    }

    /** findDvdByID: empty when no row has the id, an error when the string is not a uuid. */
    method FindDvdById(dvdId: string) returns (r: Result<Option<Dvd>>)
      ensures r == Lookup(rows, dvdId)
    {
      var id := ParseId(dvdId);
      if id.None? {
        return Err(DataAccess(InvalidIdMessage(dvdId)));
      }
      if id.value in rows {
        r := Ok(Some(rows[id.value]));
      } else {
        r := Ok(None);
      }
    }

    /** findDvdsByTitle: the rows whose title matches `%title%` under ILIKE; the list order is not modelled. */
    method FindDvdsByTitle(title: string) returns (r: set<Dvd>)
      ensures r == TitleSearch(rows, title)
    {
      r := set id | id in rows && ILike(rows[id].title, SearchPattern(title)) :: rows[id];
    }

    /** findAllDvds: every row. */
    method FindAllDvds() returns (r: set<Dvd>)
      ensures r == rows.Values
    {
      r := rows.Values;
    }

    /** updateDvd: genre and quantity of the row with the dvd's id; the title is never written. */
    method UpdateDvd(dvd: Dvd)
      requires Valid()
      modifies this
      ensures Valid()
      ensures rows == UpdatedRows(old(rows), dvd)
    {
      UpdateKeepsIdsAndTitles(rows, dvd);
      if dvd.id.Some? && dvd.id.value in rows {
        var id := dvd.id.value;
        rows := rows[id := rows[id].(genre := dvd.genre, quantity := dvd.quantity)];
      }
    }

    /** deleteDvd: fails unless exactly one row was deleted. */
    method DeleteDvd(dvdId: string) returns (r: Outcome)
      requires Valid()
      modifies this
      ensures Valid()
      ensures ParseId(dvdId).None? ==> r == Fail(DataAccess(InvalidIdMessage(dvdId))) && rows == old(rows)
      ensures ParseId(dvdId).Some? && ParseId(dvdId).value !in old(rows) ==>
        r == Fail(NotFound(NotFoundMessage(dvdId))) && rows == old(rows)
      ensures ParseId(dvdId).Some? && ParseId(dvdId).value in old(rows) ==>
        r == Pass && rows == old(rows) - {ParseId(dvdId).value}
    {
      var id := ParseId(dvdId);
      if id.None? {
        return Fail(DataAccess(InvalidIdMessage(dvdId)));
      }
      if id.value !in rows {
        return Fail(NotFound(NotFoundMessage(dvdId)));
      }
      rows := rows - {id.value};
      r := Pass;
    }

    /** existsDvdWithTitle: some row has exactly this title, letter case included. */
    method ExistsDvdWithTitle(title: string) returns (b: bool)
      ensures b <==> exists id | id in rows :: rows[id].title == title
    {
      b := exists id | id in rows :: rows[id].title == title;
    }

    /** deleteAllDvds */
    method DeleteAllDvds()
      modifies this
      ensures Valid() && rows == map[]
    {
      rows := map[];
    }
  }
}
