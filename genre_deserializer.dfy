/**
 * DvdGenreDeserializer: reads a genre from a JSON string whatever its letter
 * case and spacing. The text is trimmed, every run of `\s` chars becomes one
 * "_", the result is upper-cased and looked up among the constant names.
 */
module GenreDeserializer {
  import opened Common
  import opened JavaStrings
  import opened Entities

  /** value.trim().replaceAll("\\s+", "_").toUpperCase() */
  function Normalize(raw: string): string {
    Upper(ReplaceSpaceRuns(Trim(raw), "_"))
  }

  /** DvdGenre.valueOf(name): the constant with exactly that name, if any. */
  function ValueOf(name: string): (r: Option<Genre>)
    ensures r.Some? ==> r.value.Name() == name
    ensures r.None? ==> forall g: Genre :: g.Name() != name
  {
    if name == Adventure.Name() then Some(Adventure)
    else if name == ScienceFiction.Name() then Some(ScienceFiction)
    else if name == Thriller.Name() then Some(Thriller)
    else None
  }

  function ErrorMessage(normalized: string): string {
    "Invalid dvd genre: " + normalized
  }

  /** deserialize: the genre whose name is the normalised text, else "Invalid dvd genre: " and that text. */
  function Deserialize(raw: string): (r: Result<Genre>)
    ensures r.Ok? <==> exists g: Genre :: g.Name() == Normalize(raw)
    ensures r.Ok? ==> r.value.Name() == Normalize(raw)
    ensures r.Err? ==> r.error == IllegalArgument(ErrorMessage(Normalize(raw)))
  {
    var name := Normalize(raw);
    match ValueOf(name)
    case Some(g) => Ok(g)
    case None => Err(IllegalArgument(ErrorMessage(name)))
  }

  /** The chars of a constant name: upper-case ASCII letters and the underscore. */
  predicate IsNameChar(c: char) {
    IsAsciiUpper(c) || c == '_'
  }

  /** A constant name is its own normal form. */
  lemma NormalizeName(name: string)
    requires forall i | 0 <= i < |name| :: IsNameChar(name[i])
    ensures Normalize(name) == name
  {
    assert Trim(name) == name by { NameIsTrimmed(name); }
    assert ReplaceSpaceRuns(name, "_") == name by { NameHasNoSpace(name); }
    assert Upper(name) == name by { UpperOfNameChars(name); }
  }

  lemma NameIsTrimmed(name: string)
    requires forall i | 0 <= i < |name| :: IsNameChar(name[i])
    ensures Trim(name) == name
  {
    TrimOfTrimmedString(name);
  }

  lemma NameHasNoSpace(name: string)
    requires forall i | 0 <= i < |name| :: IsNameChar(name[i])
    ensures ReplaceSpaceRuns(name, "_") == name
  {
    ReplaceSpaceRunsNoSpace(name, "_");
  }

  lemma UpperOfNameChars(name: string)
    requires forall i | 0 <= i < |name| :: IsNameChar(name[i])
    ensures Upper(name) == name
  {
  }

  /** Every genre's name reads back as that genre. */
  lemma RoundTrip(g: Genre)
    ensures Deserialize(g.Name()) == Ok(g)
  {
    NameCharsOf(g);
    NormalizeName(g.Name());
  }

  lemma NameCharsOf(g: Genre)
    ensures forall i | 0 <= i < |g.Name()| :: IsNameChar(g.Name()[i])
  {
  }

  /** Upper-casing changes no `\s` char, so it can be done before or after replacing the runs. */
  lemma {:induction false} UpperReplaceCommute(s: string, rep: string)
    requires Upper(rep) == rep
    ensures ReplaceSpaceRuns(Upper(s), rep) == Upper(ReplaceSpaceRuns(s, rep))
    decreases |s|
  {
    if s != [] {
      var u := Upper(s);
      UpperHead(s);
      if IsRegexSpace(s[0]) {
        assert ReplaceSpaceRuns(u, rep) == rep + ReplaceSpaceRuns(DropSpaces(u), rep);
        UpperDropSpacesCommute(s);
        UpperReplaceCommute(DropSpaces(s), rep);
        UpperConcat(rep, ReplaceSpaceRuns(DropSpaces(s), rep));
      } else {
        assert ReplaceSpaceRuns(u, rep) == [u[0]] + ReplaceSpaceRuns(u[1..], rep);
        UpperReplaceCommute(s[1..], rep);
        UpperConcat([s[0]], ReplaceSpaceRuns(s[1..], rep));
      }
    }
  }

  lemma {:induction false} UpperDropSpacesCommute(s: string)
    ensures DropSpaces(Upper(s)) == Upper(DropSpaces(s))
    decreases |s|
  {
    if s != [] {
      UpperHead(s);
      if IsRegexSpace(s[0]) {
        UpperDropSpacesCommute(s[1..]);
      }
    }
  }

  /** The head of an upper-cased string is a `\s` char exactly when the original head is; the tail is the upper-cased tail. */
  lemma UpperHead(s: string)
    requires s != []
    ensures Upper(s)[0] == UpperChar(s[0]) && Upper(s)[1..] == Upper(s[1..])
    ensures IsRegexSpace(Upper(s)[0]) <==> IsRegexSpace(s[0])
  {
  }

  lemma UpperConcat(a: string, b: string)
    ensures Upper(a + b) == Upper(a) + Upper(b)
  {
  }

  /** Letter case does not matter: texts that agree up to case read as the same genre or fail alike. */
  lemma IgnoresCase(a: string, b: string)
    requires EqualsIgnoreCase(a, b)
    ensures Deserialize(a) == Deserialize(b)
  {
    NormalizeUpper(a);
    NormalizeUpper(b);
    UpperDecidesCase(a, b);
  }

  lemma NormalizeUpper(s: string)
    ensures Normalize(Upper(s)) == Normalize(s)
  {
    TrimUpperCommute(s);
    UpperReplaceCommute(Trim(s), "_");
    UpperIdempotent(ReplaceSpaceRuns(Trim(s), "_"));
  }

  /** Spaces and other trimmable chars around the text are ignored. */
  lemma IgnoresPadding(pre: string, s: string, post: string)
    requires forall i | 0 <= i < |pre| :: IsTrimmable(pre[i])
    requires forall i | 0 <= i < |post| :: IsTrimmable(post[i])
    ensures Deserialize(pre + s + post) == Deserialize(s)
  {
    TrimIgnoresPadding(pre, s, post);
  }

  /** The exact constant name is accepted. */
  lemma ExactNameAccepted()
    ensures Deserialize("SCIENCE_FICTION") == Ok(ScienceFiction)
  {
    RoundTrip(ScienceFiction);
  }

  /** Mixed case is accepted. */
  lemma MixedCaseAccepted()
    ensures Deserialize("sCiENCE_FICTiON") == Ok(ScienceFiction)
  {
    assert EqualsIgnoreCase("sCiENCE_FICTiON", "SCIENCE_FICTION");
    IgnoresCase("sCiENCE_FICTiON", "SCIENCE_FICTION");
    RoundTrip(ScienceFiction);
  }

  /** Padding, mixed case and a space for the underscore together: " sCiENCE FICTiON   " is accepted. */
  lemma PaddedSpacedMixedCaseAccepted()
    ensures Deserialize(" sCiENCE FICTiON   ") == Ok(ScienceFiction)
  {
    PaddingStep();
    CaseStep();
    SpaceStep();
  }

  lemma PaddingStep()
    ensures Deserialize(" sCiENCE FICTiON   ") == Deserialize("sCiENCE FICTiON")
  {
    assert " sCiENCE FICTiON   " == " " + "sCiENCE FICTiON" + "   ";
    IgnoresPadding(" ", "sCiENCE FICTiON", "   ");
  }

  lemma CaseStep()
    ensures Deserialize("sCiENCE FICTiON") == Deserialize("SCIENCE FICTION")
  {
    assert EqualsIgnoreCase("sCiENCE FICTiON", "SCIENCE FICTION");
    IgnoresCase("sCiENCE FICTiON", "SCIENCE FICTION");
  }

  lemma SpaceStep()
    ensures Deserialize("SCIENCE FICTION") == Ok(ScienceFiction)
  {
    WordsOfScienceFiction();
    SpaceReadsAsUnderscore("SCIENCE", "FICTION");
    ExactNameAccepted();
  }

  lemma WordsOfScienceFiction()
    ensures "SCIENCE FICTION" == "SCIENCE" + " " + "FICTION"
    ensures "SCIENCE_FICTION" == "SCIENCE" + "_" + "FICTION"
    ensures forall i | 0 <= i < |"SCIENCE"| :: IsNameChar("SCIENCE"[i])
    ensures forall i | 0 <= i < |"FICTION"| :: IsNameChar("FICTION"[i])
  {
  }

  /** A single space between two words reads as the underscore of a constant name. */
  lemma SpaceReadsAsUnderscore(a: string, b: string)
    requires a != [] && b != []
    requires forall i | 0 <= i < |a| :: IsNameChar(a[i])
    requires forall i | 0 <= i < |b| :: IsNameChar(b[i])
    ensures Deserialize(a + " " + b) == Deserialize(a + "_" + b)
  {
    var joined := a + "_" + b;
    assert Normalize(joined) == joined by {
      assert forall i | 0 <= i < |joined| :: IsNameChar(joined[i]);
      NormalizeName(joined);
    }
    assert Normalize(a + " " + b) == joined by {
      SpacedNormalForm(a, b);
    }
    SameNormalForm(a + " " + b, joined);
  }

  lemma SpacedNormalForm(a: string, b: string)
    requires a != [] && b != []
    requires forall i | 0 <= i < |a| :: IsNameChar(a[i])
    requires forall i | 0 <= i < |b| :: IsNameChar(b[i])
    ensures Normalize(a + " " + b) == a + "_" + b
  {
    SpacedIsTrimmed(a, b);
    ReplaceOneRun(a, " ", b, "_");
    JoinedIsUpper(a, b);
    NormalFormOf(a + " " + b, a + "_" + b);
  }

  lemma SpacedIsTrimmed(a: string, b: string)
    requires a != [] && b != []
    requires forall i | 0 <= i < |a| :: IsNameChar(a[i])
    requires forall i | 0 <= i < |b| :: IsNameChar(b[i])
    ensures Trim(a + " " + b) == a + " " + b
  {
    var spaced := a + " " + b;
    assert spaced[0] == a[0] && spaced[|spaced| - 1] == b[|b| - 1];
    TrimOfTrimmedString(spaced);
  }

  lemma JoinedIsUpper(a: string, b: string)
    requires forall i | 0 <= i < |a| :: IsNameChar(a[i])
    requires forall i | 0 <= i < |b| :: IsNameChar(b[i])
    ensures Upper(a + "_" + b) == a + "_" + b
  {
    var joined := a + "_" + b;
    assert forall i | 0 <= i < |joined| :: IsNameChar(joined[i]);
    UpperOfNameChars(joined);
  }

  lemma NormalFormOf(s: string, n: string)
    requires Trim(s) == s && ReplaceSpaceRuns(s, "_") == n && Upper(n) == n
    ensures Normalize(s) == n
  {
  }

  /** The result depends on the normalised text only. */
  lemma SameNormalForm(a: string, b: string)
    requires Normalize(a) == Normalize(b)
    ensures Deserialize(a) == Deserialize(b)
  {
  }

  /** The empty string is rejected, and the message ends with the empty normalised text. */
  lemma EmptyRejected()
    ensures Deserialize("") == Err(IllegalArgument("Invalid dvd genre: "))
  {
    assert Normalize("") == "";
  }
}
