/**
 * PostgreSQL's `text ILIKE pattern`: `%` matches any run of characters, `_`
 * matches exactly one, a backslash makes the next character literal, and
 * every other character matches itself up to letter case. Case folding is
 * modelled for the ASCII letters.
 *
 * ILike is the meaning of a well-formed pattern. MatchText is the matcher the
 * database runs (MatchText in PostgreSQL's like_match.c): it can stop early,
 * and it raises "LIKE pattern must not end with escape character" only when
 * its scan reaches a lone trailing backslash while text is left to match.
 * MatchTextAgrees shows the two coincide on well-formed patterns.
 */
module SqlLike {
  import opened JavaStrings

  const Escape: char := '\\'

  /** Characters with a meaning of their own inside a LIKE pattern. */
  predicate IsMeta(c: char) {
    c == '%' || c == '_' || c == Escape
  }

  /** A pattern with no wildcard and no escape: it can only match literally. */
  predicate IsPlain(q: string) {
    forall i | 0 <= i < |q| :: !IsMeta(q[i])
  }

  /** The pattern does not end in a lone escape character, so the database accepts it. */
  predicate PatternOk(p: string)
    decreases |p|
  {
    if p == [] then true
    else if p[0] == Escape then |p| >= 2 && PatternOk(p[2..])
    else PatternOk(p[1..])
  }

  /** `t ILIKE p` */
  predicate ILike(t: string, p: string)
    requires PatternOk(p)
    decreases |p|, |t|
  {
    if p == [] then t == []
    else if p[0] == '%' then ILike(t, p[1..]) || (t != [] && ILike(t[1..], p))
    else if p[0] == '_' then t != [] && ILike(t[1..], p[1..])
    else if p[0] == Escape then t != [] && LowerChar(t[0]) == LowerChar(p[1]) && ILike(t[1..], p[2..])
    else t != [] && LowerChar(t[0]) == LowerChar(p[0]) && ILike(t[1..], p[1..])
  }

  /** Only a trailing escape character can make a pattern unacceptable. */
  lemma {:induction false} PatternOkUnlessEndsWithEscape(p: string)
    requires p == [] || p[|p| - 1] != Escape
    ensures PatternOk(p)
    decreases |p|
  {
    if p == [] {
    } else if p[0] == Escape {
      if |p| > 2 {
        assert p[2..][|p[2..]| - 1] == p[|p| - 1];
        PatternOkUnlessEndsWithEscape(p[2..]);
      }
    } else {
      if |p| > 1 {
        assert p[1..][|p[1..]| - 1] == p[|p| - 1];
      }
      PatternOkUnlessEndsWithEscape(p[1..]);
    }
  }

  /** `t` contains `q`, up to letter case, starting at index `i`. */
  predicate MatchesAt(t: string, q: string, i: int) {
    0 <= i && i + |q| <= |t| && EqualsIgnoreCase(t[i..i + |q|], q)
  }

  /** `t` contains `q` somewhere, up to letter case. */
  predicate ContainsIgnoreCase(t: string, q: string) {
    exists i | 0 <= i <= |t| :: MatchesAt(t, q, i)
  }

  /** A plain pattern matches exactly the strings equal to it up to case. */
  lemma {:induction false} PlainMatchIsEqualsIgnoreCase(t: string, q: string)
    requires IsPlain(q)
    ensures PatternOk(q)
    ensures ILike(t, q) <==> EqualsIgnoreCase(t, q)
    decreases |q|
  {
    PatternOkUnlessEndsWithEscape(q);
    if q != [] && t != [] {
      PlainMatchIsEqualsIgnoreCase(t[1..], q[1..]);
      assert EqualsIgnoreCase(t, q) <==>
        LowerChar(t[0]) == LowerChar(q[0]) && EqualsIgnoreCase(t[1..], q[1..]) by {
        if LowerChar(t[0]) == LowerChar(q[0]) && EqualsIgnoreCase(t[1..], q[1..]) {
          forall i | 0 <= i < |t| ensures LowerChar(t[i]) == LowerChar(q[i]) {
            if i > 0 { assert t[i] == t[1..][i - 1] && q[i] == q[1..][i - 1]; }
          }
        }
      }
    }
  }

  /** `%` alone matches every string. */
  lemma {:induction false} PercentMatchesAll(t: string)
    ensures PatternOk("%") && ILike(t, "%")
    decreases |t|
  {
    assert "%"[1..] == [];
    if t != [] {
      PercentMatchesAll(t[1..]);
    }
  }

  /** A leading `%` lets the rest of the pattern match any suffix. */
  lemma {:induction false} LeadingPercent(t: string, p: string)
    requires PatternOk(p)
    ensures PatternOk("%" + p)
    ensures ILike(t, "%" + p) <==> exists i | 0 <= i <= |t| :: ILike(t[i..], p)
    decreases |t|
  {
    var pp := "%" + p;
    assert pp[1..] == p;
    if t == [] {
      assert t[0..] == t;
    } else {
      LeadingPercent(t[1..], p);
      SuffixShift(t, p);
    }
  }

  /** Some suffix of a non-empty `t` matches: `t` itself, or a suffix of its tail. */
  lemma SuffixShift(t: string, p: string)
    requires t != [] && PatternOk(p)
    ensures (exists i | 0 <= i <= |t| :: ILike(t[i..], p))
        <==> ILike(t, p) || exists j | 0 <= j <= |t[1..]| :: ILike(t[1..][j..], p)
  {
    assert t[0..] == t;
    if exists i | 0 <= i <= |t| :: ILike(t[i..], p) {
      SuffixIsTailSuffix(t, p);
    }
    if exists j | 0 <= j <= |t[1..]| :: ILike(t[1..][j..], p) {
      TailSuffixIsSuffix(t, p);
    }
  }

  lemma SuffixIsTailSuffix(t: string, p: string)
    requires t != [] && PatternOk(p)
    requires exists i | 0 <= i <= |t| :: ILike(t[i..], p)
    ensures ILike(t, p) || exists j | 0 <= j <= |t[1..]| :: ILike(t[1..][j..], p)
  {
    var i :| 0 <= i <= |t| && ILike(t[i..], p);
    if i > 0 {
      assert t[1..][i - 1..] == t[i..];
    } else {
      assert t[i..] == t;
    }
  }

  lemma TailSuffixIsSuffix(t: string, p: string)
    requires t != [] && PatternOk(p)
    requires exists j | 0 <= j <= |t[1..]| :: ILike(t[1..][j..], p)
    ensures exists i | 0 <= i <= |t| :: ILike(t[i..], p)
  {
    var j :| 0 <= j <= |t[1..]| && ILike(t[1..][j..], p);
    assert t[1..][j..] == t[j + 1..];
  }

  /** A plain pattern followed by `%` matches the strings that start with it, up to case. */
  lemma {:induction false} TrailingPercent(t: string, q: string)
    requires IsPlain(q)
    ensures PatternOk(q + "%")
    ensures ILike(t, q + "%") <==> |q| <= |t| && EqualsIgnoreCase(t[..|q|], q)
    decreases |q|
  {
    PatternOkUnlessEndsWithEscape(q + "%");
    if q == [] {
      assert q + "%" == "%";
      PercentMatchesAll(t);
    } else {
      assert (q + "%")[1..] == q[1..] + "%";
      assert (q + "%")[0] == q[0];
      if t != [] {
        TrailingPercent(t[1..], q[1..]);
        if |q| <= |t| {
          assert t[1..][..|q| - 1] == t[..|q|][1..];
          assert EqualsIgnoreCase(t[..|q|], q) <==>
            LowerChar(t[0]) == LowerChar(q[0]) && EqualsIgnoreCase(t[..|q|][1..], q[1..]) by {
            var a := t[..|q|];
            if LowerChar(t[0]) == LowerChar(q[0]) && EqualsIgnoreCase(a[1..], q[1..]) {
              forall i | 0 <= i < |a| ensures LowerChar(a[i]) == LowerChar(q[i]) {
                if i > 0 { assert a[i] == a[1..][i - 1] && q[i] == q[1..][i - 1]; }
              }
            }
          }
        }
      }
    }
  }

  /**
   * The title search: `title ILIKE '%' || q || '%'` holds exactly when the
   * title contains `q` up to case, provided `q` carries no wildcard or escape.
   */
  lemma ContainsPattern(t: string, q: string)
    requires IsPlain(q)
    ensures PatternOk("%" + q + "%")
    ensures ILike(t, "%" + q + "%") <==> ContainsIgnoreCase(t, q)
  {
    TrailingPercent([], q);
    assert "%" + q + "%" == "%" + (q + "%");
    LeadingPercent(t, q + "%");
    if ILike(t, "%" + q + "%") {
      var i :| 0 <= i <= |t| && ILike(t[i..], q + "%");
      TrailingPercent(t[i..], q);
      assert t[i..][..|q|] == t[i..i + |q|];
      assert MatchesAt(t, q, i);
    }
    if ContainsIgnoreCase(t, q) {
      var i :| 0 <= i <= |t| && MatchesAt(t, q, i);
      TrailingPercent(t[i..], q);
      assert t[i..][..|q|] == t[i..i + |q|];
    }
  }

  /** `_%` matches exactly the non-empty strings. */
  lemma UnderscorePercent(t: string)
    ensures PatternOk("_%")
    ensures ILike(t, "_%") <==> t != []
  {
    assert "_%"[1..] == "%";
    PercentMatchesAll([]);
    if t != [] {
      PercentMatchesAll(t[1..]);
    }
  }

  /**
   * An underscore alone between the two `%` of the title search matches every
   * non-empty text: `_` is a wildcard, not a literal underscore.
   */
  lemma UnderscoreMatchesAnyText(t: string)
    ensures PatternOk("%_%")
    ensures ILike(t, "%_%") <==> t != []
  {
    UnderscorePercent([]);
    assert "%_%" == "%" + "_%";
    LeadingPercent(t, "_%");
    if t != [] {
      UnderscorePercent(t[0..]);
      assert t[0..] == t;
    } else {
      UnderscorePercent(t);
    }
  }

  /** A plain prefix shared by text and pattern is matched char by char and drops out. */
  lemma {:induction false} PlainPrefix(a: string, t: string, p: string)
    requires IsPlain(a) && PatternOk(p)
    ensures PatternOk(a + p)
    ensures ILike(a + t, a + p) <==> ILike(t, p)
    decreases |a|
  {
    if a == [] {
      assert a + t == t && a + p == p;
    } else {
      assert (a + p)[0] == a[0] && (a + p)[1..] == a[1..] + p;
      assert (a + t)[0] == a[0] && (a + t)[1..] == a[1..] + t;
      assert IsPlain(a[1..]) by {
        assert forall i | 0 <= i < |a[1..]| :: a[1..][i] == a[i + 1];
      }
      PlainPrefix(a[1..], t, p);
    }
  }

  /** `_` stands for any one char: `a_b` matches `a` + c + `b` for every char c. */
  lemma UnderscoreMatchesOneChar(a: string, c: char, b: string)
    requires IsPlain(a) && IsPlain(b)
    ensures PatternOk(a + "_" + b)
    ensures ILike(a + [c] + b, a + "_" + b)
  {
    var tail := "_" + b;
    assert PatternOk(b) && ILike(b, b) by {
      PlainMatchIsEqualsIgnoreCase(b, b);
    }
    assert tail[0] == '_' && tail[1..] == b;
    assert ([c] + b)[1..] == b;
    assert PatternOk(tail) && ILike([c] + b, tail);
    PlainPrefix(a, [c] + b, tail);
    assert a + [c] + b == a + ([c] + b) && a + "_" + b == a + tail;
  }

  /** A plain text followed by one escape character is not a well-formed pattern. */
  lemma {:induction false} TrailingEscapeIllFormed(a: string)
    requires IsPlain(a)
    ensures !PatternOk(a + [Escape])
    decreases |a|
  {
    var p := a + [Escape];
    if a == [] {
      assert p == [Escape];
    } else {
      assert p[0] == a[0] && p[1..] == a[1..] + [Escape];
      assert IsPlain(a[1..]) by {
        assert forall i | 0 <= i < |a[1..]| :: a[1..][i] == a[i + 1];
      }
      TrailingEscapeIllFormed(a[1..]);
    }
  }

  // ---------------------------------------------------------------- the matcher the database runs

  /**
   * The matcher's answers. LikeAbort is a non-match that also rules out every
   * later start position in the text; EscapeError is the error raised for a
   * lone trailing escape.
   */
  datatype LikeAnswer = LikeTrue | LikeFalse | LikeAbort | EscapeError

  /** Every char of the pattern is `%`. */
  predicate OnlyPercents(p: string) {
    forall i | 0 <= i < |p| :: p[i] == '%'
  }

  /** The char a pattern that starts with a literal compares first: the escaped one after a backslash. */
  function FirstPat(p: string): char
    requires p != [] && (p[0] == Escape ==> |p| >= 2)
  {
    if p[0] == Escape then p[1] else p[0]
  }

  /** MatchText(t, p): a lone `%` matches at once, otherwise the main loop runs. */
  function MatchText(t: string, p: string): LikeAnswer
    decreases |p|, |t|, 1
  {
    if p == "%" then LikeTrue else MatchLoop(t, p)
  }

  /**
   * The main loop: one pattern item against the head of the text while both
   * last; at the end of the text only `%`s may be left, else the match aborts.
   */
  function MatchLoop(t: string, p: string): LikeAnswer
    decreases |p|, |t|, 0
  {
    if t == [] || p == [] then
      if t != [] then LikeFalse
      else if OnlyPercents(p) then LikeTrue
      else LikeAbort
    else if p[0] == Escape then
      if |p| < 2 then EscapeError
      else if LowerChar(p[1]) != LowerChar(t[0]) then LikeFalse
      else MatchLoop(t[1..], p[2..])
    else if p[0] == '%' then AfterPercent(t, p[1..])
    else if p[0] == '_' then MatchLoop(t[1..], p[1..])
    else if LowerChar(p[0]) != LowerChar(t[0]) then LikeFalse
    else MatchLoop(t[1..], p[1..])
  }

  /**
   * After a `%`: further `%`s are skipped, each `_` takes one char (aborting
   * when none is left), a `%` at the end of the pattern matches everything,
   * and otherwise the rest of the pattern is tried at each text position.
   */
  function AfterPercent(t: string, p: string): LikeAnswer
    decreases |p|, |t|, 3
  {
    if p == [] then LikeTrue
    else if p[0] == '%' then AfterPercent(t, p[1..])
    else if p[0] == '_' then
      if t == [] then LikeAbort else AfterPercent(t[1..], p[1..])
    else if p[0] == Escape && |p| < 2 then EscapeError
    else Scan(t, p)
  }

  /**
   * The search after a `%`: at each position whose char equals the pattern's
   * first literal, match the rest; the first answer other than LikeFalse is
   * final, and running out of text aborts.
   */
  function Scan(t: string, p: string): LikeAnswer
    requires p != [] && (p[0] == Escape ==> |p| >= 2)
    decreases |p|, |t|, 2
  {
    if t == [] then LikeAbort
    else if LowerChar(t[0]) == LowerChar(FirstPat(p)) then
      var m := MatchText(t, p);
      if m != LikeFalse then m else Scan(t[1..], p)
    else Scan(t[1..], p)
  }

  /** What an answer of the matcher means for a well-formed pattern. */
  predicate Sound(a: LikeAnswer, t: string, p: string)
    requires PatternOk(p)
  {
    a != EscapeError
    && (a == LikeTrue <==> ILike(t, p))
    && (a == LikeAbort ==> forall i | 0 <= i <= |t| :: !ILike(t[i..], p))
  }

  /** On a well-formed pattern the database's matcher never fails and answers exactly ILike. */
  lemma MatchTextAgrees(t: string, p: string)
    requires PatternOk(p)
    ensures MatchText(t, p) != EscapeError
    ensures MatchText(t, p) == LikeTrue <==> ILike(t, p)
  {
    MatchTextSound(t, p);
  }

  lemma {:induction false} MatchTextSound(t: string, p: string)
    requires PatternOk(p)
    ensures Sound(MatchText(t, p), t, p)
    decreases |p|, |t|, 1
  {
    if p == "%" {
      PercentMatchesAll(t);
      forall i | 0 <= i <= |t| ensures ILike(t[i..], p) {
        PercentMatchesAll(t[i..]);
      }
    } else {
      MatchLoopSound(t, p);
    }
  }

  lemma {:induction false} MatchLoopSound(t: string, p: string)
    requires PatternOk(p)
    ensures Sound(MatchLoop(t, p), t, p)
    decreases |p|, |t|, 0
  {
    if t == [] || p == [] {
      if t == [] {
        EmptyTextMatches(p);
        assert t[0..] == t;
      }
    } else if p[0] == Escape {
      if LowerChar(p[1]) == LowerChar(t[0]) {
        MatchLoopSound(t[1..], p[2..]);
        if MatchLoop(t[1..], p[2..]) == LikeAbort {
          LiteralStepAbort(t, p, 2);
        }
      }
    } else if p[0] == '%' {
      AfterPercentSound(t, p[1..]);
      assert "%" + p[1..] == p;
    } else if p[0] == '_' {
      MatchLoopSound(t[1..], p[1..]);
      if MatchLoop(t[1..], p[1..]) == LikeAbort {
        LiteralStepAbort(t, p, 1);
      }
    } else if LowerChar(p[0]) == LowerChar(t[0]) {
      MatchLoopSound(t[1..], p[1..]);
      if MatchLoop(t[1..], p[1..]) == LikeAbort {
        LiteralStepAbort(t, p, 1);
      }
    }
  }

  /**
   * A pattern whose first item takes exactly one char (`k` pattern chars
   * long): if no suffix of the tail matches the rest, no suffix matches it.
   */
  lemma LiteralStepAbort(t: string, p: string, k: nat)
    requires t != [] && PatternOk(p) && 1 <= k <= |p|
    requires k == 1 ==> p[0] != '%' && p[0] != Escape
    requires k == 2 ==> p[0] == Escape
    requires k <= 2 && PatternOk(p[k..])
    requires (forall i | 0 <= i <= |t[1..]| :: !ILike(t[1..][i..], p[k..]))
    ensures forall i | 0 <= i <= |t| :: !ILike(t[i..], p)
  {
    forall i | 0 <= i <= |t|
      ensures !ILike(t[i..], p)
    {
      if i < |t| {
        assert t[i..][1..] == t[1..][i..];
      }
    }
  }

  /** The empty text matches exactly the patterns made of `%` only. */
  lemma {:induction false} EmptyTextMatches(p: string)
    requires PatternOk(p)
    ensures ILike([], p) <==> OnlyPercents(p)
    decreases |p|
  {
    if p != [] && p[0] == '%' {
      EmptyTextMatches(p[1..]);
      assert OnlyPercents(p) <==> OnlyPercents(p[1..]) by {
        assert forall i | 0 <= i < |p[1..]| :: p[1..][i] == p[i + 1];
      }
    }
  }

  lemma {:induction false} AfterPercentSound(t: string, p: string)
    requires PatternOk(p)
    ensures PatternOk("%" + p)
    ensures Sound(AfterPercent(t, p), t, "%" + p)
    decreases |p|, |t|, 3
  {
    var pp := "%" + p;
    assert pp[0] == '%' && pp[1..] == p;
    if p == [] {
      PercentMatchesAll(t);
      assert pp == "%";
    } else if p[0] == '%' {
      AfterPercentSound(t, p[1..]);
      DoublePercent(t, p[1..]);
      assert "%" + p == "%" + ("%" + p[1..]);
      forall i | 0 <= i <= |t| ensures ILike(t[i..], pp) <==> ILike(t[i..], "%" + p[1..]) {
        DoublePercent(t[i..], p[1..]);
      }
    } else if p[0] == '_' {
      PercentUnderscore(t, p[1..]);
      assert "%" + p == "%" + ("_" + p[1..]);
      if t != [] {
        AfterPercentSound(t[1..], p[1..]);
        forall i | 0 <= i <= |t| ensures !ILike(t[i..], pp) || AfterPercent(t, p) != LikeAbort {
          PercentUnderscore(t[i..], p[1..]);
          if i < |t| {
            assert t[i..][1..] == t[1..][i..];
          }
        }
      } else {
        assert t[0..] == t;
      }
    } else {
      ScanSound(t, p);
      LeadingPercent(t, p);
      if AfterPercent(t, p) == LikeAbort {
        NoSuffixThenNoPercentSuffix(t, p);
      }
    }
  }

  /** `%%` matches what `%` matches. */
  lemma DoublePercent(t: string, q: string)
    requires PatternOk(q)
    ensures PatternOk("%" + q) && PatternOk("%" + ("%" + q))
    ensures ILike(t, "%" + ("%" + q)) <==> ILike(t, "%" + q)
  {
    var pq := "%" + q;
    assert pq[1..] == q;
    LeadingPercent(t, pq);
    LeadingPercent(t, q);
    if ILike(t, "%" + pq) {
      var i :| 0 <= i <= |t| && ILike(t[i..], pq);
      LeadingPercent(t[i..], q);
      var j :| 0 <= j <= |t[i..]| && ILike(t[i..][j..], q);
      assert t[i..][j..] == t[i + j..];
    }
    if ILike(t, pq) {
      assert t[0..] == t;
    }
  }

  /** `%_` matches a non-empty text exactly when `%` matches its tail. */
  lemma PercentUnderscore(t: string, q: string)
    requires PatternOk(q)
    ensures PatternOk("_" + q) && PatternOk("%" + ("_" + q))
    ensures ILike(t, "%" + ("_" + q)) <==> t != [] && ILike(t[1..], "%" + q)
  {
    var uq := "_" + q;
    assert uq[0] == '_' && uq[1..] == q;
    LeadingPercent(t, uq);
    if t != [] {
      LeadingPercent(t[1..], q);
      if ILike(t, "%" + uq) {
        UnderscoreToTail(t, q);
      }
      if ILike(t[1..], "%" + q) {
        TailToUnderscore(t, q);
      }
    }
  }

  lemma UnderscoreToTail(t: string, q: string)
    requires PatternOk(q) && t != []
    requires PatternOk("_" + q)
    requires exists i | 0 <= i <= |t| :: ILike(t[i..], "_" + q)
    ensures exists j | 0 <= j <= |t[1..]| :: ILike(t[1..][j..], q)
  {
    var i :| 0 <= i <= |t| && ILike(t[i..], "_" + q);
    assert ("_" + q)[0] == '_' && ("_" + q)[1..] == q;
    assert t[i..][1..] == t[1..][i..];
  }

  lemma TailToUnderscore(t: string, q: string)
    requires PatternOk(q) && t != []
    requires PatternOk("_" + q)
    requires exists j | 0 <= j <= |t[1..]| :: ILike(t[1..][j..], q)
    ensures exists i | 0 <= i <= |t| :: ILike(t[i..], "_" + q)
  {
    var j :| 0 <= j <= |t[1..]| && ILike(t[1..][j..], q);
    assert ("_" + q)[0] == '_' && ("_" + q)[1..] == q;
    assert t[j..][1..] == t[1..][j..];
    assert ILike(t[j..], "_" + q);
  }

  /** If no suffix matches `p`, no suffix matches `%p` either. */
  lemma NoSuffixThenNoPercentSuffix(t: string, p: string)
    requires PatternOk(p)
    requires forall i | 0 <= i <= |t| :: !ILike(t[i..], p)
    ensures PatternOk("%" + p)
    ensures forall i | 0 <= i <= |t| :: !ILike(t[i..], "%" + p)
  {
    LeadingPercent([], p);
    forall i | 0 <= i <= |t| ensures !ILike(t[i..], "%" + p) {
      LeadingPercent(t[i..], p);
      forall j | 0 <= j <= |t[i..]| ensures t[i..][j..] == t[i + j..] { }
    }
  }

  /** The search after a `%` finds a match exactly when some suffix matches, and otherwise aborts. */
  lemma {:induction false} ScanSound(t: string, p: string)
    requires PatternOk(p) && p != [] && p[0] != '%' && p[0] != '_'
    ensures p[0] == Escape ==> |p| >= 2
    ensures Scan(t, p) == LikeTrue || Scan(t, p) == LikeAbort
    ensures Scan(t, p) == LikeTrue <==> exists i | 0 <= i <= |t| :: ILike(t[i..], p)
    decreases |p|, |t|, 2
  {
    if t == [] {
      assert t[0..] == t;
    } else {
      if LowerChar(t[0]) == LowerChar(FirstPat(p)) {
        MatchTextSound(t, p);
      }
      if Scan(t, p) != LikeTrue || !ILike(t, p) {
        if Scan(t, p) == LikeAbort && MatchText(t, p) == LikeAbort && LowerChar(t[0]) == LowerChar(FirstPat(p)) {
          assert t[0..] == t;
        } else {
          ScanSound(t[1..], p);
          SuffixShift(t, p);
        }
      } else {
        assert t[0..] == t;
      }
    }
  }

  /** On a pattern with a lone trailing escape the matcher never answers a match. */
  lemma {:induction false} IllFormedNeverMatches(t: string, p: string)
    requires !PatternOk(p)
    ensures MatchText(t, p) != LikeTrue
    decreases |p|, |t|, 1
  {
    if p != "%" {
      LoopNeverMatches(t, p);
    }
  }

  lemma {:induction false} LoopNeverMatches(t: string, p: string)
    requires !PatternOk(p)
    ensures MatchLoop(t, p) != LikeTrue
    decreases |p|, |t|, 0
  {
    if t == [] || p == [] {
      if t == [] && OnlyPercents(p) {
        OnlyPercentsOk(p);
      }
    } else if p[0] == Escape {
      if |p| >= 2 && LowerChar(p[1]) == LowerChar(t[0]) {
        LoopNeverMatches(t[1..], p[2..]);
      }
    } else if p[0] == '%' {
      AfterPercentNeverMatches(t, p[1..]);
    } else if LowerChar(p[0]) == LowerChar(t[0]) || p[0] == '_' {
      LoopNeverMatches(t[1..], p[1..]);
    }
  }

  lemma {:induction false} AfterPercentNeverMatches(t: string, p: string)
    requires !PatternOk(p)
    ensures AfterPercent(t, p) != LikeTrue
    decreases |p|, |t|, 3
  {
    if p[0] == '%' {
      AfterPercentNeverMatches(t, p[1..]);
    } else if p[0] == '_' {
      if t != [] {
        AfterPercentNeverMatches(t[1..], p[1..]);
      }
    } else if p[0] != Escape || |p| >= 2 {
      ScanNeverMatches(t, p);
    }
  }

  lemma {:induction false} ScanNeverMatches(t: string, p: string)
    requires !PatternOk(p) && p != [] && (p[0] == Escape ==> |p| >= 2)
    ensures Scan(t, p) != LikeTrue
    decreases |p|, |t|, 2
  {
    if t != [] {
      if LowerChar(t[0]) == LowerChar(FirstPat(p)) {
        IllFormedNeverMatches(t, p);
      }
      ScanNeverMatches(t[1..], p);
    }
  }

  /** A pattern of `%`s only is well formed. */
  lemma {:induction false} OnlyPercentsOk(p: string)
    requires OnlyPercents(p)
    ensures PatternOk(p)
    decreases |p|
  {
    if p != [] {
      assert p[0] == '%';
      assert OnlyPercents(p[1..]) by {
        assert forall i | 0 <= i < |p[1..]| :: p[1..][i] == p[i + 1];
      }
      OnlyPercentsOk(p[1..]);
    }
  }

  /**
   * A plain text `a` followed by one backslash: the database raises the
   * escape error exactly when the text starts with `a` up to case and has
   * chars left after it; otherwise it answers no match.
   */
  lemma TrailingEscapeError(t: string, a: string)
    requires IsPlain(a)
    ensures MatchText(t, a + [Escape]) != LikeTrue
    ensures MatchText(t, a + [Escape]) == EscapeError <==>
      |a| < |t| && EqualsIgnoreCase(t[..|a|], a)
  {
    TrailingEscapeIllFormed(a);
    IllFormedNeverMatches(t, a + [Escape]);
    TrailingEscapeLoop(t, a);
  }

  lemma {:induction false} TrailingEscapeLoop(t: string, a: string)
    requires IsPlain(a)
    ensures MatchText(t, a + [Escape]) == MatchLoop(t, a + [Escape])
    ensures MatchLoop(t, a + [Escape]) == EscapeError <==>
      |a| < |t| && EqualsIgnoreCase(t[..|a|], a)
    decreases |a|
  {
    var p := a + [Escape];
    assert p != "%" by {
      if a == [] { assert p[0] == Escape; } else { assert p[0] == a[0] && !IsMeta(a[0]); }
    }
    if a == [] {
      assert p == [Escape];
      assert t != [] ==> t[..0] == [];
    } else if t != [] {
      assert p[0] == a[0] && p[1..] == a[1..] + [Escape] && !IsMeta(a[0]);
      assert IsPlain(a[1..]) by {
        assert forall i | 0 <= i < |a[1..]| :: a[1..][i] == a[i + 1];
      }
      TrailingEscapeLoop(t[1..], a[1..]);
      if |a| < |t| {
        assert t[1..][..|a[1..]|] == t[..|a|][1..];
        EqualsIgnoreCaseCons(t[..|a|], a);
      }
    } else {
      assert p[0] == a[0] && !IsMeta(a[0]);
    }
  }

  /** Equality up to case, split at the first char. */
  lemma EqualsIgnoreCaseCons(x: string, y: string)
    requires x != [] && |x| == |y|
    ensures EqualsIgnoreCase(x, y) <==>
      LowerChar(x[0]) == LowerChar(y[0]) && EqualsIgnoreCase(x[1..], y[1..])
  {
    if LowerChar(x[0]) == LowerChar(y[0]) && EqualsIgnoreCase(x[1..], y[1..]) {
      forall i | 0 <= i < |x| ensures LowerChar(x[i]) == LowerChar(y[i]) {
        if i > 0 { assert x[i] == x[1..][i - 1] && y[i] == y[1..][i - 1]; }
      }
    }
  }

  /**
   * A pattern on which the matcher fails for one text matches no text, so a
   * scan over rows answers the same whatever order it visits them in.
   */
  lemma ErrorExcludesMatch(t: string, u: string, p: string)
    requires MatchText(t, p) == EscapeError
    ensures MatchText(u, p) != LikeTrue
  {
    if PatternOk(p) {
      MatchTextAgrees(t, p);
    } else {
      IllFormedNeverMatches(u, p);
    }
  }
}
