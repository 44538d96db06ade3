/**
 * The parts of java.lang.String, java.lang.Character and java.util.regex that
 * the core relies on: trim, isBlank, the regex class `\s`, ASCII case
 * mapping, replaceAll("\\s+", ...) and length() in UTF-16 units.
 *
 * A Dafny `char` is a Unicode scalar value; a Java `char` is a UTF-16 code
 * unit. Every predicate here looks at one scalar value, and Utf16Length gives
 * the length Java's `length()` reports.
 */
module JavaStrings {
  import opened Common

  /** String.trim() strips every leading and trailing char whose code is at most U+0020. */
  predicate IsTrimmable(c: char) {
    c as int <= 0x20
  }

  /** `\s` in a java.util.regex pattern compiled without UNICODE_CHARACTER_CLASS: [ \t\n\x0B\f\r]. */
  predicate IsRegexSpace(c: char) {
    c == ' ' || c as int == 0x09 || c as int == 0x0A || c as int == 0x0B || c as int == 0x0C || c as int == 0x0D
  }

  /**
   * Character.isWhitespace: the Unicode space, line and paragraph separators
   * except the three no-break spaces (U+00A0, U+2007, U+202F), plus U+0009..U+000D
   * and U+001C..U+001F.
   */
  predicate IsWhitespace(c: char) {
    var n := c as int;
    (0x09 <= n <= 0x0D) || (0x1C <= n <= 0x20) || n == 0x1680 || (0x2000 <= n <= 0x2006)
    || (0x2008 <= n <= 0x200A) || n == 0x2028 || n == 0x2029 || n == 0x205F || n == 0x3000
  }

  predicate IsAsciiUpper(c: char) { 'A' <= c <= 'Z' }
  predicate IsAsciiLower(c: char) { 'a' <= c <= 'z' }
  predicate IsAsciiLetter(c: char) { IsAsciiUpper(c) || IsAsciiLower(c) }
  predicate IsAsciiDigit(c: char) { '0' <= c <= '9' }

  /** String.isBlank(): empty, or whitespace only. */
  predicate IsBlank(s: string) {
    forall i | 0 <= i < |s| :: IsWhitespace(s[i])
  }

  function TrimStart(s: string): (r: string)
    ensures |r| <= |s| && r == s[|s| - |r|..]
    ensures forall i | 0 <= i < |s| - |r| :: IsTrimmable(s[i])
    ensures r == [] || !IsTrimmable(r[0])
  {
    if s != [] && IsTrimmable(s[0]) then
      var r := TrimStart(s[1..]);
      assert s[1..][|s| - 1 - |r|..] == s[|s| - |r|..];
      assert forall i | 1 <= i < |s| - |r| :: s[i] == s[1..][i - 1];
      r
    else s
  }

  function TrimEnd(s: string): (r: string)
    ensures |r| <= |s| && r == s[..|r|]
    ensures forall i | |r| <= i < |s| :: IsTrimmable(s[i])
    ensures r == [] || !IsTrimmable(r[|r| - 1])
  {
    if s != [] && IsTrimmable(s[|s| - 1]) then TrimEnd(s[..|s| - 1]) else s
  }

  /** String.trim(). */
  function Trim(s: string): (r: string)
    ensures |r| <= |s|
    ensures r == [] || (!IsTrimmable(r[0]) && !IsTrimmable(r[|r| - 1]))
    ensures r == [] <==> forall i | 0 <= i < |s| :: IsTrimmable(s[i])
  {
    var t := TrimStart(s);
    var r := TrimEnd(t);
    assert r != [] ==> r[0] == t[0];
    r
  }

  /** Whatever is trimmable at either end does not reach the result of trim(). */
  lemma TrimIgnoresPadding(pre: string, s: string, post: string)
    requires forall i | 0 <= i < |pre| :: IsTrimmable(pre[i])
    requires forall i | 0 <= i < |post| :: IsTrimmable(post[i])
    ensures Trim(pre + s + post) == Trim(s)
  {
    TrimStartIgnoresPadding(pre, s + post);
    assert pre + s + post == pre + (s + post);
    TrimEndIgnoresPadding(TrimStart(s + post), post);
    TrimStartOfPaddedEnd(s, post);
  }

  lemma {:induction false} TrimStartIgnoresPadding(pre: string, s: string)
    requires forall i | 0 <= i < |pre| :: IsTrimmable(pre[i])
    ensures TrimStart(pre + s) == TrimStart(s)
  {
    if pre != [] {
      assert (pre + s)[0] == pre[0];
      assert (pre + s)[1..] == pre[1..] + s;
      assert TrimStart(pre + s) == TrimStart(pre[1..] + s);
      TrimStartIgnoresPadding(pre[1..], s);
    } else {
      assert pre + s == s;
    }
  }

  lemma {:induction false} TrimEndIgnoresPadding(s: string, post: string)
    requires forall i | 0 <= i < |post| :: IsTrimmable(post[i])
    ensures TrimEnd(s + post) == TrimEnd(s)
  {
    if post != [] {
      var last := |post| - 1;
      assert (s + post)[|s + post| - 1] == post[last];
      assert (s + post)[..|s + post| - 1] == s + post[..last];
      assert TrimEnd(s + post) == TrimEnd(s + post[..last]);
      TrimEndIgnoresPadding(s, post[..last]);
    } else {
      assert s + post == s;
    }
  }

  /** Trailing padding never changes where the leading padding ends, unless everything is padding. */
  lemma {:induction false} TrimStartOfPaddedEnd(s: string, post: string)
    requires forall i | 0 <= i < |post| :: IsTrimmable(post[i])
    ensures TrimEnd(TrimStart(s + post)) == TrimEnd(TrimStart(s))
  {
    if s == [] {
      assert s + post == post;
      assert TrimStart(post) == [];
    } else if IsTrimmable(s[0]) {
      assert (s + post)[1..] == s[1..] + post;
      TrimStartOfPaddedEnd(s[1..], post);
    } else {
      assert TrimStart(s + post) == s + post;
      assert TrimStart(s) == s;
      TrimEndIgnoresPadding(s, post);
    }
  }

  /** A string with no trimmable char at either end is its own trim(). */
  lemma TrimOfTrimmedString(s: string)
    requires s == [] || (!IsTrimmable(s[0]) && !IsTrimmable(s[|s| - 1]))
    ensures Trim(s) == s
  {
  }

  /**
   * Bean Validation's @NotBlank: not null, and `trim()` leaves something, that
   * is, some char is above U+0020 (see NotBlankIsNonEmptyTrim).
   */
  predicate NotBlank(s: Option<string>) {
    s.Some? && exists i | 0 <= i < |s.value| :: !IsTrimmable(s.value[i])
  }

  lemma NotBlankIsNonEmptyTrim(s: string)
    ensures NotBlank(Some(s)) <==> Trim(s) != []
  {
  }

  /** toUpperCase() on one char, for the ASCII letters. */
  function UpperChar(c: char): char {
    if IsAsciiLower(c) then (c as int - 32) as char else c
  }

  /** toLowerCase() on one char, for the ASCII letters. */
  function LowerChar(c: char): char {
    if IsAsciiUpper(c) then (c as int + 32) as char else c
  }

  function Upper(s: string): (r: string)
    ensures |r| == |s|
    ensures forall i | 0 <= i < |s| :: r[i] == UpperChar(s[i])
  {
    seq(|s|, i requires 0 <= i < |s| => UpperChar(s[i]))
  }

  /** Two strings equal up to ASCII letter case (what ILIKE and equalsIgnoreCase compare). */
  predicate EqualsIgnoreCase(a: string, b: string) {
    |a| == |b| && forall i | 0 <= i < |a| :: LowerChar(a[i]) == LowerChar(b[i])
  }

  /** Strings that agree up to case have the same upper-case form, and conversely. */
  lemma UpperDecidesCase(a: string, b: string)
    ensures EqualsIgnoreCase(a, b) <==> Upper(a) == Upper(b)
  {
    if Upper(a) == Upper(b) {
      assert |a| == |b|;
      forall i | 0 <= i < |a| ensures LowerChar(a[i]) == LowerChar(b[i]) {
        assert Upper(a)[i] == Upper(b)[i];
      }
    }
    if EqualsIgnoreCase(a, b) {
      forall i | 0 <= i < |a| ensures Upper(a)[i] == Upper(b)[i] {
        assert LowerChar(a[i]) == LowerChar(b[i]);
      }
    }
  }

  /** Upper-casing touches no trimmable char, so it commutes with trim(). */
  lemma {:induction false} TrimUpperCommute(s: string)
    ensures Trim(Upper(s)) == Upper(Trim(s))
  {
    TrimStartUpperCommute(s);
    TrimEndUpperCommute(TrimStart(s));
  }

  lemma {:induction false} TrimStartUpperCommute(s: string)
    ensures TrimStart(Upper(s)) == Upper(TrimStart(s))
    decreases |s|
  {
    if s != [] {
      UpperFirst(s);
      if IsTrimmable(s[0]) {
        TrimStartUpperCommute(s[1..]);
      }
    }
  }

  lemma {:induction false} TrimEndUpperCommute(s: string)
    ensures TrimEnd(Upper(s)) == Upper(TrimEnd(s))
    decreases |s|
  {
    if s != [] {
      UpperLast(s);
      if IsTrimmable(s[|s| - 1]) {
        TrimEndUpperCommute(s[..|s| - 1]);
      }
    }
  }

  /** Upper-casing keeps a first char trimmable or not, and the rest is the upper-cased rest. */
  lemma UpperFirst(s: string)
    requires s != []
    ensures Upper(s)[1..] == Upper(s[1..])
    ensures IsTrimmable(Upper(s)[0]) <==> IsTrimmable(s[0])
  {
  }

  /** Upper-casing keeps a last char trimmable or not, and the rest is the upper-cased rest. */
  lemma UpperLast(s: string)
    requires s != []
    ensures Upper(s)[..|s| - 1] == Upper(s[..|s| - 1])
    ensures IsTrimmable(Upper(s)[|s| - 1]) <==> IsTrimmable(s[|s| - 1])
  {
  }

  /** Upper-casing twice is upper-casing once. */
  lemma UpperIdempotent(s: string)
    ensures Upper(Upper(s)) == Upper(s)
  {
  }

  function DropSpaces(s: string): (r: string)
    ensures |r| <= |s| && r == s[|s| - |r|..]
    ensures forall i | 0 <= i < |s| - |r| :: IsRegexSpace(s[i])
    ensures r == [] || !IsRegexSpace(r[0])
  {
    if s != [] && IsRegexSpace(s[0]) then DropSpaces(s[1..]) else s
  }

  /** s.replaceAll("\\s+", rep): every maximal run of `\s` chars becomes one copy of `rep`. */
  function ReplaceSpaceRuns(s: string, rep: string): (r: string)
    ensures s != [] && !IsRegexSpace(s[0]) ==> r != [] && r[0] == s[0]
    decreases |s|
  {
    if s == [] then []
    else if IsRegexSpace(s[0]) then rep + ReplaceSpaceRuns(DropSpaces(s), rep)
    else [s[0]] + ReplaceSpaceRuns(s[1..], rep)
  }

  /** A property of chars that holds for the non-`\s` chars of `s` and for all of `rep` holds for all of the result. */
  lemma {:induction false} ReplaceSpaceRunsKeeps(s: string, rep: string, P: char -> bool)
    requires forall i | 0 <= i < |s| :: !IsRegexSpace(s[i]) ==> P(s[i])
    requires forall i | 0 <= i < |rep| :: P(rep[i])
    ensures forall i | 0 <= i < |ReplaceSpaceRuns(s, rep)| :: P(ReplaceSpaceRuns(s, rep)[i])
    decreases |s|
  {
    if s == [] {
    } else if IsRegexSpace(s[0]) {
      var rest := DropSpaces(s);
      assert forall i | 0 <= i < |rest| :: rest[i] == s[|s| - |rest| + i];
      ReplaceSpaceRunsKeeps(rest, rep, P);
      var tail := ReplaceSpaceRuns(rest, rep);
      assert ReplaceSpaceRuns(s, rep) == rep + tail;
    } else {
      ReplaceSpaceRunsKeeps(s[1..], rep, P);
      var tail := ReplaceSpaceRuns(s[1..], rep);
      assert ReplaceSpaceRuns(s, rep) == [s[0]] + tail;
    }
  }

  /** No two spaces side by side. */
  predicate NoDoubleSpace(r: string) {
    forall i | 0 <= i < |r| - 1 :: !(r[i] == ' ' && r[i + 1] == ' ')
  }

  /** A run collapsed to a single space leaves no two spaces side by side. */
  lemma {:induction false} CollapsedSpacesAreSingle(s: string)
    ensures NoDoubleSpace(ReplaceSpaceRuns(s, " "))
    decreases |s|
  {
    var r := ReplaceSpaceRuns(s, " ");
    if s == [] {
    } else if IsRegexSpace(s[0]) {
      var rest := DropSpaces(s);
      CollapsedSpacesAreSingle(rest);
      var tail := ReplaceSpaceRuns(rest, " ");
      assert r == " " + tail;
      assert tail != [] ==> tail[0] != ' ' by {
        if tail != [] {
          assert rest != [] && !IsRegexSpace(rest[0]);
        }
      }
      forall i | 0 <= i < |r| - 1 ensures !(r[i] == ' ' && r[i + 1] == ' ') {
        if i > 0 { assert r[i] == tail[i - 1] && r[i + 1] == tail[i]; }
      }
    } else {
      CollapsedSpacesAreSingle(s[1..]);
      var tail := ReplaceSpaceRuns(s[1..], " ");
      assert r == [s[0]] + tail;
      assert r[0] == s[0] && s[0] != ' ';
      forall i | 0 <= i < |r| - 1 ensures !(r[i] == ' ' && r[i + 1] == ' ') {
        if i > 0 { assert r[i] == tail[i - 1] && r[i + 1] == tail[i]; }
      }
    }
  }

  /** A string without `\s` chars is left as it is. */
  lemma {:induction false} ReplaceSpaceRunsNoSpace(s: string, rep: string)
    requires forall i | 0 <= i < |s| :: !IsRegexSpace(s[i])
    ensures ReplaceSpaceRuns(s, rep) == s
  {
    if s != [] {
      ReplaceSpaceRunsNoSpace(s[1..], rep);
      assert s == [s[0]] + s[1..];
    }
  }

  /** String.length(): chars outside the Basic Multilingual Plane take two UTF-16 units. */
  function Utf16Length(s: string): (n: nat)
    ensures |s| <= n <= 2 * |s|
    ensures (forall i | 0 <= i < |s| :: s[i] as int <= 0xFFFF) ==> n == |s|
  {
    if s == [] then 0 else (if s[0] as int > 0xFFFF then 2 else 1) + Utf16Length(s[1..])
  }
  /** One char is one UTF-16 unit, or two (a surrogate pair) outside the Basic Multilingual Plane. */
  lemma Utf16LengthChar(c: char)
    ensures Utf16Length([c]) == if c as int > 0xFFFF then 2 else 1
  {
  }

  /** length() of a concatenation is the sum of the parts' lengths. */
  lemma {:induction false} Utf16LengthConcat(a: string, b: string)
    ensures Utf16Length(a + b) == Utf16Length(a) + Utf16Length(b)
    decreases |a|
  {
    if a != [] {
      assert (a + b)[0] == a[0] && (a + b)[1..] == a[1..] + b;
      Utf16LengthConcat(a[1..], b);
    } else {
      assert a + b == b;
    }
  }


  /** A run of `\s` chars between two space-free words becomes one copy of `rep`. */
  lemma ReplaceOneRun(a: string, sp: string, b: string, rep: string)
    requires forall i | 0 <= i < |a| :: !IsRegexSpace(a[i])
    requires sp != [] && forall i | 0 <= i < |sp| :: IsRegexSpace(sp[i])
    requires forall i | 0 <= i < |b| :: !IsRegexSpace(b[i])
    ensures ReplaceSpaceRuns(a + sp + b, rep) == a + rep + b
  {
    assert a + sp + b == a + (sp + b);
    ReplaceAfterWord(a, sp + b, rep);
    RunThenWord(sp, b, rep);
    assert a + (rep + b) == a + rep + b;
  }

  /** A run of `\s` chars followed by a space-free word becomes `rep` and the word. */
  lemma RunThenWord(sp: string, b: string, rep: string)
    requires sp != [] && forall i | 0 <= i < |sp| :: IsRegexSpace(sp[i])
    requires forall i | 0 <= i < |b| :: !IsRegexSpace(b[i])
    ensures ReplaceSpaceRuns(sp + b, rep) == rep + b
  {
    assert (sp + b)[0] == sp[0];
    DropSpacesRun(sp, b);
    ReplaceSpaceRunsNoSpace(b, rep);
  }

  /** Dropping the leading `\s` chars of a run followed by a word leaves the word. */
  lemma {:induction false} DropSpacesRun(sp: string, b: string)
    requires forall i | 0 <= i < |sp| :: IsRegexSpace(sp[i])
    requires b == [] || !IsRegexSpace(b[0])
    ensures DropSpaces(sp + b) == b
    decreases |sp|
  {
    if sp == [] {
      assert sp + b == b;
    } else {
      assert (sp + b)[0] == sp[0];
      assert (sp + b)[1..] == sp[1..] + b;
      DropSpacesRun(sp[1..], b);
    }
  }

  /** A leading word without `\s` chars is copied as it is. */
  lemma {:induction false} ReplaceAfterWord(a: string, t: string, rep: string)
    requires forall i | 0 <= i < |a| :: !IsRegexSpace(a[i])
    ensures ReplaceSpaceRuns(a + t, rep) == a + ReplaceSpaceRuns(t, rep)
    decreases |a|
  {
    if a != [] {
      NoSpaceTail(a);
      ConsSplit(a, t);
      ReplaceHeadChar(a[0], a[1..] + t, rep);
      ReplaceAfterWord(a[1..], t, rep);
      ConsSplit(a, ReplaceSpaceRuns(t, rep));
    } else {
      assert a + t == t;
    }
  }

  lemma NoSpaceTail(a: string)
    requires a != [] && forall i | 0 <= i < |a| :: !IsRegexSpace(a[i])
    ensures !IsRegexSpace(a[0]) && forall i | 0 <= i < |a[1..]| :: !IsRegexSpace(a[1..][i])
  {
  }

  lemma ConsSplit(a: string, x: string)
    requires a != []
    ensures a + x == [a[0]] + (a[1..] + x)
  {
  }

  /** A leading char that is not `\s` is copied as it is. */
  lemma ReplaceHeadChar(c: char, t: string, rep: string)
    requires !IsRegexSpace(c)
    ensures ReplaceSpaceRuns([c] + t, rep) == [c] + ReplaceSpaceRuns(t, rep)
  {
    assert ([c] + t)[0] == c && ([c] + t)[1..] == t;
  }
}
