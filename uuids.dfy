/**
 * Dvd ids are UUIDs. Java's UUID.toString() writes the canonical form, 32
 * lower-case hex digits grouped 8-4-4-4-12 by hyphens; PostgreSQL's
 * `CAST(? AS uuid)` also accepts that layout in upper or mixed case and the
 * 32 digits without hyphens, and raises an error for any other string.
 */
module Uuids {
  import opened Common

  type Nibble = x: int | 0 <= x < 16

  /** 128 bits as 32 hex digits, most significant first. */
  type Uuid = s: seq<Nibble> | |s| == 32 witness seq(32, _ => 0)

  predicate IsHexChar(c: char) {
    '0' <= c <= '9' || 'a' <= c <= 'f' || 'A' <= c <= 'F'
  }

  function HexValue(c: char): Nibble
    requires IsHexChar(c)
  {
    if '0' <= c <= '9' then c as int - '0' as int
    else if 'a' <= c <= 'f' then c as int - 'a' as int + 10
    else c as int - 'A' as int + 10
  }

  /** The lower-case digit Java writes for a nibble. */
  function HexDigit(n: Nibble): (c: char)
    ensures IsHexChar(c) && HexValue(c) == n
    ensures !('A' <= c <= 'F')
  {
    if n < 10 then ('0' as int + n) as char else ('a' as int + n - 10) as char
  }

  /** The canonical layout puts a hyphen at these positions of a 36-char string. */
  predicate IsHyphenAt(i: int) {
    i == 8 || i == 13 || i == 18 || i == 23
  }

  /** Position in the 36-char layout of hex digit `k`. */
  function CharIndex(k: int): int {
    k + (if k >= 8 then 1 else 0) + (if k >= 12 then 1 else 0) + (if k >= 16 then 1 else 0) + (if k >= 20 then 1 else 0)
  }

  /** Hex digit shown at position `i` of the 36-char layout (for a non-hyphen position). */
  function NibbleIndex(i: int): int {
    i - (if i > 8 then 1 else 0) - (if i > 13 then 1 else 0) - (if i > 18 then 1 else 0) - (if i > 23 then 1 else 0)
  }

  lemma LayoutPositions(k: int)
    requires 0 <= k < 32
    ensures 0 <= CharIndex(k) < 36 && !IsHyphenAt(CharIndex(k)) && NibbleIndex(CharIndex(k)) == k
  {
  }

  /** UUID.toString(). */
  function IdString(u: Uuid): (s: string)
    ensures |s| == 36
  {
    seq(36, i requires 0 <= i < 36 => if IsHyphenAt(i) then '-' else HexDigit(u[NibbleIndex(i)]))
  }

  /** The 36-char layout: hyphens where the canonical form has them, hex digits of either case elsewhere. */
  predicate HasHyphenLayout(s: string) {
    |s| == 36 && forall i | 0 <= i < 36 :: if IsHyphenAt(i) then s[i] == '-' else IsHexChar(s[i])
  }

  /** 32 hex digits of either case and nothing else. */
  predicate HasBareLayout(s: string) {
    |s| == 32 && forall i | 0 <= i < 32 :: IsHexChar(s[i])
  }

  /** `CAST(s AS uuid)`: None stands for the database's "invalid input syntax for type uuid". */
  function ParseId(s: string): Option<Uuid> {
    if HasHyphenLayout(s) then
      Some(seq(32, k requires 0 <= k < 32 => LayoutPositions(k); HexValue(s[CharIndex(k)])))
    else if HasBareLayout(s) then
      Some(seq(32, k requires 0 <= k < 32 => HexValue(s[k])))
    else
      None
  }

  /** The string is exactly what UUID.toString() writes for the id it names. */
  predicate IsCanonical(s: string) {
    ParseId(s).Some? && IdString(ParseId(s).value) == s
  }

  /** Reading back what toString() wrote gives the same id, and that string is canonical. */
  lemma {:induction false} ParseIdString(u: Uuid)
    ensures ParseId(IdString(u)) == Some(u)
    ensures IsCanonical(IdString(u))
  {
    var s := IdString(u);
    forall i | 0 <= i < 36 ensures if IsHyphenAt(i) then s[i] == '-' else IsHexChar(s[i]) {
    }
    assert HasHyphenLayout(s);
    var v := ParseId(s).value;
    forall k | 0 <= k < 32 ensures v[k] == u[k] {
      LayoutPositions(k);
    }
    assert v == u;
  }

  /** Different ids print differently. */
  lemma IdStringInjective(u: Uuid, v: Uuid)
    requires IdString(u) == IdString(v)
    ensures u == v
  {
    ParseIdString(u);
    ParseIdString(v);
  }

  /** The id with every hex digit equal to 10, "aaaaaaaa-aaaa-aaaa-aaaa-aaaaaaaaaaaa". */
  const AllTens: Uuid := seq(32, _ => 10)

  /**
   * The database reads the upper-case spelling of an id as that same id,
   * though it is not the string UUID.toString() produces.
   */
  lemma UpperCaseSpellingNamesSameId()
    ensures var s := seq(36, i requires 0 <= i < 36 => if IsHyphenAt(i) then '-' else 'A');
      ParseId(s) == Some(AllTens) && s != IdString(AllTens) && !IsCanonical(s)
  {
    var s := seq(36, i requires 0 <= i < 36 => if IsHyphenAt(i) then '-' else 'A');
    assert HasHyphenLayout(s);
    var v := ParseId(s).value;
    forall k | 0 <= k < 32 ensures v[k] == AllTens[k] {
      LayoutPositions(k);
    }
    assert v == AllTens;
    assert s[0] == 'A' && IdString(AllTens)[0] == 'a';
  }
}
