/** The string operations of Python's `str` that the weather tool relies on:
    `lower`, the `in` substring test, `rjust` and `replace`, plus decimal
    digit strings for number formatting. Strings are sequences of characters. */
module Text {

  /** Lower-casing of one character (ASCII letters only). */
  function LowerChar(c: char): (r: char)
    ensures 'A' <= c <= 'Z' ==> 'a' <= r <= 'z' && r as int == c as int - 'A' as int + 'a' as int
    ensures !('A' <= c <= 'Z') ==> r == c
    ensures !('A' <= r <= 'Z')
  {
    if 'A' <= c <= 'Z' then (c as int - 'A' as int + 'a' as int) as char else c
  }

  /** `s.lower()`, character by character. */
  function ToLower(s: string): (r: string)
    ensures |r| == |s|
    ensures forall i :: 0 <= i < |s| ==> r[i] == LowerChar(s[i])
  {
    if s == [] then [] else [LowerChar(s[0])] + ToLower(s[1..])
  }

  ghost predicate IsLowerCase(s: string) {
    forall i :: 0 <= i < |s| ==> !('A' <= s[i] <= 'Z')
  }

  /** Lower-casing yields lower-case text and leaves lower-case text alone. */
  lemma ToLowerIdempotent(s: string)
    ensures IsLowerCase(ToLower(s))
    ensures ToLower(ToLower(s)) == ToLower(s)
    ensures IsLowerCase(s) ==> ToLower(s) == s
  {
  }

  /** `t[j..]` occurs in `s` at index `i + j`, compared character by character. */
  predicate MatchesFrom(s: string, t: string, i: nat, j: nat)
    decreases |t| - j
  {
    j >= |t| || (i + j < |s| && s[i + j] == t[j] && MatchesFrom(s, t, i, j + 1))
  }

  /** `t` occurs in `s` at some index `i` or later. */
  predicate ContainsFrom(s: string, t: string, i: nat)
    decreases |s| - i
  {
    i + |t| <= |s| && (MatchesFrom(s, t, i, 0) || ContainsFrom(s, t, i + 1))
  }

  /** Python's `t in s` for strings: `t` occurs somewhere in `s`. */
  predicate Contains(s: string, t: string) {
    ContainsFrom(s, t, 0)
  }

  /** The declarative meaning of `Contains`: an occurrence at some index. */
  ghost predicate OccursAt(s: string, t: string, i: int) {
    0 <= i && i + |t| <= |s| && s[i..i + |t|] == t
  }

  lemma {:induction false} MatchesFromIsSlice(s: string, t: string, i: nat, j: nat)
    requires i + |t| <= |s| && j <= |t|
    ensures MatchesFrom(s, t, i, j) <==> s[i + j..i + |t|] == t[j..]
    decreases |t| - j
  {
    if j < |t| {
      MatchesFromIsSlice(s, t, i, j + 1);
      assert s[i + j..i + |t|] == [s[i + j]] + s[i + j + 1..i + |t|];
      assert t[j..] == [t[j]] + t[j + 1..];
    }
  }

  lemma {:induction false} ContainsFromIsOccurrence(s: string, t: string, i: nat)
    ensures ContainsFrom(s, t, i) <==> exists k :: i <= k && OccursAt(s, t, k)
    decreases |s| - i
  {
    if i + |t| <= |s| {
      MatchesFromIsSlice(s, t, i, 0);
      assert t[0..] == t;
      ContainsFromIsOccurrence(s, t, i + 1);
      if MatchesFrom(s, t, i, 0) {
        assert OccursAt(s, t, i);
      }
      if exists k :: i <= k && OccursAt(s, t, k) {
        var k :| i <= k && OccursAt(s, t, k);
        if k > i {
          assert i + 1 <= k;
        }
      }
    }
  }

  /** `Contains` holds exactly when `t` occurs at some index of `s`. */
  lemma ContainsIsOccurrence(s: string, t: string)
    ensures Contains(s, t) <==> exists i :: OccursAt(s, t, i)
  {
    ContainsFromIsOccurrence(s, t, 0);
  }

  /** A word whose first letter does not occur in `s` is not in `s`. */
  lemma NotContainsFirstChar(s: string, t: string)
    requires t != [] && t[0] !in s
    ensures !Contains(s, t)
  {
    ContainsIsOccurrence(s, t);
  }

  /** `s.rjust(width)`: `s` preceded by enough spaces to make it `width` long;
      `s` unchanged when it is already at least that long. */
  function PadLeft(s: string, width: int): (r: string)
    ensures |r| == if width > |s| then width else |s|
    ensures |r| >= width && |r| >= |s|
    ensures r[|r| - |s|..] == s
    ensures forall i :: 0 <= i < |r| - |s| ==> r[i] == ' '
  {
    if width <= |s| then s else seq(width - |s|, _ => ' ') + s
  }

  /** `s.replace(old, new)` for a one-character `old`: every occurrence of `c`
      is replaced by `rep`. */
  function ReplaceChar(s: string, c: char, rep: string): (r: string)
    ensures c !in rep ==> c !in r
    ensures c !in s ==> r == s
    ensures s == [c] ==> r == rep
  {
    if s == [] then [] else (if s[0] == c then rep else [s[0]]) + ReplaceChar(s[1..], c, rep)
  }

  /** Replacement works piecewise over a concatenation. */
  lemma {:induction false} ReplaceCharConcat(s: string, t: string, c: char, rep: string)
    ensures ReplaceChar(s + t, c, rep) == ReplaceChar(s, c, rep) + ReplaceChar(t, c, rep)
  {
    if s != [] {
      var head := if s[0] == c then rep else [s[0]];
      assert (s + t)[0] == s[0] && (s + t)[1..] == s[1..] + t;
      assert ReplaceChar(s + t, c, rep) == head + ReplaceChar(s[1..] + t, c, rep);
      ReplaceCharConcat(s[1..], t, c, rep);
    } else {
      assert s + t == t;
    }
  }

  predicate IsDigit(c: char) {
    '0' <= c <= '9'
  }

  function DigitChar(d: nat): (c: char)
    requires d < 10
    ensures IsDigit(c)
  {
    ('0' as int + d) as char
  }

  function DigitValue(c: char): (d: nat)
    requires IsDigit(c)
    ensures d < 10 && DigitChar(d) == c
  {
    c as int - '0' as int
  }

  predicate AllDigits(s: string) {
    forall i :: 0 <= i < |s| ==> IsDigit(s[i])
  }

  /** The decimal numeral of `n`, most significant digit first, without
      leading zeros (`0` is written "0"), as Python's `str` writes an int. */
  function Decimal(n: nat): (r: string)
    ensures |r| > 0 && AllDigits(r)
    ensures |r| > 1 ==> r[0] != '0'
  {
    if n < 10 then [DigitChar(n)] else Decimal(n / 10) + [DigitChar(n % 10)]
  }

  /** The number a digit string denotes. */
  function DecimalValue(s: string): nat
    requires AllDigits(s)
  {
    if s == [] then 0 else 10 * DecimalValue(s[..|s| - 1]) + DigitValue(s[|s| - 1])
  }

  /** Reading back a numeral gives the number it was written from. */
  lemma {:induction false} DecimalRoundTrip(n: nat)
    ensures DecimalValue(Decimal(n)) == n
  {
    if n >= 10 {
      var r := Decimal(n);
      assert r[..|r| - 1] == Decimal(n / 10);
      DecimalRoundTrip(n / 10);
    }
  }
}
