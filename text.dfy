/**
 The Rust `String` values the process listing and the byte formatter work
 on, and the `std` string operations they use: substring search
 (`str::contains`), byte-wise ordering (`Ord for str`), lowercasing and the
 decimal rendering of an unsigned integer (`to_string`, `{}`).

 A string is modelled as the sequence of its UTF-8 bytes: each `char` of a
 `Bytes` value stands for one byte, so `|s|` is Rust's `s.len()`.
 */
module Text {

  /** A Rust string as its sequence of UTF-8 bytes, one byte per element. */
  type Bytes = string

  // ---------------------------------------------------------------------------
  // Substring search: `str::contains` with a string pattern
  // ---------------------------------------------------------------------------

  /** `f` occurs in `s` as a contiguous run of bytes starting at offset `i`. */
  predicate OccursAt(s: Bytes, f: Bytes, i: nat)
  {
    i + |f| <= |s| && s[i..i + |f|] == f
  }

  /** `s.contains(f)`: case-sensitive, byte-exact substring test. */
  predicate Contains(s: Bytes, f: Bytes)
  {
    exists i :: 0 <= i <= |s| - |f| && OccursAt(s, f, i)
  }

  /** The empty pattern is found in every string, as in Rust. */
  lemma EmptyPatternMatches(s: Bytes)
    ensures Contains(s, "")
  {
    assert OccursAt(s, "", 0);
  }

  /** A string contains itself, and a pattern longer than the string is never found. */
  lemma ContainsBounds(s: Bytes, f: Bytes)
    ensures Contains(s, s)
    ensures |f| > |s| ==> !Contains(s, f)
  {
    assert OccursAt(s, s, 0);
  }

  // ---------------------------------------------------------------------------
  // Ordering: `Ord for str`, lexicographic on bytes, a proper prefix first
  // ---------------------------------------------------------------------------

  /** `a.cmp(b) == Less`. */
  predicate LexLess(a: Bytes, b: Bytes)
  {
    if a == [] then b != []
    else if b == [] then false
    else if a[0] != b[0] then a[0] < b[0]
    else LexLess(a[1..], b[1..])
  }

  /** `a.cmp(b) != Greater`. */
  predicate LexLessEq(a: Bytes, b: Bytes)
  {
    a == b || LexLess(a, b)
  }

  lemma {:induction false} LexLessIrreflexive(a: Bytes)
    ensures !LexLess(a, a)
  {
    if a != [] {
      LexLessIrreflexive(a[1..]);
    }
  }

  lemma {:induction false} LexLessTransitive(a: Bytes, b: Bytes, c: Bytes)
    requires LexLess(a, b) && LexLess(b, c)
    ensures LexLess(a, c)
  {
    if a != [] && b != [] && c != [] && a[0] == b[0] && b[0] == c[0] {
      LexLessTransitive(a[1..], b[1..], c[1..]);
    }
  }

  /** Two different strings are always ordered one way or the other. */
  lemma {:induction false} LexLessTotal(a: Bytes, b: Bytes)
    requires a != b
    ensures LexLess(a, b) || LexLess(b, a)
  {
    if a != [] && b != [] && a[0] == b[0] {
      assert a == [a[0]] + a[1..] && b == [b[0]] + b[1..];
      LexLessTotal(a[1..], b[1..]);
    }
  }

  lemma {:induction false} LexLessAsymmetric(a: Bytes, b: Bytes)
    requires LexLess(a, b)
    ensures !LexLess(b, a)
  {
    if a != [] && b != [] && a[0] == b[0] {
      LexLessAsymmetric(a[1..], b[1..]);
    }
  }

  /** A decimal number with fewer digits can still compare greater: "9" is above "10". */
  lemma LexOrderIsNotNumeric()
    ensures LexLess("10", "9")
  {
  }

  // ---------------------------------------------------------------------------
  // Lowercasing (ASCII): the `to_lowercase` applied before comparing names
  // ---------------------------------------------------------------------------

  predicate IsUpper(c: char)
  {
    'A' <= c <= 'Z'
  }

  function LowerChar(c: char): (d: char)
    ensures !IsUpper(d)
    ensures IsUpper(c) ==> d as int == c as int + 32
    ensures !IsUpper(c) ==> d == c
  {
    if IsUpper(c) then (c as int + 32) as char else c
  }

  /** `s.to_lowercase()`, restricted to ASCII letters. */
  function Lower(s: Bytes): (r: Bytes)
    ensures |r| == |s|
    ensures forall i :: 0 <= i < |s| ==> r[i] == LowerChar(s[i])
  {
    if s == [] then [] else [LowerChar(s[0])] + Lower(s[1..])
  }

  /** Lowercasing twice is lowercasing once. */
  lemma LowerIdempotent(s: Bytes)
    ensures Lower(Lower(s)) == Lower(s)
  {
  }

  // ---------------------------------------------------------------------------
  // Decimal rendering of a natural number and its inverse
  // ---------------------------------------------------------------------------

  predicate IsDigit(c: char)
  {
    '0' <= c <= '9'
  }

  function Digit(d: nat): (c: char)
    requires d < 10
    ensures IsDigit(c)
  {
    ('0' as int + d) as char
  }

  function DigitValue(c: char): (d: nat)
    requires IsDigit(c)
    ensures d < 10
  {
    c as int - '0' as int
  }

  /** `n.to_string()`: the shortest base-ten rendering, most significant digit first. */
  function Decimal(n: nat): (s: Bytes)
    ensures |s| >= 1
    ensures forall i :: 0 <= i < |s| ==> IsDigit(s[i])
    ensures n < 10 <==> |s| == 1
  {
    if n < 10 then [Digit(n)] else Decimal(n / 10) + [Digit(n % 10)]
  }

  /** The value of a string of decimal digits. */
  function ParseDecimal(s: Bytes): (n: nat)
    requires forall i :: 0 <= i < |s| ==> IsDigit(s[i])
  {
    if s == [] then 0 else 10 * ParseDecimal(s[..|s| - 1]) + DigitValue(s[|s| - 1])
  }

  /** Reading back a rendered number gives the number. */
  lemma {:induction false} DecimalRoundTrip(n: nat)
    ensures ParseDecimal(Decimal(n)) == n
  {
    if n >= 10 {
      var s := Decimal(n);
      assert s[..|s| - 1] == Decimal(n / 10);
      DecimalRoundTrip(n / 10);
    }
  }

  /** The rendering has no leading zero, except for the number zero itself. */
  lemma {:induction false} DecimalNoLeadingZero(n: nat)
    ensures Decimal(n)[0] == '0' <==> n == 0
  {
    if n >= 10 {
      DecimalNoLeadingZero(n / 10);
      assert Decimal(n)[0] == Decimal(n / 10)[0];
    }
  }

  /** Different numbers render differently, so `to_string` loses nothing. */
  lemma DecimalInjective(m: nat, n: nat)
    requires Decimal(m) == Decimal(n)
    ensures m == n
  {
    DecimalRoundTrip(m);
    DecimalRoundTrip(n);
  }
}
