/**
 The two pieces of text shaping in the formatter that are the program's
 own: `format_bytes`, which renders a byte count in binary units with two
 decimals, and the clipping of long process names in the process table.

 The unit is chosen in exact integer arithmetic (the largest power of
 1024 not above the count, capped at EiB) and the two decimals are the
 exact quotient rounded to the nearest hundredth, ties to even.
 */
module Fmt {
  import opened Text
  import opened Models

  // ---------------------------------------------------------------------------
  // Choosing the unit
  // ---------------------------------------------------------------------------

  /** The unit names of `format_bytes`, indexed by the power of 1024 each stands for. */
  const Units: seq<Bytes> := ["B", "KiB", "MiB", "GiB", "TiB", "PiB", "EiB"]

  function Pow1024(i: nat): (p: nat)
    ensures p >= 1
  {
    if i == 0 then 1 else 1024 * Pow1024(i - 1)
  }

  lemma {:induction false} Pow1024Monotonic(i: nat, j: nat)
    requires i <= j
    ensures Pow1024(i) <= Pow1024(j)
  {
    if i < j {
      Pow1024Monotonic(i, j - 1);
    }
  }

  /** The integer part of the base-1024 logarithm of `n`. */
  function Log1024(n: nat): (i: nat)
    requires n >= 1
    ensures Pow1024(i) <= n < Pow1024(i + 1)
  {
    if n < 1024 then 0
    else
      var k := Log1024(n / 1024);
      assert 1024 * Pow1024(k) <= 1024 * (n / 1024) <= n;
      assert n < 1024 * (n / 1024 + 1) <= 1024 * Pow1024(k + 1);
      k + 1
  }

  /** Only one exponent brackets `n`, so `Log1024` is the largest power not above it. */
  lemma {:induction false} Log1024Unique(n: nat, i: nat)
    requires n >= 1
    requires Pow1024(i) <= n < Pow1024(i + 1)
    ensures Log1024(n) == i
  {
    var k := Log1024(n);
    if k < i {
      Pow1024Monotonic(k + 1, i);
    } else if k > i {
      Pow1024Monotonic(i + 1, k);
    }
  }

  /** The index into `Units` that `format_bytes` picks for a positive count: `floor(log1024(bytes))`, at most 6. */
  function UnitIndex(bytes: nat): (i: nat)
    requires bytes >= 1
    ensures i < |Units|
    ensures Pow1024(i) <= bytes
    ensures i == |Units| - 1 || bytes < Pow1024(i + 1)
  {
    var l := Log1024(bytes);
    if l < |Units| - 1 then l
    else
      Pow1024Monotonic(|Units| - 1, l);
      |Units| - 1
  }

  /** The chosen unit is the largest one whose size does not exceed the count. */
  lemma {:induction false} UnitIndexIsLargest(bytes: nat, j: nat)
    requires bytes >= 1 && j < |Units| && Pow1024(j) <= bytes
    ensures j <= UnitIndex(bytes)
  {
    var i := UnitIndex(bytes);
    if i < j {
      Pow1024Monotonic(i + 1, j);
    }
  }

  /** For every `u64` the cap never bites: the count lies in `[1024^i, 1024^(i+1))`. */
  lemma {:induction false} UnitIndexBrackets(bytes: U64)
    requires bytes > 0
    ensures Pow1024(UnitIndex(bytes)) <= bytes < Pow1024(UnitIndex(bytes) + 1)
  {
    var i := UnitIndex(bytes);
    if i == |Units| - 1 {
      assert Pow1024(7) == 0x40_0000_0000_0000_0000;
    }
  }

  // ---------------------------------------------------------------------------
  // Rendering `{:.2} {}`
  // ---------------------------------------------------------------------------

  /** `n / d` rounded to the nearest integer, a tie going to the even neighbour. */
  function RoundHalfEven(n: nat, d: nat): (q: nat)
    requires d > 0
    ensures (2 * q - 1) * d <= 2 * n <= (2 * q + 1) * d
  {
    var q, r := n / d, n % d;
    DivMod(n, d);
    var up := 2 * r > d || (2 * r == d && q % 2 == 1);
    NearestBounds(n, d, q, up);
    if up then q + 1 else q
  }

  lemma {:induction false} DivMod(n: nat, d: nat)
    requires d > 0
    ensures (n / d) * d <= n < (n / d) * d + d
    ensures n % d == n - (n / d) * d
  {
  }

  /** Rounding the quotient `q` of `n / d` up or down, as the remainder says, lands within half of `d`. */
  lemma {:induction false} NearestBounds(n: nat, d: nat, q: nat, up: bool)
    requires d > 0 && q * d <= n < q * d + d
    requires up ==> 2 * n >= 2 * (q * d) + d
    requires !up ==> 2 * n <= 2 * (q * d) + d
    ensures var m := if up then q + 1 else q;
      (2 * m - 1) * d <= 2 * n <= (2 * m + 1) * d
  {
    Scaled(q, d);
  }

  /** The products the bounds of `RoundHalfEven` expand to. */
  lemma {:induction false} Scaled(q: int, d: int)
    ensures (2 * q - 1) * d == 2 * (q * d) - d
    ensures (2 * q + 1) * d == 2 * (q * d) + d
    ensures (2 * (q + 1) - 1) * d == 2 * (q * d) + d
    ensures (2 * (q + 1) + 1) * d == 2 * (q * d) + 3 * d
  {
  }

  /** An exact quotient is not rounded. */
  lemma {:induction false} RoundHalfEvenExact(k: nat, d: nat)
    requires d > 0
    ensures RoundHalfEven(k * d, d) == k
  {
    var n := k * d;
    var q := RoundHalfEven(n, d);
    Scaled(k, d);
    if q < k {
      MulMonotonic(2 * q + 1, 2 * k - 1, d);
    } else if q > k {
      MulMonotonic(2 * k + 1, 2 * q - 1, d);
    }
  }

  lemma {:induction false} MulMonotonic(a: int, b: int, d: nat)
    requires a <= b
    ensures a * d <= b * d
  {
    assert b * d - a * d == (b - a) * d;
  }

  /** A count of hundredths written with two decimals: `{:.2}` of `h / 100`. */
  function TwoDecimals(h: nat): (s: Bytes)
    ensures |s| >= 4 && s[|s| - 3] == '.'
  {
    Decimal(h / 100) + "." + [Digit(h / 10 % 10), Digit(h % 10)]
  }

  /** Reading the two-decimal text back gives the count of hundredths. */
  lemma {:induction false} TwoDecimalsRoundTrip(h: nat)
    ensures var s := TwoDecimals(h);
      forall i :: 0 <= i < |s| && i != |s| - 3 ==> IsDigit(s[i])
    ensures var s := TwoDecimals(h);
      100 * ParseDecimal(s[..|s| - 3]) + ParseDecimal(s[|s| - 2..]) == h
  {
    var s := TwoDecimals(h);
    var tens, units := h / 10 % 10, h % 10;
    assert s[..|s| - 3] == Decimal(h / 100);
    DecimalRoundTrip(h / 100);
    var f := s[|s| - 2..];
    assert f == [Digit(tens), Digit(units)];
    assert f[..1] == [Digit(tens)];
    assert ParseDecimal(f[..1]) == tens;
    assert ParseDecimal(f) == 10 * tens + units;
    assert h == 100 * (h / 100) + 10 * tens + units by {
      assert h == 10 * (h / 10) + units;
      assert h / 10 == 10 * (h / 10 / 10) + tens;
      assert h / 10 / 10 == h / 100;
    }
  }

  /** The value `format_bytes` prints, in hundredths of the chosen unit. */
  function Hundredths(bytes: nat): (h: nat)
    requires bytes >= 1
    ensures var p := Pow1024(UnitIndex(bytes));
      (2 * h - 1) * p <= 200 * bytes <= (2 * h + 1) * p
  {
    RoundHalfEven(100 * bytes, Pow1024(UnitIndex(bytes)))
  }

  /** `format_bytes`: `"0 B"` for zero, otherwise the scaled value with two decimals, a space and the unit. */
  function FormatBytes(bytes: U64): (s: Bytes)
    ensures bytes == 0 <==> s == "0 B"
  {
    if bytes == 0 then "0 B"
    else TwoDecimals(Hundredths(bytes)) + " " + Units[UnitIndex(bytes)]
  }

  /**
   A positive count is printed as `<value> <unit>`: the unit is the largest
   power of 1024 not above the count, and the value is the count in that
   unit to the nearest hundredth.
   */
  lemma {:induction false} FormatBytesValue(bytes: U64)
    requires bytes > 0
    ensures var i := UnitIndex(bytes);
      Pow1024(i) <= bytes < Pow1024(i + 1) &&
      exists h: nat ::
        && FormatBytes(bytes) == TwoDecimals(h) + " " + Units[i]
        && (2 * h - 1) * Pow1024(i) <= 200 * bytes <= (2 * h + 1) * Pow1024(i)
  {
    UnitIndexBrackets(bytes);
    assert FormatBytes(bytes) == TwoDecimals(Hundredths(bytes)) + " " + Units[UnitIndex(bytes)];
  }

  /** A whole number `k` of some unit prints as `k.00` followed by that unit. */
  lemma {:induction false} FormatBytesExactMultiple(k: nat, i: nat)
    requires 1 <= k < 1024 && i < |Units|
    requires k * Pow1024(i) < U64_LIMIT
    ensures FormatBytes(k * Pow1024(i)) == Decimal(k) + ".00 " + Units[i]
  {
    UnitIndexOfMultiple(k, i);
    HundredthsOfMultiple(k, i);
    HundredsTwoDecimals(k);
  }

  /** `k` whole units, fewer than 1024 of them, are counted in that unit. */
  lemma {:induction false} UnitIndexOfMultiple(k: nat, i: nat)
    requires 1 <= k < 1024 && i < |Units|
    ensures UnitIndex(k * Pow1024(i)) == i
  {
    var p := Pow1024(i);
    MulMonotonic(1, k, p);
    MulMonotonic(k, 1023, p);
    Log1024Unique(k * p, i);
  }

  /** `k` whole units print as exactly `100 * k` hundredths. */
  lemma {:induction false} HundredthsOfMultiple(k: nat, i: nat)
    requires 1 <= k < 1024 && i < |Units|
    requires UnitIndex(k * Pow1024(i)) == i
    ensures Hundredths(k * Pow1024(i)) == 100 * k
  {
    var p := Pow1024(i);
    var bytes := k * p;
    HundredTimes(k, p);
    assert Hundredths(bytes) == RoundHalfEven(100 * bytes, p);
    RoundHalfEvenExact(100 * k, p);
  }

  lemma {:induction false} HundredTimes(k: nat, p: nat)
    ensures 100 * (k * p) == (100 * k) * p
  {
  }

  /** A whole number of hundreds of hundredths has two zero decimals. */
  lemma {:induction false} HundredsTwoDecimals(k: nat)
    ensures TwoDecimals(100 * k) == Decimal(k) + ".00"
  {
    HundredsDigits(k);
    assert [Digit(0), Digit(0)] == "00";
  }

  /** The integer part and the two decimal digits of `100 * k` hundredths. */
  lemma HundredsDigits(k: nat)
    ensures (100 * k) / 100 == k && (100 * k) / 10 % 10 == 0 && (100 * k) % 10 == 0
  {
    var h := 100 * k;
    assert h / 10 == 10 * k;
  }

  // ---------------------------------------------------------------------------
  // The name column of the process table
  // ---------------------------------------------------------------------------

  /** Names longer than 30 bytes are cut to their first 27 bytes followed by `...`. */
  function ClipName(name: Bytes): (shown: Bytes)
    ensures |shown| <= 30
    ensures |name| <= 30 ==> shown == name
    ensures |name| > 30 ==> |shown| == 30 && shown[..27] == name[..27] && shown[27..] == "..."
  {
    if |name| > 30 then name[..27] + "..." else name
  }

  /** A name is shown unchanged exactly when it fits in 30 bytes, and clipping twice is clipping once. */
  lemma {:induction false} ClipNameUnchangedIff(name: Bytes)
    ensures ClipName(name) == name <==> |name| <= 30
    ensures ClipName(ClipName(name)) == ClipName(name)
  {
  }
}
