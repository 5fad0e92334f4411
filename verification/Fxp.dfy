/**
 * Parsing and printing of 16.16 fixed-point numbers (fxp.c). Strings end where they end; reading
 * behind the last character yields the null character.
 */
module Fxp {
  import opened Basics

  const DIGITS: nat := 14 // FXP_FRACTIONAL_PART_DIGITS
  const BUF_SIZE: nat := 21 // FXP_BUF_SIZE
  const UNIT: nat := 0x1_0000
  const TEN14: nat := 100_000_000_000_000

  /** What a uint64_t holds: a value assigned to one must not be larger. */
  type Uint64 = x: nat | x < 0x1_0000_0000_0000_0000

  /** A fixed-point number, fxp_t. */
  type Uint32 = x: nat | x < 0x1_0000_0000

  // ----- decimal strings -----

  predicate IsDigit(c: char) { '0' <= c <= '9' }

  function DigitOf(c: char): (d: nat)
    requires IsDigit(c)
    ensures d < 10
  {
    c as int - '0' as int
  }

  function Digit(d: nat): (c: char)
    requires d < 10
    ensures IsDigit(c) && DigitOf(c) == d
  {
    ('0' as int + d) as char
  }

  predicate AllDigits(s: string) { forall i :: 0 <= i < |s| ==> IsDigit(s[i]) }

  function Pow10(n: nat): (r: nat)
    ensures 1 <= r
  {
    if n == 0 then 1 else 10 * Pow10(n - 1)
  }

  /** n with k zeros behind it. */
  function Shift10(n: nat, k: nat): nat {
    if k == 0 then n else 10 * Shift10(n, k - 1)
  }

  lemma {:induction false} Shift10Pow(n: nat, k: nat)
    ensures Shift10(n, k) == n * Pow10(k)
  {
    if k != 0 {
      Shift10Pow(n, k - 1);
      var p := Pow10(k - 1);
      assert n * (10 * p) == 10 * (n * p);
    }
  }

  /** The number that a digit string denotes. */
  function Value(s: string): nat
    requires AllDigits(s)
  {
    if s == [] then 0 else 10 * Value(s[..|s| - 1]) + DigitOf(s[|s| - 1])
  }

  /** The shortest decimal form of n, as a print conversion gives it. */
  function Decimal(n: nat): (s: string)
    ensures s != [] && AllDigits(s)
  {
    if n < 10 then [Digit(n)] else Decimal(n / 10) + [Digit(n % 10)]
  }

  /** The last k digits of n. */
  function Fixed(n: nat, k: nat): (s: string)
    ensures |s| == k && AllDigits(s)
  {
    if k == 0 then [] else Fixed(n / 10, k - 1) + [Digit(n % 10)]
  }

  /** Without the zeros at the end. */
  function Trim(s: string): (r: string)
    ensures |r| <= |s| && r == s[..|r|]
  {
    if s != [] && s[|s| - 1] == '0' then Trim(s[..|s| - 1]) else s
  }

  function Zeros(k: nat): (s: string)
    ensures |s| == k
  {
    seq(k, _ => '0')
  }

  /** Without the factors of ten. */
  function Stripped(n: nat): nat {
    if 0 < n && n % 10 == 0 then Stripped(n / 10) else n
  }

  lemma {:induction false} DecimalValue(n: nat)
    ensures Value(Decimal(n)) == n
  {
    if n < 10 {
      assert Decimal(n)[..0] == [];
    } else {
      DecimalValue(n / 10);
      assert Decimal(n)[..|Decimal(n)| - 1] == Decimal(n / 10);
    }
  }

  lemma {:induction false} DecimalLength(n: nat, k: nat)
    requires 1 <= k
    ensures |Decimal(n)| <= k <==> n < Pow10(k)
  {
    if 10 <= n && 1 < k {
      DecimalLength(n / 10, k - 1);
    }
  }

  lemma {:induction false} FixedValue(n: nat, k: nat)
    requires n < Pow10(k)
    ensures Value(Fixed(n, k)) == n
  {
    if k != 0 {
      FixedValue(n / 10, k - 1);
      assert Fixed(n, k)[..k - 1] == Fixed(n / 10, k - 1);
    }
  }

  lemma {:induction false} TrimValue(s: string)
    requires AllDigits(s)
    ensures Shift10(Value(Trim(s)), |s| - |Trim(s)|) == Value(s)
  {
    if s != [] && s[|s| - 1] == '0' {
      TrimValue(s[..|s| - 1]);
    }
  }

  /** Trimming a positive number keeps its leading zeros. */
  lemma {:induction false} TrimFixed(n: nat, k: nat)
    requires 0 < n < Pow10(k)
    ensures |Decimal(n)| <= k && Trim(Fixed(n, k)) == Zeros(k - |Decimal(n)|) + Decimal(Stripped(n))
  {
    DecimalLength(n, k);
    if n % 10 == 0 {
      assert Fixed(n, k)[..k - 1] == Fixed(n / 10, k - 1);
      TrimFixed(n / 10, k - 1);
    } else {
      FixedPadded(n, k);
    }
  }

  lemma {:induction false} FixedPadded(n: nat, k: nat)
    requires 0 < n < Pow10(k) && |Decimal(n)| <= k
    ensures Fixed(n, k) == Zeros(k - |Decimal(n)|) + Decimal(n)
  {
    if 10 <= n {
      FixedPadded(n / 10, k - 1);
    } else {
      FixedZero(k - 1);
    }
  }

  lemma {:induction false} FixedZero(k: nat)
    ensures Fixed(0, k) == Zeros(k)
  {
    if k != 0 {
      FixedZero(k - 1);
    }
  }

  // ----- what is printed -----

  /** The first fourteen decimals of f / 2^16, as a number. */
  function Decimals(f: nat): (d: nat)
    ensures f < UNIT ==> d < TEN14
  {
    f * TEN14 / UNIT
  }

  function FractionText(f: nat): string {
    if f == 0 then "0" else Trim(Fixed(Decimals(f), DIGITS))
  }

  /** The text of a: its integer part and up to fourteen decimals, rounded down. */
  function Text(a: nat): string {
    Decimal(a / UNIT) + "." + FractionText(a % UNIT)
  }

  lemma Ten14()
    ensures Pow10(DIGITS) == TEN14
  {
    assert Pow10(7) == 10_000_000;
  }

  /** f has exactly z decimal zeros behind the point. */
  predicate LeadingZeros(f: nat, z: nat) { Shift10(f, z) < UNIT <= Shift10(f, z + 1) }

  lemma LeadingZerosLength(f: nat, z: nat)
    requires 0 < f < UNIT && z < DIGITS && LeadingZeros(f, z)
    ensures |Decimal(Decimals(f))| == DIGITS - z
  {
    var p := Pow10(DIGITS - 1 - z);
    PowSplit(z, DIGITS - z);
    PowSplit(z + 1, DIGITS - 1 - z);
    Ten14();
    Shift10Pow(f, z);
    Shift10Pow(f, z + 1);
    ScaledBelow(f, Pow10(z), Pow10(DIGITS - z));
    ScaledAbove(f, Pow10(z + 1), p);
    DecimalLength(Decimals(f), DIGITS - z);
    if DIGITS - z != 1 {
      DecimalLength(Decimals(f), DIGITS - 1 - z);
    }
  }

  lemma {:induction false} PowSplit(a: nat, b: nat)
    ensures Pow10(a) * Pow10(b) == Pow10(a + b)
  {
    if a != 0 {
      PowSplit(a - 1, b);
      var x, y := Pow10(a - 1), Pow10(b);
      assert 10 * x * y == 10 * (x * y);
    }
  }

  lemma ScaledBelow(f: nat, p: nat, q: nat)
    requires f * p < UNIT && 0 < q && p * q == TEN14
    ensures f * TEN14 / UNIT < q
  {
    assert f * TEN14 == f * p * q;
    assert (UNIT - f * p) * q == UNIT * q - f * p * q;
    assert 0 < (UNIT - f * p) * q;
  }

  lemma ScaledAbove(f: nat, p: nat, q: nat)
    requires UNIT <= f * p && p * q == TEN14
    ensures q <= f * TEN14 / UNIT
  {
    assert f * TEN14 == f * p * q;
    assert (f * p - UNIT) * q == f * p * q - UNIT * q;
    assert 0 <= (f * p - UNIT) * q;
  }

  lemma TextFits(a: nat)
    requires a < UNIT * UNIT
    ensures |Text(a)| < BUF_SIZE && |Decimal(a / UNIT)| <= 5 && |FractionText(a % UNIT)| <= DIGITS
  {
    assert a / UNIT < UNIT;
    assert Pow10(5) == 100_000;
    DecimalLength(a / UNIT, 5);
  }

  /** The digits of fxp_print: the zeros it counted, then what is left of the number. */
  lemma FractionDigits(f: nat, z: nat)
    requires f < UNIT && z < DIGITS && (if f == 0 then z == 0 else LeadingZeros(f, z))
    ensures FractionText(f) == Zeros(z) + Decimal(Stripped(Decimals(f)))
  {
    if f != 0 {
      LeadingZerosLength(f, z);
      Ten14();
      assert 0 < Decimals(f);
      TrimFixed(Decimals(f), DIGITS);
    }
  }

  // ----- what is parsed -----

  /** The index of the first character from i on that is not a digit. */
  function DigitsEnd(s: string, i: nat): (r: nat)
    requires i <= |s|
    ensures i <= r <= |s| && AllDigits(s[i..r]) && (r < |s| ==> !IsDigit(s[r]))
    decreases |s| - i
  {
    if i < |s| && IsDigit(s[i]) then
      var r := DigitsEnd(s, i + 1);
      assert s[i..r] == [s[i]] + s[i + 1..r];
      r
    else i
  }

  function At(s: string, i: nat): char { if i < |s| then s[i] else '\0' }

  /** The first fourteen digits, as if followed by zeros. */
  function FirstDecimals(s: string): nat
    requires AllDigits(s)
  {
    if |s| < DIGITS then Shift10(Value(s), DIGITS - |s|) else Value(s[..DIGITS])
  }

  /** The number at the start of s, cut to fourteen decimals and rounded down to a multiple of 2^-16,
      and the index behind it; none if there is no digit where one is needed or the integer part
      does not fit in sixteen bits. */
  function Parsed(s: string): Option<(nat, nat)> {
    if At(s, 0) != '.' && !IsDigit(At(s, 0)) then None
    else
      var e := DigitsEnd(s, 0);
      if UNIT <= Value(s[0..e]) then None
      else if At(s, e) != '.' then Some((Repr(Value(s[0..e]), 0), e))
      else WithFraction(s, Value(s[0..e]), e + 1, DigitsEnd(s, e + 1))
  }

  /** A number of n units and d * 10^-14. */
  function Repr(n: nat, d: nat): nat { n * UNIT + d * UNIT / TEN14 }

  function WithFraction(s: string, n: nat, from: nat, to: nat): Option<(nat, nat)>
    requires from <= to <= |s| && AllDigits(s[from..to])
  {
    if from == to then None else Some((Repr(n, FirstDecimals(s[from..to])), to))
  }

  lemma {:induction false} DigitsEndIs(s: string, i: nat, r: nat)
    requires i <= r <= |s| && AllDigits(s[i..r]) && (r < |s| ==> !IsDigit(s[r]))
    ensures DigitsEnd(s, i) == r
    decreases r - i
  {
    if i < r {
      assert IsDigit(s[i..r][0]);
      assert s[i + 1..r] == s[i..r][1..];
      DigitsEndIs(s, i + 1, r);
    }
  }

  /** The decimals of f, cut to fourteen, are below f by less than one unit: they denote f exactly if
      the last two bits of f are zero, and otherwise round down to the unit below. */
  lemma DecimalsBack(f: nat)
    requires f < UNIT
    ensures Decimals(f) * UNIT / TEN14 == if f % 4 == 0 then f else f - 1
  {
    var d := Decimals(f);
    var k := DecimalsRest(f, d);
    if k == 0 {
      ModUnique(d * UNIT, f, TEN14, 0);
    } else {
      ModUnique(d * UNIT, f - 1, TEN14, TEN14 - 16384 * k);
    }
  }

  /** What the division cuts off: 10^14 is 2^14 times an odd number, one more than a multiple of four. */
  lemma DecimalsRest(f: nat, d: nat) returns (k: nat)
    requires f < UNIT && d == f * TEN14 / UNIT
    ensures k == f % 4 && d * UNIT + 16384 * k == f * TEN14
  {
    k := f * 6_103_515_625 - 4 * d;
    assert f % 4 == (4 * (f * 1_525_878_906 - d) + f) % 4;
  }

  lemma TrimmedBack(d: nat)
    requires 0 < d < TEN14
    ensures var t := Trim(Fixed(d, DIGITS)); t != [] && AllDigits(t) && FirstDecimals(t) == d
  {
    var s := Fixed(d, DIGITS);
    Ten14();
    FixedValue(d, DIGITS);
    TrimValue(s);
    Shift10Pow(0, |s| - |Trim(s)|);
    if |Trim(s)| == DIGITS {
      assert Trim(s)[..DIGITS] == Trim(s);
    }
  }

  lemma FractionBack(f: nat)
    requires f < UNIT
    ensures AllDigits(FractionText(f)) && FractionText(f) != [] && FirstDecimals(FractionText(f)) == Decimals(f)
  {
    if f == 0 {
      assert Value("0") == 0;
      Shift10Pow(0, 13);
    } else {
      assert 0 < Decimals(f);
      TrimmedBack(Decimals(f));
    }
  }

  lemma ParsedAt(s: string, i: string, f: string)
    requires AllDigits(i) && f != [] && AllDigits(f) && Value(i) < UNIT
    requires |s| == |i| + 1 + |f| && s[0..|i|] == i && s[|i|] == '.' && s[|i| + 1..|s|] == f
    ensures Parsed(s) == Some((Repr(Value(i), FirstDecimals(f)), |s|))
  {
    assert i != [] ==> s[0] == s[0..|i|][0];
    DigitsEndIs(s, 0, |i|);
    DigitsEndIs(s, |i| + 1, |s|);
    ParsedFrom(s, |i|);
  }

  lemma ParsedFrom(s: string, e: nat)
    requires e < |s| && e == DigitsEnd(s, 0) && s[e] == '.' && (0 < e ==> IsDigit(s[0])) && Value(s[0..e]) < UNIT
    ensures Parsed(s) == WithFraction(s, Value(s[0..e]), e + 1, DigitsEnd(s, e + 1))
  {
  }

  lemma Joined(i: string, f: string)
    ensures var s := i + "." + f;
      |s| == |i| + 1 + |f| && s[0..|i|] == i && s[|i|] == '.' && s[|i| + 1..|s|] == f
  {
  }

  lemma ReprBack(a: nat)
    requires a < UNIT * UNIT
    ensures Repr(a / UNIT, Decimals(a % UNIT)) == if a % UNIT % 4 == 0 then a else a - 1
  {
    DecimalsBack(a % UNIT);
  }

  /** Parsing the text of a consumes all of it and gives a, or one unit less: exactly a if and only if
      the fraction of a is a multiple of four units. */
  lemma RoundTrip(a: nat)
    requires a < UNIT * UNIT
    ensures Parsed(Text(a)) == Some((if a % UNIT % 4 == 0 then a else a - 1, |Text(a)|))
  {
    var i, f := Decimal(a / UNIT), FractionText(a % UNIT);
    FractionBack(a % UNIT);
    DecimalValue(a / UNIT);
    Joined(i, f);
    ParsedAt(i + "." + f, i, f);
    ReprBack(a);
  }

  // ----- what parsing means -----

  /** The first n digits of f, each with its weight behind a decimal point, in units of 10^-k. */
  function Weight(f: string, n: nat, k: nat): nat
    requires AllDigits(f) && n <= |f| && n <= k
  {
    if n == 0 then 0 else Weight(f, n - 1, k) + DigitOf(f[n - 1]) * Pow10(k - n)
  }

  lemma Horner(v: nat, d: nat, p: nat)
    ensures v * (10 * p) + d * p == (10 * v + d) * p
  {
  }

  lemma {:induction false} WeightIs(f: string, n: nat, k: nat)
    requires AllDigits(f) && n <= |f| && n <= k
    ensures Weight(f, n, k) == Value(f[..n]) * Pow10(k - n)
  {
    if n == 0 {
      assert f[..0] == [];
    } else {
      WeightIs(f, n - 1, k);
      assert f[..n][..n - 1] == f[..n - 1];
      Horner(Value(f[..n - 1]), DigitOf(f[n - 1]), Pow10(k - n));
    }
  }

  lemma FirstDecimalsWeigh(f: string)
    requires AllDigits(f)
    ensures FirstDecimals(f) == Weight(f, if |f| < DIGITS then |f| else DIGITS, DIGITS)
  {
    if |f| < DIGITS {
      WeightIs(f, |f|, DIGITS);
      assert f[..|f|] == f;
      Shift10Pow(Value(f), DIGITS - |f|);
    } else {
      WeightIs(f, DIGITS, DIGITS);
    }
  }

  lemma RoundDown(n: nat, d: nat, r: nat)
    requires r == n * UNIT + d * UNIT / TEN14
    ensures r * TEN14 <= (n * TEN14 + d) * UNIT < (r + 1) * TEN14
  {
  }

  /** s starts with digits up to e, and no digit is there. */
  predicate DigitsTo(s: string, from: nat, e: nat) {
    from <= e <= |s| && AllDigits(s[from..e]) && !IsDigit(At(s, e))
  }

  /** A number without a point: exactly its integer, whatever follows. */
  lemma ParsedInteger(s: string, e: nat)
    requires DigitsTo(s, 0, e) && 0 < e && At(s, e) != '.' && Value(s[0..e]) < UNIT
    ensures Parsed(s) == Some((Value(s[0..e]) * UNIT, e))
  {
    assert IsDigit(s[0..e][0]);
    DigitsEndIs(s, 0, e);
  }

  /** In particular every integer that fits, as it is printed, and it is the same with a zero behind a point. */
  lemma ParsedDecimal(n: nat)
    requires n < UNIT
    ensures Parsed(Decimal(n)) == Some((n * UNIT, |Decimal(n)|))
    ensures Parsed(Decimal(n) + "." + "0") == Some((n * UNIT, |Decimal(n)| + 2))
  {
    var i := Decimal(n);
    DecimalValue(n);
    assert i[0..|i|] == i;
    ParsedInteger(i, |i|);
    Joined(i, "0");
    ZeroDecimals();
    ParsedAt(i + "." + "0", i, "0");
  }

  lemma ZeroDecimals()
    ensures AllDigits("0") && FirstDecimals("0") == 0
  {
    assert Value("0") == 0;
    Shift10Pow(0, 13);
  }

  /** A number with a point: the result is the greatest multiple of 2^-16 that is no more than the number denoted by
      the digits before the point, if any, and the first fourteen behind it; the others are skipped. */
  lemma ParsedFraction(s: string, e: nat, to: nat)
    requires DigitsTo(s, 0, e) && At(s, e) == '.' && e + 1 < to && DigitsTo(s, e + 1, to) && Value(s[0..e]) < UNIT
    ensures Parsed(s).Some?
    ensures var (r, end) := Parsed(s).value;
      var f := s[e + 1..to];
      var x := Value(s[0..e]) * TEN14 + Weight(f, if |f| < DIGITS then |f| else DIGITS, DIGITS);
      end == to && r * TEN14 <= x * UNIT < (r + 1) * TEN14
  {
    var f := s[e + 1..to];
    assert 0 < e ==> IsDigit(s[0..e][0]);
    DigitsEndIs(s, 0, e);
    DigitsEndIs(s, e + 1, to);
    ParsedFrom(s, e);
    FirstDecimalsWeigh(f);
    RoundDown(Value(s[0..e]), FirstDecimals(f), Repr(Value(s[0..e]), FirstDecimals(f)));
  }

  /** It fails if and only if there is no digit and no point at the start, the integer part does not fit in sixteen
      bits, or no digit follows the point. */
  lemma ParsedFails(s: string) returns (e: nat)
    ensures DigitsTo(s, 0, e)
    ensures Parsed(s).None? <==>
      || (e == 0 && At(s, 0) != '.')
      || UNIT <= Value(s[0..e])
      || (At(s, e) == '.' && !IsDigit(At(s, e + 1)))
  {
    e := DigitsEnd(s, 0);
    assert 0 < e ==> IsDigit(s[0..e][0]);
  }

  /** The text of a number ends in no zero, unless it has no other decimals, and has at most fourteen. */
  lemma TextShape(a: nat)
    requires a < UNIT * UNIT
    ensures var f := FractionText(a % UNIT);
      Text(a) == Decimal(a / UNIT) + "." + f && 1 <= |f| <= DIGITS && (f[|f| - 1] == '0' ==> f == "0" && a % UNIT == 0)
  {
    FractionBack(a % UNIT);
    if a % UNIT != 0 {
      TrimEnds(Fixed(Decimals(a % UNIT), DIGITS));
    }
  }

  lemma {:induction false} TrimEnds(s: string)
    ensures Trim(s) != [] ==> Trim(s)[|Trim(s)| - 1] != '0'
    decreases |s|
  {
    if s != [] && s[|s| - 1] == '0' {
      TrimEnds(s[..|s| - 1]);
    }
  }

  // ----- the code -----

  /** malloc_snprintf of a text that fits. */
  method Write(buf: array<char>, at: nat, s: string) returns (next: nat)
    requires at + |s| < buf.Length
    modifies buf
    ensures next == at + |s| && buf[..next] == old(buf[..at]) + s && buf[next] == '\0'
  {
    forall i | 0 <= i < |s| {
      buf[at + i] := s[i];
    }
    next := at + |s|;
    buf[next] := '\0';
  }

  lemma {:induction false} Shift10Mono(n: nat, i: nat, k: nat)
    requires i <= k
    ensures Shift10(n, i) <= Shift10(n, k)
  {
    if i < k {
      Shift10Mono(n, i, k - 1);
    }
  }

  /** The first loop of fxp_print, which does not overflow. */
  method Scale(f: nat) returns (zeros: nat, digits: Uint64)
    requires f < UNIT
    ensures zeros < DIGITS && (if f == 0 then zeros == 0 else LeadingZeros(f, zeros)) && digits == f * TEN14
  {
    Ten14();
    Shift10Pow(f, DIGITS);
    zeros, digits := 0, f;
    for i := 0 to DIGITS
      invariant digits == Shift10(f, i)
      invariant if UNIT <= digits then zeros < i && LeadingZeros(f, zeros) else zeros == 0
    {
      Shift10Mono(f, i + 1, DIGITS);
      var next: Uint64 := digits * 10;
      if digits < UNIT && UNIT <= next {
        zeros := i;
      }
      digits := next;
    }
  }

  method StripZeros(d: Uint64) returns (digits: Uint64)
    ensures digits == Stripped(d)
  {
    digits := d;
    while 0 < digits && digits % 10 == 0
      invariant Stripped(digits) == Stripped(d)
    {
      digits := digits / 10;
    }
  }

  method WriteZeros(buf: array<char>, at: nat, zeros: nat) returns (next: nat)
    requires at + zeros <= buf.Length
    modifies buf
    ensures next == at + zeros && buf[..next] == old(buf[..at]) + Zeros(zeros)
  {
    next := at;
    for k := 0 to zeros
      invariant next == at + k && buf[..next] == old(buf[..at]) + Zeros(k)
    {
      buf[next] := '0';
      next := next + 1;
    }
  }

  /** The fraction: how many zeros come first, and the digits behind them without zeros at the end. */
  method CutFraction(f: nat) returns (zeros: nat, digits: Uint64)
    requires f < UNIT
    ensures FractionText(f) == Zeros(zeros) + Decimal(digits)
  {
    zeros, digits := Scale(f);
    digits := StripZeros(digits / UNIT);
    FractionDigits(f, zeros);
  }

  lemma Appended(s: string, t: string, u: string)
    ensures s + (t + u) == s + t + u
  {
  }

  method WriteFraction(buf: array<char>, at: nat, f: nat) returns (next: nat)
    requires f < UNIT && at + |FractionText(f)| < buf.Length
    modifies buf
    ensures next == at + |FractionText(f)| && buf[..next] == old(buf[..at]) + FractionText(f) && buf[next] == '\0'
  {
    var zeros, digits := CutFraction(f);
    Appended(buf[..at], Zeros(zeros), Decimal(digits));
    next := WriteZeros(buf, at, zeros);
    next := Write(buf, next, Decimal(digits));
  }

  /** fxp_print: the text fits in the buffer. */
  method Print(a: nat, buf: array<char>)
    requires a < UNIT * UNIT && buf.Length == BUF_SIZE
    modifies buf
    ensures |Text(a)| < BUF_SIZE && buf[..|Text(a)|] == Text(a) && buf[|Text(a)|] == '\0'
  {
    TextFits(a);
    var printed := Write(buf, 0, Decimal(a / UNIT) + ".");
    printed := WriteFraction(buf, printed, a % UNIT);
  }

  lemma {:induction false} PrefixValue(s: string, k: nat)
    requires AllDigits(s) && k <= |s|
    ensures Value(s[..k]) <= Value(s)
    decreases |s|
  {
    if k < |s| {
      PrefixValue(s[..|s| - 1], k);
      assert s[..|s| - 1][..k] == s[..k];
    } else {
      assert s[..k] == s;
    }
  }

  /** The integer part; none on overflow. */
  method ParseInteger(s: string) returns (r: Option<nat>, cur: nat)
    ensures if r.None? then UNIT <= Value(s[0..DigitsEnd(s, 0)])
            else cur == DigitsEnd(s, 0) && r.value == Value(s[0..cur]) < UNIT
  {
    ghost var run := s[0..DigitsEnd(s, 0)];
    var n := 0;
    cur := 0;
    while IsDigit(At(s, cur))
      invariant cur <= |s| && AllDigits(s[0..cur]) && cur <= |run| && n == Value(s[0..cur]) < UNIT
      decreases |s| - cur
    {
      n := n * 10 + DigitOf(At(s, cur));
      DigitsReach(s, 0, cur);
      assert run[..cur + 1][..cur] == s[0..cur] && run[..cur + 1] == s[0..cur + 1];
      PrefixValue(run, cur + 1);
      if UNIT <= n {
        return None, cur;
      }
      cur := cur + 1;
    }
    DigitsEndIs(s, 0, cur);
    r := Some(n);
  }

  lemma {:induction false} DigitsReach(s: string, i: nat, cur: nat)
    requires i <= cur < |s| && AllDigits(s[i..cur]) && IsDigit(s[cur])
    ensures cur < DigitsEnd(s, i)
    decreases cur - i
  {
    if i < cur {
      assert IsDigit(s[i..cur][0]);
      assert s[i + 1..cur] == s[i..cur][1..];
      DigitsReach(s, i + 1, cur);
    }
  }

  lemma {:induction false} Pow10Mono(i: nat, k: nat)
    requires i <= k
    ensures Pow10(i) <= Pow10(k)
  {
    if i < k {
      Pow10Mono(i, k - 1);
    }
  }

  /** The first k digits of run, as if followed by zeros. */
  function Padded(run: string, k: nat): nat
    requires AllDigits(run)
  {
    if k <= |run| then Value(run[..k]) else Shift10(Value(run), k - |run|)
  }

  lemma PaddedStep(run: string, k: nat)
    requires AllDigits(run)
    ensures Padded(run, k + 1) == 10 * Padded(run, k) + if k < |run| then DigitOf(run[k]) else 0
  {
    if k < |run| {
      assert run[..k + 1][..k] == run[..k];
    } else {
      assert k == |run| ==> run[..k] == run;
      assert Shift10(Value(run), k + 1 - |run|) == 10 * Shift10(Value(run), k - |run|);
    }
  }

  lemma PaddedAll(run: string)
    requires AllDigits(run)
    ensures Padded(run, DIGITS) == FirstDecimals(run)
  {
    if |run| == DIGITS {
      assert run[..DIGITS] == run;
    }
  }

  /** Digit i of a run, and what is behind it; a zero when there are no more. */
  method ReadDigit(s: string, cur: nat, ghost start: nat, ghost end: nat, ghost i: nat)
    returns (digit: Uint64, next: nat)
    requires start <= end <= |s| && AllDigits(s[start..end]) && (end < |s| ==> !IsDigit(s[end]))
    requires cur == if i < end - start then start + i else end
    ensures digit == (if i < end - start then DigitOf(s[start..end][i]) else 0) <= 9
    ensures next == if i + 1 < end - start then start + i + 1 else end
  {
    digit, next := 0, cur;
    if IsDigit(At(s, cur)) {
      digit, next := DigitOf(At(s, cur)), cur + 1;
    }
  }

  /** Fourteen digits are read, as zeros when there are no more. */
  method ReadDigits(s: string, start: nat, ghost end: nat) returns (fraction: Uint64, div: Uint64, cur: nat)
    requires start <= end <= |s| && AllDigits(s[start..end]) && (end < |s| ==> !IsDigit(s[end]))
    ensures start <= cur <= end && fraction == FirstDecimals(s[start..end]) < div == TEN14
  {
    ghost var run := s[start..end];
    Ten14();
    cur, fraction, div := start, 0, 1;
    for i := 0 to DIGITS
      invariant cur == if i < |run| then start + i else end
      invariant fraction == Padded(run, i) < div == Pow10(i)
    {
      Pow10Mono(i + 1, DIGITS);
      PaddedStep(run, i);
      var digit;
      digit, cur := ReadDigit(s, cur, start, end, i);
      fraction := fraction * 10 + digit;
      div := div * 10;
    }
    PaddedAll(run);
  }

  /** The fractional part: the digits behind the fourteenth are skipped. Nothing overflows, not even when
      the result is shifted by sixteen bits. */
  method ParseFraction(s: string, start: nat) returns (fraction: Uint64, div: Uint64, cur: nat)
    requires start <= |s|
    ensures cur == DigitsEnd(s, start) && fraction == FirstDecimals(s[start..cur]) < div == TEN14
  {
    ghost var end := DigitsEnd(s, start);
    fraction, div, cur := ReadDigits(s, start, end);
    while IsDigit(At(s, cur))
      invariant start <= cur <= end
      decreases end - cur
    {
      cur := cur + 1;
    }
  }

  /** fxp_parse */
  method Parse(s: string) returns (r: Option<(Uint32, nat)>)
    ensures r == Parsed(s)
  {
    if At(s, 0) != '.' && !IsDigit(At(s, 0)) {
      return None;
    }
    var n, cur := ParseInteger(s);
    if n.None? {
      return None;
    }
    if At(s, cur) != '.' {
      return Some((n.value * UNIT, cur));
    }
    cur := cur + 1;
    if !IsDigit(At(s, cur)) {
      return None;
    }
    var fraction, div;
    fraction, div, cur := ParseFraction(s, cur);
    var shifted: Uint64 := fraction * UNIT;
    r := Some((n.value * UNIT + shifted / div, cur));
  }
}
