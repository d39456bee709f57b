/** The FSK correlators in fixed point: what they compute, and why 32 bits are enough. */
module Correlator {

  const COS_BASE := 16384
  const INT32_MAX := 0x7fff_ffff

  function Pow2(n: nat): nat {
    if n == 0 then 1 else 2 * Pow2(n - 1)
  }

  /** Arithmetic right shift. */
  function Sar(x: int, s: nat): int {
    Pow2Positive(s);
    x / Pow2(s)
  }

  /** The shift rounds down, for negative samples too. */
  lemma SarRoundsDown(x: int, s: nat)
    ensures Pow2(s) * Sar(x, s) <= x < Pow2(s) * Sar(x, s) + Pow2(s)
  {
    hide Pow2;
    Pow2Positive(s);
  }

  lemma Pow2Positive(n: nat)
    ensures Pow2(n) > 0
  {
  }

  lemma {:induction false} Pow2Sum(a: nat, b: nat)
    ensures Pow2(a) * Pow2(b) == Pow2(a + b)
  {
    if a > 0 {
      Pow2Sum(a - 1, b);
      assert Pow2(a) * Pow2(b) == 2 * (Pow2(a - 1) * Pow2(b));
    }
  }

  lemma {:induction false} Pow2Monotone(a: nat, b: nat)
    requires a <= b
    ensures Pow2(a) <= Pow2(b)
  {
    if a < b {
      Pow2Monotone(a, b - 1);
    }
  }

  /** The four quadrature tables: high and low tone, in phase and in quadrature. */
  datatype Tables = Tables(hiI: seq<int>, hiQ: seq<int>, loI: seq<int>, loQ: seq<int>) {
    ghost predicate Sized(size: nat) {
      |hiI| == size && |hiQ| == size && |loI| == size && |loQ| == size
    }
  }

  function Dot(b: seq<int>, t: seq<int>): int
    requires |b| == |t|
  {
    if b == [] then 0
    else Dot(b[..|b| - 1], t[..|b| - 1]) + b[|b| - 1] * t[|b| - 1]
  }

  /** Energy of the signal in one quadrature component. */
  function Energy(b: seq<int>, t: seq<int>): int
    requires |b| == |t|
  {
    (Dot(b, t) / COS_BASE) * (Dot(b, t) / COS_BASE)
  }

  /** Positive when the high tone dominates. */
  function Discriminant(b: seq<int>, t: Tables): int
    requires t.Sized(|b|)
  {
    Energy(b, t.hiI) + Energy(b, t.hiQ) - Energy(b, t.loI) - Energy(b, t.loQ)
  }

  /** Neither quadrature component of a tone shows in the window. */
  ghost predicate Silent(b: seq<int>, i: seq<int>, q: seq<int>)
    requires |b| == |i| == |q|
  {
    0 <= Dot(b, i) < COS_BASE && 0 <= Dot(b, q) < COS_BASE
  }

  lemma EnergySign(b: seq<int>, t: seq<int>)
    requires |b| == |t|
    ensures Energy(b, t) >= 0
    ensures Energy(b, t) == 0 <==> 0 <= Dot(b, t) < COS_BASE
  {
    hide Dot;
    SquareSign(Dot(b, t) / COS_BASE);
  }

  lemma SquareSign(x: int)
    ensures x * x >= 0 && (x * x == 0 <==> x == 0)
  {
  }

  /** What the sign means: one tone heard without the other decides, and with neither there is a draw. */
  lemma ToneDecides(b: seq<int>, t: Tables)
    requires t.Sized(|b|)
    ensures Silent(b, t.loI, t.loQ) && !Silent(b, t.hiI, t.hiQ) ==> Discriminant(b, t) > 0
    ensures Silent(b, t.hiI, t.hiQ) && !Silent(b, t.loI, t.loQ) ==> Discriminant(b, t) < 0
    ensures Silent(b, t.hiI, t.hiQ) && Silent(b, t.loI, t.loQ) ==> Discriminant(b, t) == 0
  {
    hide Energy, Dot;
    EnergySign(b, t.hiI);
    EnergySign(b, t.hiQ);
    EnergySign(b, t.loI);
    EnergySign(b, t.loQ);
  }

  lemma DotNext(b: seq<int>, t: seq<int>, j: nat)
    requires |b| == |t| && j < |b|
    ensures Dot(b[..j + 1], t[..j + 1]) == Dot(b[..j], t[..j]) + b[j] * t[j]
  {
    assert b[..j + 1][..j] == b[..j] && t[..j + 1][..j] == t[..j];
  }

  /** The shipped form: one loop feeds all four accumulators. */
  method FskCore(b: seq<int>, t: Tables) returns (sum: int)
    requires t.Sized(|b|)
    ensures sum == Discriminant(b, t)
    ensures Silent(b, t.loI, t.loQ) && !Silent(b, t.hiI, t.hiQ) ==> sum > 0
    ensures Silent(b, t.hiI, t.hiQ) && !Silent(b, t.loI, t.loQ) ==> sum < 0
  {
    ToneDecides(b, t);
    hide Dot, Silent;
    var c0, c1, c2, c3 := 0, 0, 0, 0;
    DotEmpty();
    var j := 0;
    while j < |b|
      invariant 0 <= j <= |b|
      invariant c0 == Dot(b[..j], t.hiI[..j]) && c1 == Dot(b[..j], t.hiQ[..j])
      invariant c2 == Dot(b[..j], t.loI[..j]) && c3 == Dot(b[..j], t.loQ[..j])
    {
      DotNext(b, t.hiI, j);
      DotNext(b, t.hiQ, j);
      DotNext(b, t.loI, j);
      DotNext(b, t.loQ, j);
      c0 := c0 + b[j] * t.hiI[j];
      c1 := c1 + b[j] * t.hiQ[j];
      c2 := c2 + b[j] * t.loI[j];
      c3 := c3 + b[j] * t.loQ[j];
      j := j + 1;
    }
    assert b[..|b|] == b && t.hiI[..|b|] == t.hiI && t.hiQ[..|b|] == t.hiQ;
    assert t.loI[..|b|] == t.loI && t.loQ[..|b|] == t.loQ;
    c0 := c0 / COS_BASE;
    c1 := c1 / COS_BASE;
    c2 := c2 / COS_BASE;
    c3 := c3 / COS_BASE;
    sum := c0 * c0;
    sum := sum + c1 * c1;
    sum := sum - c2 * c2;
    sum := sum - c3 * c3;
  }

  lemma DotEmpty()
    ensures forall b: seq<int>, t: seq<int> :: Dot(b[..0], t[..0]) == 0
  {
  }

  method Correlate(b: seq<int>, t: seq<int>) returns (energy: int)
    requires |b| == |t|
    ensures energy == Energy(b, t)
  {
    hide Dot;
    var corr := 0;
    DotEmpty();
    var j := 0;
    while j < |b|
      invariant 0 <= j <= |b| && corr == Dot(b[..j], t[..j])
    {
      DotNext(b, t, j);
      corr := corr + b[j] * t[j];
      j := j + 1;
    }
    assert b[..|b|] == b && t[..|b|] == t;
    corr := corr / COS_BASE;
    energy := corr * corr;
  }

  /** The compiled-out form: four passes over the window. */
  method FskCoreSeparate(b: seq<int>, t: Tables) returns (sum: int)
    requires t.Sized(|b|)
    ensures sum == Discriminant(b, t)
    ensures Silent(b, t.loI, t.loQ) && !Silent(b, t.hiI, t.hiQ) ==> sum > 0
    ensures Silent(b, t.hiI, t.hiQ) && !Silent(b, t.loI, t.loQ) ==> sum < 0
  {
    ToneDecides(b, t);
    hide Energy, Silent;
    var e := Correlate(b, t.hiI);
    sum := e;
    e := Correlate(b, t.hiQ);
    sum := sum + e;
    e := Correlate(b, t.loI);
    sum := sum - e;
    e := Correlate(b, t.loQ);
    sum := sum - e;
  }

  // ---- the two tones, as the shipped tables hear them ----

  /** The tables for 12500 Hz and 8666 Hz at 74957 samples a second. */
  const CHIBI_TABLES := Tables(
    [16384, 8183, -8209, -16383, -8157, 8234, 16383, 8132, -8260],
    [0, 14193, 14179, -29, -14208, -14164, 59, 14223, 14149],
    [16384, 12248, 1928, -9365, -15930, -14452, -5677, 5963, 14593],
    [0, 10882, 16270, 13443, 3829, -7717, -15368, -15260, -7447])

  lemma {:induction false} DotConcat(a: seq<int>, s: seq<int>, b: seq<int>, t: seq<int>)
    requires |a| == |s| && |b| == |t|
    ensures Dot(a + b, s + t) == Dot(a, s) + Dot(b, t)
    decreases |b|
  {
    if b == [] {
      assert a + b == a && s + t == s;
    } else {
      var n := |b| - 1;
      assert (a + b)[..|a + b| - 1] == a + b[..n] && (s + t)[..|a + b| - 1] == s + t[..n];
      DotConcat(a, s, b[..n], t[..n]);
    }
  }

  lemma DotThree(b: seq<int>, t: seq<int>)
    requires |b| == |t| == 3
    ensures Dot(b, t) == b[0] * t[0] + b[1] * t[1] + b[2] * t[2]
  {
    hide Dot;
    DotEmpty();
    DotNext(b, t, 0);
    DotNext(b, t, 1);
    DotNext(b, t, 2);
    assert b[..3] == b && t[..3] == t;
  }

  lemma DotNine(b: seq<int>, t: seq<int>)
    requires |b| == |t| == 9
    ensures Dot(b, t) == b[0] * t[0] + b[1] * t[1] + b[2] * t[2] + b[3] * t[3] + b[4] * t[4]
                         + b[5] * t[5] + b[6] * t[6] + b[7] * t[7] + b[8] * t[8]
  {
    hide Dot;
    assert b == b[..3] + (b[3..6] + b[6..]) && t == t[..3] + (t[3..6] + t[6..]);
    DotConcat(b[..3], t[..3], b[3..6] + b[6..], t[3..6] + t[6..]);
    DotConcat(b[3..6], t[3..6], b[6..], t[6..]);
    DotThree(b[..3], t[..3]);
    DotThree(b[3..6], t[3..6]);
    DotThree(b[6..], t[6..]);
  }

  /** A window of the high tone gives a positive sum. */
  lemma HighToneHeard()
    ensures Discriminant([250, 124, -126, -250, -125, 125, 249, 124, -126], CHIBI_TABLES) == 761412
  {
    hide Dot;
    var b := [250, 124, -126, -250, -125, 125, 249, 124, -126];
    DotNine(b, CHIBI_TABLES.hiI);
    DotNine(b, CHIBI_TABLES.hiQ);
    DotNine(b, CHIBI_TABLES.loI);
    DotNine(b, CHIBI_TABLES.loQ);
  }

  /** A window of the low tone gives a negative one. */
  lemma LowToneHeard()
    ensures Discriminant([250, 186, 29, -142, -243, -220, -86, 90, 222], CHIBI_TABLES) == -515715
  {
    hide Dot;
    var b := [250, 186, 29, -142, -243, -220, -86, 90, 222];
    DotNine(b, CHIBI_TABLES.hiI);
    DotNine(b, CHIBI_TABLES.hiQ);
    DotNine(b, CHIBI_TABLES.loI);
    DotNine(b, CHIBI_TABLES.loQ);
  }

  // ---- the scaling shift ----

  /** `shift` drops just enough bits for a window of `size` samples. */
  ghost predicate ScalesFor(size: nat, shift: int) {
    -1 <= shift && Pow2(shift + 1) <= size < Pow2(shift + 2)
  }

  lemma HalveStep(size: nat, k: nat, a: nat)
    requires Pow2(k) * a <= size < Pow2(k) * (a + 1)
    ensures Pow2(k + 1) * (a / 2) <= size < Pow2(k + 1) * (a / 2 + 1)
  {
    var h := a / 2;
    assert Pow2(k + 1) * h == Pow2(k) * (2 * h) && Pow2(k + 1) * (h + 1) == Pow2(k) * (2 * h + 2);
    Scale(Pow2(k), 2 * h, a);
    Scale(Pow2(k), a + 1, 2 * h + 2);
  }

  lemma Scale(p: nat, a: nat, b: nat)
    requires a <= b
    ensures p * a <= p * b
  {
  }

  method ComputeShift(size: nat) returns (shift: int)
    requires size >= 1
    ensures ScalesFor(size, shift)
  {
    hide Pow2;
    shift := -2;
    var a := size;
    Pow2Zero();
    while a != 0
      invariant -2 <= shift
      invariant Pow2(shift + 2) * a <= size < Pow2(shift + 2) * (a + 1)
      invariant shift >= -1 ==> Pow2(shift + 1) <= size
      invariant shift == -2 ==> a == size
      decreases a
    {
      HalveStep(size, shift + 2, a);
      Scale(Pow2(shift + 2), 1, a);
      shift := shift + 1;
      a := a / 2;
    }
  }

  lemma Pow2Zero()
    ensures Pow2(0) == 1
  {
  }

  // ---- 32 bits are enough ----

  lemma SarBound(x: int, s: nat)
    requires s <= 11 && -2048 <= x < 2048
    ensures 0 - Pow2(11 - s) <= Sar(x, s) < Pow2(11 - s)
  {
    Pow2Sum(11 - s, s);
    assert Pow2(11) == 2048 by { Pow2Eleven(); }
    Pow2Positive(s);
    DivBound(x, Pow2(s), Pow2(11 - s));
  }

  lemma Pow2Eleven()
    ensures Pow2(11) == 2048 && Pow2(13) == 8192
  {
    assert Pow2(3) == 8;
    assert Pow2(6) == 64;
    assert Pow2(9) == 512;
    assert Pow2(12) == 4096;
  }

  lemma DivBound(x: int, p: nat, m: nat)
    requires p > 0 && -(m * p) <= x < m * p
    ensures 0 - m <= x / p < m
  {
    var q := x / p;
    assert p * q <= x < p * q + p;
    MulLess(p, 0 - m, q + 1);
    MulLess(p, q, m);
  }

  lemma MulLess(p: nat, a: int, b: int)
    requires p > 0 && p * a < p * b
    ensures a < b
  {
  }

  lemma ProductBound(x: int, y: int, m: nat, n: nat)
    requires 0 - m <= x <= m && 0 - n <= y <= n
    ensures -(m * n) <= x * y <= m * n
  {
    assert (m - x) * (n - y) >= 0 && (m + x) * (n + y) >= 0 && (m - x) * (n + y) >= 0 && (m + x) * (n - y) >= 0;
    assert (m - x) * (n - y) == m * n - m * y - x * n + x * y;
    assert (m + x) * (n + y) == m * n + m * y + x * n + x * y;
    assert (m - x) * (n + y) == m * n + m * y - x * n - x * y;
    assert (m + x) * (n - y) == m * n - m * y + x * n - x * y;
  }

  /** Every partial sum of a correlation is bounded by its number of terms. */
  lemma {:induction false} DotBound(b: seq<int>, t: seq<int>, m: nat)
    requires |b| == |t|
    requires forall i :: 0 <= i < |b| ==> 0 - m <= b[i] <= m && -COS_BASE <= t[i] <= COS_BASE
    ensures -(|b| * (m * COS_BASE)) <= Dot(b, t) <= |b| * (m * COS_BASE)
  {
    if b != [] {
      var n := |b| - 1;
      DotBound(b[..n], t[..n], m);
      ProductBound(b[n], t[n], m, COS_BASE);
      assert |b| * (m * COS_BASE) == n * (m * COS_BASE) + m * COS_BASE;
    }
  }

  ghost predicate ScaledValue(v: int, shift: nat) {
    exists x :: -2048 <= x < 2048 && v == Sar(x, shift)
  }

  /** A window of scaled 12-bit samples. */
  ghost predicate ScaledWindow(b: seq<int>, shift: nat) {
    forall i :: 0 <= i < |b| ==> ScaledValue(b[i], shift)
  }

  ghost predicate Coefficients(t: seq<int>) {
    forall i :: 0 <= i < |t| ==> -COS_BASE <= t[i] <= COS_BASE
  }

  /** No partial correlation ever exceeds 2^27, for every window size the shift was computed for. */
  lemma PartialSumsFit(b: seq<int>, t: seq<int>, shift: nat, j: nat)
    requires |b| == |t| < 8192 && ScalesFor(|b|, shift) && ScaledWindow(b, shift) && Coefficients(t) && j <= |b|
    ensures -0x800_0000 <= Dot(b[..j], t[..j]) <= 0x800_0000
  {
    hide Dot, Pow2;
    ShiftLimit(|b|, shift);
    var m := Pow2(11 - shift);
    forall i | 0 <= i < j ensures 0 - m <= b[..j][i] <= m {
      assert ScaledValue(b[i], shift);
      var x :| -2048 <= x < 2048 && b[i] == Sar(x, shift);
      SarBound(x, shift);
    }
    DotBound(b[..j], t[..j], m);
    Pow2Sum(shift + 2, 11 - shift);
    Pow2Eleven();
    Scale(m, j, Pow2(shift + 2));
    assert j * (m * COS_BASE) == (m * j) * COS_BASE;
  }

  lemma ShiftLimit(size: nat, shift: nat)
    requires size < 8192 && ScalesFor(size, shift)
    ensures shift <= 11
  {
    if shift >= 12 {
      Pow2Monotone(13, shift + 1);
      Pow2Eleven();
    }
  }

  lemma EnergyFits(b: seq<int>, t: seq<int>, shift: nat)
    requires |b| == |t| < 8192 && ScalesFor(|b|, shift) && ScaledWindow(b, shift) && Coefficients(t)
    ensures 0 <= Energy(b, t) <= 0x400_0000
  {
    hide Dot, Pow2, ScalesFor, ScaledWindow, Coefficients;
    PartialSumsFit(b, t, shift, |b|);
    assert b[..|b|] == b && t[..|t|] == t;
    var c := Dot(b, t) / COS_BASE;
    ProductBound(c, c, 8192, 8192);
    assert c * c >= 0;
  }

  /** Every intermediate value of the discriminant fits a signed 32-bit integer. */
  lemma DiscriminantFits(b: seq<int>, t: Tables, shift: nat)
    requires t.Sized(|b|) && |b| < 8192 && ScalesFor(|b|, shift) && ScaledWindow(b, shift)
    requires Coefficients(t.hiI) && Coefficients(t.hiQ) && Coefficients(t.loI) && Coefficients(t.loQ)
    ensures var e0, e1, e2, e3 := Energy(b, t.hiI), Energy(b, t.hiQ), Energy(b, t.loI), Energy(b, t.loQ);
      && 0 <= e0 <= INT32_MAX && 0 <= e0 + e1 <= INT32_MAX
      && -INT32_MAX <= e0 + e1 - e2 <= INT32_MAX && -INT32_MAX <= Discriminant(b, t) <= INT32_MAX
  {
    hide Energy, ScalesFor, ScaledWindow, Coefficients;
    EnergyFits(b, t.hiI, shift);
    EnergyFits(b, t.hiQ, shift);
    EnergyFits(b, t.loI, shift);
    EnergyFits(b, t.loQ, shift);
  }
}
