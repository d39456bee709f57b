/** The bounded random numbers of the Arduino layer: a hash-driven generator and rejection into equal bins. */
module Random {
  import opened Bytes
  import Murmur3

  const MAX_TRIES := 100
  const RAND_MAX := 2147483647
  const NUM_RAND := RAND_MAX + 1

  const WRAP := 0x1_0000_0000_0000_0000

  /** 64 bits; only their wrapping sum and their bytes matter, not the sign. */
  type State = v: nat | v < WRAP

  /** The state as the hash sees it: two little-endian words, the low one first. */
  function StateBytes(v: State): (s: seq<byte>)
    ensures |s| == 8
  {
    Split32((v % 0x1_0000_0000) as bv32) + Split32((v / 0x1_0000_0000) as bv32)
  }

  function Value(v: State): bv32 {
    Murmur3.Hash(StateBytes(v), 0)
  }

  /** add_entropy: 64-bit, wrapping. */
  function AddEntropy(v: State, val: bv32): State {
    (v + Unsigned(val)) % WRAP
  }

  function Advance(v: State): State {
    AddEntropy(v, Value(v))
  }

  /** The generator's state after `n` draws. */
  function After(v: State, n: nat): State {
    if n == 0 then v else Advance(After(v, n - 1))
  }

  /** Draw number `n`, as an unsigned 32-bit number. */
  function Draw(v: State, n: nat): nat {
    Unsigned(Value(After(v, n)))
  }

  /** The hash is given every bit of the state. */
  lemma StateBytesTell(v: State)
    ensures Unsigned(Word(StateBytes(v), 0)) + 0x1_0000_0000 * Unsigned(Word(StateBytes(v), 4)) == v
  {
    hide Split32, LE, Unsigned;
    var lo, hi := v % 0x1_0000_0000, v / 0x1_0000_0000;
    var s := StateBytes(v);
    assert s[0..4] == Split32(lo as bv32) && s[4..8] == Split32(hi as bv32);
    WordOfSplit(lo as bv32);
    WordOfSplit(hi as bv32);
    WordValue(lo);
    WordValue(hi);
  }

  /** All that the first `n` draws amount to. */
  function Drawn(v: State, n: nat): nat {
    if n == 0 then 0 else Drawn(v, n - 1) + Draw(v, n - 1)
  }

  /** Every draw is fed back: the state has moved by the sum of all values drawn. */
  lemma {:induction false} StateAccumulates(v: State, n: nat)
    ensures After(v, n) == (v + Drawn(v, n)) % WRAP
  {
    hide Value, Unsigned;
    if n > 0 {
      StateAccumulates(v, n - 1);
      ModAdd(v + Drawn(v, n - 1), Draw(v, n - 1));
    }
  }

  lemma ModAdd(a: nat, b: nat)
    ensures (a % WRAP + b) % WRAP == (a + b) % WRAP
  {
    var q := a / WRAP;
    assert a == WRAP * q + a % WRAP;
    ModShift(a % WRAP + b, q);
  }

  lemma ModShift(x: nat, q: nat)
    ensures (WRAP * q + x) % WRAP == x % WRAP
  {
    var y := x / WRAP;
    var r := x % WRAP;
    assert x == WRAP * y + r;
    assert WRAP * q + x == WRAP * (q + y) + r;
    ModUnique(WRAP * q + x, q + y, r);
  }

  lemma ModUnique(x: nat, q: nat, r: nat)
    requires x == WRAP * q + r && r < WRAP
    ensures x % WRAP == r
  {
  }

  // ---- bins ----

  function BinSize(max: nat): (b: nat)
    requires max <= RAND_MAX
    ensures b > 0
  {
    NUM_RAND / (max + 1)
  }

  /** Raw values below the limit are accepted. */
  function Limit(max: nat): int
    requires max <= RAND_MAX
  {
    NUM_RAND - NUM_RAND % (max + 1)
  }

  /** The unsigned quotient, returned as a signed 32-bit long. */
  function ToLong(n: nat): int
    requires n < 0x1_0000_0000
  {
    if n < 0x8000_0000 then n else n - 0x1_0000_0000
  }

  function Outcome(raw: nat, max: nat): int
    requires max <= RAND_MAX && raw < 0x1_0000_0000
  {
    DivShrinks(raw, BinSize(max));
    ToLong(raw / BinSize(max))
  }

  lemma DivShrinks(a: nat, b: nat)
    requires b > 0
    ensures 0 <= a / b <= a
  {
    var q := a / b;
    assert b * q <= a;
    if q > 0 {
      assert b * q >= q;
    }
  }

  // ---- the generator ----

  class Generator {
    var randVal: State

    method RealRand() returns (val: bv32)
      modifies this
      ensures val == Value(old(randVal)) && randVal == Advance(old(randVal))
    {
      hide Murmur3.Hash, StateBytes, AddEntropy;
      val := Murmur3.MurmurHash3(StateBytes(randVal), 0);
      randVal := AddEntropy(randVal, val);
    }

    /** Draws until a value is accepted, `MAX_TRIES + 1` times at most. */
    method RandomAtMost(max: nat) returns (r: int, ghost draws: nat)
      requires max <= RAND_MAX
      modifies this
      ensures 1 <= draws <= MAX_TRIES + 1
      ensures randVal == After(old(randVal), draws)
      ensures r == Outcome(Draw(old(randVal), draws - 1), max)
      ensures forall i :: 0 <= i < draws - 1 ==> Draw(old(randVal), i) >= Limit(max)
      ensures draws < MAX_TRIES + 1 ==> Draw(old(randVal), draws - 1) < Limit(max)
    {
      hide Value, Advance, Unsigned;
      ghost var v := randVal;
      var numBins := max + 1;
      var binSize := NUM_RAND / numBins;
      var defect := NUM_RAND % numBins;
      var tries := 0;
      draws := 1;
      var x := RealRand();
      assert After(v, 0) == v && After(v, 1) == Advance(v);
      var more := NUM_RAND - defect <= Unsigned(x) && tries < MAX_TRIES;
      while more
        invariant 0 <= tries <= MAX_TRIES && draws == tries + 1
        invariant randVal == After(v, draws) && Unsigned(x) == Draw(v, draws - 1)
        invariant forall i :: 0 <= i < draws - 1 ==> Draw(v, i) >= Limit(max)
        invariant more <==> Limit(max) <= Unsigned(x) && tries < MAX_TRIES
        decreases MAX_TRIES - tries
      {
        tries := tries + 1;
        draws := draws + 1;
        x := RealRand();
        more := NUM_RAND - defect <= Unsigned(x) && tries < MAX_TRIES;
      }
      DivShrinks(Unsigned(x), binSize);
      r := ToLong(Unsigned(x) / binSize);
    }
  }

  // ---- no bias ----

  lemma BinsTile(max: nat)
    requires max <= RAND_MAX
    ensures Limit(max) == BinSize(max) * (max + 1)
  {
  }

  lemma BinOf(raw: nat, b: nat, r: int)
    requires b > 0
    ensures raw / b == r <==> b * r <= raw < b * r + b
  {
    var q := raw / b;
    assert b * q <= raw < b * q + b;
    if b * r <= raw < b * r + b {
      Between(b, q, r);
      Between(b, r, q);
    }
  }

  lemma Between(b: nat, q: int, r: int)
    requires b > 0 && b * q < b * r + b
    ensures q <= r
  {
    assert b * (r + 1 - q) == b * r + b - b * q;
    PositiveFactor(b, r + 1 - q);
  }

  lemma PositiveFactor(b: nat, z: int)
    requires b * z > 0
    ensures z > 0
  {
  }

  /** The result is in range exactly when the last raw value was accepted; giving up promises nothing. */
  lemma InRangeExactlyWhenAccepted(raw: nat, max: nat)
    requires max <= RAND_MAX && raw < 0x1_0000_0000
    ensures 0 <= Outcome(raw, max) <= max <==> raw < Limit(max)
  {
    var b := BinSize(max);
    var q := raw / b;
    DivShrinks(raw, b);
    BinsTile(max);
    BinOf(raw, b, q);
    if raw < b * (max + 1) {
      Between(b, q, max);
    } else {
      Between(b, max + 1, q);
    }
  }

  /** Every outcome, accepted or not, is a signed 32-bit number congruent to the unsigned quotient. */
  lemma OutcomeIsLong(raw: nat, max: nat)
    requires max <= RAND_MAX && raw < 0x1_0000_0000
    ensures -0x8000_0000 <= Outcome(raw, max) < 0x8000_0000
    ensures Outcome(raw, max) == raw / BinSize(max) || Outcome(raw, max) == raw / BinSize(max) - 0x1_0000_0000
  {
    DivShrinks(raw, BinSize(max));
  }

  /** The accepted raw values that give result `r`. */
  function Preimage(r: nat, max: nat, upto: nat): set<nat>
    requires max <= RAND_MAX && upto <= 0x1_0000_0000
  {
    if upto == 0 then {}
    else if upto - 1 < Limit(max) && Outcome(upto - 1, max) == r then Preimage(r, max, upto - 1) + {upto - 1}
    else Preimage(r, max, upto - 1)
  }

  lemma {:induction false} PreimageIsExact(r: nat, max: nat, upto: nat)
    requires max <= RAND_MAX && upto <= 0x1_0000_0000
    ensures forall raw: nat ::
      raw in Preimage(r, max, upto) <==> raw < upto && raw < Limit(max) && Outcome(raw, max) == r
  {
    hide Outcome, Limit;
    if upto > 0 {
      PreimageIsExact(r, max, upto - 1);
    }
  }

  /** How many of the first `upto` raw values fall in bin `r`. */
  lemma {:induction false} PreimageCount(r: nat, max: nat, upto: nat)
    requires r <= max <= RAND_MAX && upto <= 0x1_0000_0000
    ensures var b := BinSize(max);
      |Preimage(r, max, upto)| == if upto <= b * r then 0 else if upto <= b * r + b then upto - b * r else b
  {
    if upto > 0 {
      PreimageCount(r, max, upto - 1);
      PreimageIsExact(r, max, upto - 1);
      InBin(upto - 1, max, r);
      hide Outcome, Limit, BinSize;
    }
  }

  lemma InBin(raw: nat, max: nat, r: nat)
    requires r <= max <= RAND_MAX && raw < 0x1_0000_0000
    ensures raw < Limit(max) && Outcome(raw, max) == r <==> BinSize(max) * r <= raw < BinSize(max) * r + BinSize(max)
  {
    var b := BinSize(max);
    BinOf(raw, b, r);
    BinsTile(max);
    LastBin(b, r, max);
    InRangeExactlyWhenAccepted(raw, max);
  }

  lemma LastBin(b: nat, r: nat, max: nat)
    requires r <= max
    ensures b * r + b <= b * (max + 1)
  {
    assert b * (max + 1) - (b * r + b) == b * (max - r);
  }

  /** Unbiased: every result in 0..max has exactly `BinSize` accepted raw values. */
  lemma BinsAreEqual(r: nat, max: nat)
    requires r <= max <= RAND_MAX
    ensures |Preimage(r, max, 0x1_0000_0000)| == BinSize(max)
  {
    PreimageCount(r, max, 0x1_0000_0000);
    BinsTile(max);
    LastBin(BinSize(max), r, max);
    hide BinSize;
  }
}
