/** MurmurHash3 x86_32: the word loop, its meaning as a fold, and the corruption it always detects. */
module Murmur3 {
  import opened Bytes


  /** 32-bit multiplication, wrapping. */
  function Mul(x: bv32, y: bv32): bv32 {
    x * y
  }

  function Rotl32(x: bv32, r: nat): bv32
    requires 0 < r < 32
  {
    (x << r) | (x >> (32 - r))
  }

  function Xor(x: bv32, y: bv32): bv32 {
    x ^ y
  }

  function Shr(x: bv32, r: nat): bv32
    requires r < 32
  {
    x >> r
  }

  function XorShift(x: bv32, r: nat): bv32
    requires r < 32
  {
    Xor(x, Shr(x, r))
  }

  function FMix32(h: bv32): bv32 {
    XorShift(Mul(XorShift(Mul(XorShift(h, 16), 0x85ebca6b), 13), 0xc2b2ae35), 16)
  }

  function Scramble(k: bv32): bv32 {
    Mul(Rotl32(Mul(k, 0xcc9e2d51), 15), 0x1b873593)
  }

  function Round(h: bv32, k: bv32): bv32 {
    Mul(Rotl32(Xor(h, Scramble(k)), 13), 5) + 0xe6546b64
  }

  /** The hash state after absorbing `data`: whole words first, then the leftover bytes if any. */
  function Fold(data: seq<byte>, h: bv32): bv32 {
    if |data| >= 4 then Fold(data[4..], Round(h, Word(data, 0)))
    else if |data| == 0 then h
    else Xor(h, Scramble(LE(data)))
  }

  function LengthWord(n: nat): bv32 {
    (n % 0x1_0000_0000) as bv32
  }

  function Hash(data: seq<byte>, seed: bv32): bv32 {
    FMix32(Xor(Fold(data, seed), LengthWord(|data|)))
  }

  /** The word loop indexes backwards from the end of the last whole word, with a negative index. */
  method MurmurHash3(key: seq<byte>, seed: bv32) returns (out: bv32)
    requires |key| < 0x8000_0000
    ensures out == Hash(key, seed)
  {
    hide Mul, Rotl32, Xor, XorShift, Word, LE, LengthWord;
    var len := |key|;
    var nblocks := len / 4;
    var h1 := seed;
    var i: int := -nblocks;
    while i != 0
      invariant -nblocks <= i <= 0
      invariant Fold(key[4 * (nblocks + i)..], h1) == Fold(key, seed)
      decreases -i
    {
      ghost var rest := key[4 * (nblocks + i)..];
      var k1 := Word(key, 4 * nblocks + 4 * i);
      WordSlice(key, 4 * (nblocks + i));
      assert rest[4..] == key[4 * (nblocks + i + 1)..];
      k1 := Mul(k1, 0xcc9e2d51);
      k1 := Rotl32(k1, 15);
      k1 := Mul(k1, 0x1b873593);
      h1 := Xor(h1, k1);
      h1 := Rotl32(h1, 13);
      h1 := Mul(h1, 5) + 0xe6546b64;
      i := i + 1;
    }
    var tail := key[4 * nblocks..];
    var k1 := TailBytes(tail);
    if len % 4 != 0 {
      k1 := Mul(k1, 0xcc9e2d51);
      k1 := Rotl32(k1, 15);
      k1 := Mul(k1, 0x1b873593);
      h1 := Xor(h1, k1);
    }
    h1 := Xor(h1, LengthWord(len));
    h1 := XorShift(h1, 16);
    h1 := Mul(h1, 0x85ebca6b);
    h1 := XorShift(h1, 13);
    h1 := Mul(h1, 0xc2b2ae35);
    out := XorShift(h1, 16);
  }

  /** The switch on the number of leftover bytes falls through from case 3 to case 1. */
  method TailBytes(tail: seq<byte>) returns (k1: bv32)
    requires |tail| < 4
    ensures k1 == LE(tail)
  {
    k1 := 0;
    LEPadded(tail);
    if |tail| == 3 {
      k1 := k1 ^ ((tail[2] as bv32) << 16);
    }
    if |tail| >= 2 {
      k1 := k1 ^ ((tail[1] as bv32) << 8);
    }
    if |tail| >= 1 {
      k1 := k1 ^ (tail[0] as bv32);
    }
  }

  lemma WordSlice(m: seq<byte>, a: nat)
    requires a + 4 <= |m|
    ensures Word(m[a..], 0) == Word(m, a)
  {
    assert m[a..][0..4] == m[a..a + 4];
  }

  // ---- every stage is a bijection on 32 bits ----

  lemma MulUnfold(x: bv32, a: bv32)
    ensures Mul(x, a) == x * a
  {
  }

  lemma MulCancels(x: bv32, a: bv32, b: bv32)
    requires a * b == 1
    ensures Mul(x * a, b) == x
  {
    assert (x * a) * b == x * (a * b);
  }

  lemma MulInverse(x: bv32, a: bv32, b: bv32)
    requires a * b == 1
    ensures Mul(Mul(x, a), b) == x
  {
    hide *;
    MulUnfold(x, a);
    MulCancels(x, a, b);
  }

  lemma RotationsUndone(x: bv32)
    ensures (((x << 15) | (x >> 17)) << 17) | (((x << 15) | (x >> 17)) >> 15) == x
    ensures (((x << 13) | (x >> 19)) << 19) | (((x << 13) | (x >> 19)) >> 13) == x
  {
  }

  lemma RotlInverses(x: bv32)
    ensures Rotl32(Rotl32(x, 15), 17) == x
    ensures Rotl32(Rotl32(x, 13), 19) == x
  {
    RotationsUndone(x);
    assert Rotl32(x, 15) == (x << 15) | (x >> 17) && Rotl32(x, 13) == (x << 13) | (x >> 19);
  }

  lemma XorInjective(x: bv32, y: bv32, z: bv32)
    ensures Xor(x, y) == Xor(x, z) ==> y == z
    ensures Xor(y, x) == Xor(z, x) ==> y == z
  {
  }

  lemma XorTwice(x: bv32, y: bv32)
    ensures Xor(Xor(x, y), y) == x
  {
  }

  lemma XorAssociative(x: bv32, y: bv32, z: bv32)
    ensures Xor(x, Xor(y, z)) == Xor(Xor(x, y), z)
  {
  }

  lemma Shr16(x: bv32)
    ensures Shr(Xor(x, Shr(x, 16)), 16) == Shr(x, 16)
  {
    assert Shr(x, 16) == x >> 16;
  }

  lemma Shr13(x: bv32)
    ensures Shr(Xor(x, Shr(x, 13)), 13) == Xor(Shr(x, 13), Shr(x, 26))
  {
    assert Shr(x, 13) == x >> 13;
  }

  lemma Shr26(x: bv32)
    ensures Shr(Xor(x, Shr(x, 13)), 26) == Shr(x, 26)
  {
    assert Shr(x, 13) == x >> 13;
  }

  function Unshift16(y: bv32): bv32 {
    XorShift(y, 16)
  }

  function Unshift13(y: bv32): bv32 {
    Xor(Xor(y, Shr(y, 13)), Shr(y, 26))
  }

  lemma XorShiftInverses(x: bv32)
    ensures Unshift16(XorShift(x, 16)) == x
    ensures Unshift13(XorShift(x, 13)) == x
  {
    hide Xor, Shr;
    Shr16(x);
    Shr13(x);
    Shr26(x);
    XorTwice(x, Shr(x, 16));
    XorAssociative(XorShift(x, 13), Shr(x, 13), Shr(x, 26));
    XorTwice(x, Shr(x, 13));
    XorTwice(x, Shr(x, 26));
  }

  function Unscramble(y: bv32): bv32 {
    Mul(Rotl32(Mul(y, 0x56ed309b), 17), 0xdee13bb1)
  }

  lemma UnscrambleScramble(k: bv32)
    ensures Unscramble(Scramble(k)) == k
  {
    hide Mul, Rotl32;
    var a := Mul(k, 0xcc9e2d51);
    MulInverse(Rotl32(a, 15), 0x1b873593, 0x56ed309b);
    RotlInverses(a);
    MulInverse(k, 0xcc9e2d51, 0xdee13bb1);
  }

  /** The xor of state and scrambled word inside a round, recovered from the round's result. */
  function Unround(y: bv32): bv32 {
    Rotl32(Mul(y - 0xe6546b64, 0xcccccccd), 19)
  }

  lemma UnroundRound(h: bv32, k: bv32)
    ensures Unround(Round(h, k)) == Xor(h, Scramble(k))
  {
    hide Mul, Rotl32, Xor, Scramble;
    var x := Xor(h, Scramble(k));
    var r := Rotl32(x, 13);
    assert (Mul(r, 5) + 0xe6546b64) - 0xe6546b64 == Mul(r, 5);
    MulInverse(r, 5, 0xcccccccd);
    RotlInverses(x);
  }

  /** A round loses nothing: it is injective in the state for a fixed word, and in the word for a fixed state. */
  lemma RoundInjective(h: bv32, k: bv32, h': bv32, k': bv32)
    requires h == h' || k == k'
    ensures Round(h, k) == Round(h', k') <==> h == h' && k == k'
  {
    hide *;
    if Round(h, k) == Round(h', k') {
      UnroundRound(h, k);
      UnroundRound(h', k');
      if h == h' {
        XorInjective(h, Scramble(k), Scramble(k'));
        UnscrambleScramble(k);
        UnscrambleScramble(k');
      } else {
        XorInjective(Scramble(k), h, h');
      }
    }
  }

  function FMix32Inverse(y: bv32): bv32 {
    Unshift16(Mul(Unshift13(Mul(Unshift16(y), 0x7ed1b41d)), 0xa5cb9243))
  }

  lemma FMix32Bijective(h: bv32)
    ensures FMix32Inverse(FMix32(h)) == h
  {
    hide Mul, XorShift, Unshift16, Unshift13;
    var b := XorShift(h, 16);
    var h1 := Mul(b, 0x85ebca6b);
    var a := XorShift(h1, 13);
    var h2 := Mul(a, 0xc2b2ae35);
    XorShiftInverses(h2);
    MulInverse(a, 0xc2b2ae35, 0x7ed1b41d);
    XorShiftInverses(h1);
    MulInverse(b, 0x85ebca6b, 0xa5cb9243);
    XorShiftInverses(h);
  }

  lemma {:induction false} FoldInjectiveInState(data: seq<byte>, h: bv32, h': bv32)
    requires h != h'
    ensures Fold(data, h) != Fold(data, h')
    decreases |data|
  {
    hide Round, Word, Scramble, LE, Xor;
    if |data| >= 4 {
      RoundInjective(h, Word(data, 0), h', Word(data, 0));
      FoldInjectiveInState(data[4..], Round(h, Word(data, 0)), Round(h', Word(data, 0)));
    } else if |data| > 0 {
      XorInjective(Scramble(LE(data)), h, h');
    }
  }

  /** `a` and `b` agree everywhere except possibly inside aligned word `j` (a short last word counts). */
  ghost predicate AgreeOutsideWord(a: seq<byte>, b: seq<byte>, j: nat) {
    && |a| == |b|
    && forall i :: 0 <= i < |a| && i / 4 != j ==> a[i] == b[i]
  }

  lemma WordsDiffer(a: seq<byte>, b: seq<byte>)
    requires |a| >= 4 && |b| >= 4 && a[4..] == b[4..] && Word(a, 0) == Word(b, 0)
    ensures a == b
  {
    LEInjective(a[0..4], b[0..4]);
    assert a == a[0..4] + a[4..] && b == b[0..4] + b[4..];
  }

  lemma AgreeTail(a: seq<byte>, b: seq<byte>, j: nat)
    requires AgreeOutsideWord(a, b, j) && |a| >= 4 && a != b
    ensures j == 0 ==> a[4..] == b[4..]
    ensures j > 0 ==> AgreeOutsideWord(a[4..], b[4..], j - 1) && a[4..] != b[4..] && a[..4] == b[..4]
  {
    forall i | 0 <= i < |a| - 4 && i / 4 + 1 != j ensures a[4..][i] == b[4..][i] { assert (i + 4) / 4 == i / 4 + 1; }
    assert a == a[..4] + a[4..] && b == b[..4] + b[4..];
    if j > 0 {
      assert a[..4] == b[..4];
    }
  }

  lemma FirstWordSame(a: seq<byte>, b: seq<byte>)
    requires |a| >= 4 && |b| >= 4 && a[..4] == b[..4]
    ensures Word(a, 0) == Word(b, 0)
  {
    assert a[0..4] == a[..4] && b[0..4] == b[..4];
  }

  lemma {:induction false} FoldSeparates(a: seq<byte>, b: seq<byte>, j: nat, h: bv32)
    requires AgreeOutsideWord(a, b, j) && a != b
    ensures Fold(a, h) != Fold(b, h)
    decreases |a|
  {
    hide Round, Word, Scramble, LE, Xor;
    if |a| < 4 {
      if Fold(a, h) == Fold(b, h) {
        XorInjective(h, Scramble(LE(a)), Scramble(LE(b)));
        UnscrambleScramble(LE(a));
        UnscrambleScramble(LE(b));
        LEInjective(a, b);
      }
    } else {
      AgreeTail(a, b, j);
      if j == 0 {
        if Word(a, 0) == Word(b, 0) {
          WordsDiffer(a, b);
        }
        RoundInjective(h, Word(a, 0), h, Word(b, 0));
        FoldInjectiveInState(a[4..], Round(h, Word(a, 0)), Round(h, Word(b, 0)));
      } else {
        FirstWordSame(a, b);
        FoldSeparates(a[4..], b[4..], j - 1, Round(h, Word(a, 0)));
      }
    }
  }

  /** One corrupted word, or corrupted leftover bytes, always change the hash. */
  lemma OneWordCorruptionIsCaught(a: seq<byte>, b: seq<byte>, j: nat, seed: bv32)
    requires AgreeOutsideWord(a, b, j)
    ensures Hash(a, seed) == Hash(b, seed) <==> a == b
  {
    hide Fold, FMix32, LengthWord, Xor;
    if a != b {
      FoldSeparates(a, b, j, seed);
      var x, y := Xor(Fold(a, seed), LengthWord(|a|)), Xor(Fold(b, seed), LengthWord(|b|));
      XorInjective(LengthWord(|a|), Fold(a, seed), Fold(b, seed));
      FMix32Bijective(x);
      FMix32Bijective(y);
    }
  }

  // ---- the function it is: published values, and the length counts ----

  lemma FMix32Values()
    ensures FMix32(0x0000_0001) == 0x514e28b7 && FMix32(0xec90_0b62) == 0xa0f7b07a
    ensures FMix32(0x17a6_636d) == 0x7e4a8634 && FMix32(0xbb09_5db0) == 0xf55b516b
  {
  }

  lemma ScrambleValues()
    ensures Scramble(0x0000_0000) == 0 && Scramble(0x0000_4321) == 0xec90_0b60
    ensures Scramble(0x0065_4321) == 0x17a6_636e && Scramble(0x8765_4321) == 0x5082_edee
  {
  }

  lemma RoundValue()
    ensures Xor(0, 0x5082_edee) == 0x5082_edee
    ensures Mul(Rotl32(0x5082_edee, 13), 5) + 0xe6546b64 == 0xbb09_5db4
  {
  }

  lemma XorValues()
    ensures Xor(0, 0) == 0 && Xor(0, 0xec90_0b60) == 0xec90_0b60 && Xor(0, 0x17a6_636e) == 0x17a6_636e
    ensures Xor(0, 1) == 1 && Xor(0xec90_0b60, 2) == 0xec90_0b62
    ensures Xor(0x17a6_636e, 3) == 0x17a6_636d && Xor(0xbb09_5db4, 4) == 0xbb09_5db0
  {
  }

  lemma LengthValues()
    ensures LengthWord(1) == 1 && LengthWord(2) == 2 && LengthWord(3) == 3 && LengthWord(4) == 4
  {
    SameValue(1, 1);
    SameValue(2, 2);
    SameValue(3, 3);
    SameValue(4, 4);
  }

  lemma WordValues()
    ensures LE32(0x00, 0, 0, 0) == 0 && LE32(0x21, 0x43, 0, 0) == 0x0000_4321
    ensures LE32(0x21, 0x43, 0x65, 0) == 0x0065_4321 && LE32(0x21, 0x43, 0x65, 0x87) == 0x8765_4321
  {
  }

  lemma ShortHash(data: seq<byte>, w: bv32)
    requires 0 < |data| < 4 && LE(data) == w
    ensures Hash(data, 0) == FMix32(Xor(Xor(0, Scramble(w)), LengthWord(|data|)))
  {
    hide LE, FMix32, Scramble, Xor, LengthWord;
  }

  lemma OneWordHash(data: seq<byte>, w: bv32)
    requires |data| == 4 && LE(data) == w
    ensures Hash(data, 0) == FMix32(Xor(Round(0, w), LengthWord(4)))
  {
    hide LE, FMix32, Xor, Round, LengthWord;
    assert data[0..4] == data && data[4..] == [];
    assert Word(data, 0) == w;
    assert Fold(data, 0) == Fold(data[4..], Round(0, w));
    assert Fold([], Round(0, w)) == Round(0, w);
  }

  /** Published values of MurmurHash3 x86_32, for every length of the leftover bytes. */
  lemma PublishedValues()
    ensures Hash([0], 0) == 0x514e28b7
    ensures Hash([0x21, 0x43], 0) == 0xa0f7b07a
    ensures Hash([0x21, 0x43, 0x65], 0) == 0x7e4a8634
    ensures Hash([0x21, 0x43, 0x65, 0x87], 0) == 0xf55b516b
  {
    ScrambleValues();
    RoundValue();
    XorValues();
    LengthValues();
    WordValues();
    FMix32Values();
    hide LE, LE32, FMix32, Scramble, Xor, LengthWord, Hash, Mul, Rotl32;
    LEPadded([0]);
    LEPadded([0x21, 0x43]);
    LEPadded([0x21, 0x43, 0x65]);
    LEPadded([0x21, 0x43, 0x65, 0x87]);
    ShortHash([0], 0);
    ShortHash([0x21, 0x43], 0x4321);
    ShortHash([0x21, 0x43, 0x65], 0x65_4321);
    OneWordHash([0x21, 0x43, 0x65, 0x87], 0x8765_4321);
  }

  lemma HelloRounds()
    ensures Round(0x9747_b28c, 0x6c6c_6548) == 0xdae4_c92e
    ensures Round(0xdae4_c92e, 0x7720_2c6f) == 0x71c6_b43c
    ensures Round(0x71c6_b43c, 0x646c_726f) == 0x3bd6_92af
    ensures Xor(Xor(0x3bd6_92af, Scramble(0x21)), 13) == 0x9788_c381
    ensures FMix32(0x9788_c381) == 0x2488_4cba
  {
  }

  lemma HelloWords()
    ensures LE32(0x48, 0x65, 0x6c, 0x6c) == 0x6c6c_6548 && LE32(0x6f, 0x2c, 0x20, 0x77) == 0x7720_2c6f
    ensures LE32(0x6f, 0x72, 0x6c, 0x64) == 0x646c_726f && LE32(0x21, 0, 0, 0) == 0x21 && LengthWord(13) == 13
  {
    SameValue(13, 13);
  }

  lemma FoldWord(data: seq<byte>, w: seq<byte>, rest: seq<byte>, h: bv32)
    requires |w| == 4 && data == w + rest
    ensures Fold(data, h) == Fold(rest, Round(h, LE32(w[0], w[1], w[2], w[3])))
  {
    hide LE, LE32, Round;
    assert data[0..4] == w && data[4..] == rest;
    LEPadded(w);
  }

  /** Three words, a leftover byte and a seed: the greeting "Hello, world!". */
  lemma PublishedGreeting()
    ensures Hash([0x48, 0x65, 0x6c, 0x6c, 0x6f, 0x2c, 0x20, 0x77, 0x6f, 0x72, 0x6c, 0x64, 0x21], 0x9747_b28c)
      == 0x2488_4cba
  {
    HelloRounds();
    HelloWords();
    hide LE, LE32, FMix32, Scramble, Xor, LengthWord, Round;
    var a, b, c, t: seq<byte> := [0x48, 0x65, 0x6c, 0x6c], [0x6f, 0x2c, 0x20, 0x77], [0x6f, 0x72, 0x6c, 0x64], [0x21];
    assert [0x48, 0x65, 0x6c, 0x6c, 0x6f, 0x2c, 0x20, 0x77, 0x6f, 0x72, 0x6c, 0x64, 0x21] == a + (b + (c + t));
    FoldWord(a + (b + (c + t)), a, b + (c + t), 0x9747_b28c);
    FoldWord(b + (c + t), b, c + t, 0xdae4_c92e);
    FoldWord(c + t, c, t, 0x71c6_b43c);
    LEPadded(t);
  }

  lemma LengthsDiffer(n: nat)
    ensures LengthWord(n) != LengthWord(n + 1)
  {
    WordValue(n % 0x1_0000_0000);
    WordValue((n + 1) % 0x1_0000_0000);
    assert n % 0x1_0000_0000 != (n + 1) % 0x1_0000_0000;
  }

  lemma ScrambleZero()
    ensures Scramble(0) == 0
  {
  }

  lemma XorZero(x: bv32)
    ensures Xor(x, 0) == x
  {
  }

  /** A zero byte after the leftover bytes changes nothing in the fold, unless it completes a word. */
  lemma {:induction false} FoldIgnoresZero(data: seq<byte>, h: bv32)
    requires |data| % 4 != 3
    ensures Fold(data + [0], h) == Fold(data, h)
    decreases |data|
  {
    var longer := data + [0];
    if |data| >= 4 {
      hide Round, LE, Xor, Scramble;
      assert longer[4..] == data[4..] + [0] && longer[0..4] == data[0..4];
      FoldIgnoresZero(data[4..], Round(h, Word(data, 0)));
    } else {
      hide Round, LE, LE32, Xor, Scramble;
      LEPadded(data);
      LEPadded(longer);
      ScrambleZero();
      XorZero(h);
      assert LE32(0, 0, 0, 0) == 0 by { WordValues(); }
    }
  }

  /** The length counts: a zero byte more, or less, at the end is always caught when it does not complete a word. */
  lemma TrailingZeroIsCaught(data: seq<byte>, seed: bv32)
    requires |data| % 4 != 3
    ensures Hash(data + [0], seed) != Hash(data, seed)
  {
    hide Fold, FMix32, LengthWord, Xor;
    FoldIgnoresZero(data, seed);
    LengthsDiffer(|data|);
    XorInjective(Fold(data, seed), LengthWord(|data|), LengthWord(|data| + 1));
    FMix32Bijective(Xor(Fold(data, seed), LengthWord(|data|)));
    FMix32Bijective(Xor(Fold(data, seed), LengthWord(|data| + 1)));
  }
}
