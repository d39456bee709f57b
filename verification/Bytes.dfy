/** Bytes, little-endian words and the few bit-vector facts the other modules use. */
module Bytes {

  type byte = bv8

  const BLANK_BYTE: byte := 0xFF
  const BLANK_WORD: bv32 := 0xFFFF_FFFF

  function LE16(b0: byte, b1: byte): bv16 {
    (b0 as bv16) | ((b1 as bv16) << 8)
  }

  /** Bytes read as a little-endian number. */
  function LE(s: seq<byte>): bv32 {
    if s == [] then 0 else (s[0] as bv32) | (LE(s[1..]) << 8)
  }

  function LE32(b0: byte, b1: byte, b2: byte, b3: byte): bv32 {
    (b0 as bv32) | ((b1 as bv32) << 8) | ((b2 as bv32) << 16) | ((b3 as bv32) << 24)
  }

  /** The word a 32-bit load at offset `a` returns. */
  function Word(m: seq<byte>, a: nat): bv32
    requires a + 4 <= |m|
  {
    LE(m[a..a + 4])
  }

  /** Up to four bytes read as a number, padded with zeros. */
  lemma LEPadded(s: seq<byte>)
    requires |s| <= 4
    ensures LE(s) == LE32(if |s| > 0 then s[0] else 0, if |s| > 1 then s[1] else 0,
                          if |s| > 2 then s[2] else 0, if |s| > 3 then s[3] else 0)
  {
    if s != [] {
      LEPadded(s[1..]);
      ShiftIn(s[0], if |s| > 1 then s[1] else 0, if |s| > 2 then s[2] else 0, if |s| > 3 then s[3] else 0);
    }
  }

  lemma ShiftIn(b0: byte, b1: byte, b2: byte, b3: byte)
    ensures (b0 as bv32) | (LE32(b1, b2, b3, 0) << 8) == LE32(b0, b1, b2, b3)
  {
  }

  function Unsigned(w: bv32): (n: nat)
    ensures n < 0x1_0000_0000
  {
    w as nat
  }

  /** The four bytes a 32-bit store writes. */
  function Split32(w: bv32): (s: seq<byte>)
    ensures |s| == 4
  {
    [(w & 0xFF) as byte, ((w >> 8) & 0xFF) as byte, ((w >> 16) & 0xFF) as byte, (w >> 24) as byte]
  }

  lemma WordOfSplit(w: bv32)
    ensures LE(Split32(w)) == w
  {
    LEPadded(Split32(w));
  }

  predicate Blank(m: seq<byte>, lo: nat, hi: nat)
    requires hi <= |m|
  {
    forall i :: lo <= i < hi ==> m[i] == BLANK_BYTE
  }

  ghost predicate SameOn(m: seq<byte>, m': seq<byte>, lo: nat, hi: nat)
    requires hi <= |m| && hi <= |m'|
  {
    forall i :: lo <= i < hi ==> m[i] == m'[i]
  }

  lemma LE32Injective(a0: byte, a1: byte, a2: byte, a3: byte, b0: byte, b1: byte, b2: byte, b3: byte)
    requires LE32(a0, a1, a2, a3) == LE32(b0, b1, b2, b3)
    ensures a0 == b0 && a1 == b1 && a2 == b2 && a3 == b3
  {
  }

  /** Equally many bytes are equal when they read as the same number. */
  lemma LEInjective(s: seq<byte>, t: seq<byte>)
    requires |s| == |t| <= 4 && LE(s) == LE(t)
    ensures s == t
  {
    hide LE, LE32;
    LEPadded(s);
    LEPadded(t);
    LE32Injective(if |s| > 0 then s[0] else 0, if |s| > 1 then s[1] else 0,
                  if |s| > 2 then s[2] else 0, if |s| > 3 then s[3] else 0,
                  if |t| > 0 then t[0] else 0, if |t| > 1 then t[1] else 0,
                  if |t| > 2 then t[2] else 0, if |t| > 3 then t[3] else 0);
    assert forall i :: 0 <= i < |s| ==> s[i] == t[i];
  }

  /** A stored word reads as all ones exactly when its four bytes are erased. */
  lemma WordBlank(m: seq<byte>, a: nat)
    requires a + 4 <= |m|
    ensures Word(m, a) == BLANK_WORD <==> Blank(m, a, a + 4)
  {
    var ones: seq<byte> := [0xFF, 0xFF, 0xFF, 0xFF];
    assert LE(ones) == BLANK_WORD by { LEPadded(ones); }
    hide LE;
    if Word(m, a) == BLANK_WORD {
      LEInjective(m[a..a + 4], ones);
      forall i | a <= i < a + 4 ensures m[i] == BLANK_BYTE { assert m[i] == m[a..a + 4][i - a]; }
    }
    assert Blank(m, a, a + 4) ==> m[a..a + 4] == ones;
  }

  lemma WordSame(m: seq<byte>, m': seq<byte>, a: nat)
    requires a + 4 <= |m| && a + 4 <= |m'|
    requires SameOn(m, m', a, a + 4)
    ensures Word(m, a) == Word(m', a)
  {
    assert m[a..a + 4] == m'[a..a + 4];
  }

  // ---- words as numbers ----

  lemma Halfword(hi: byte, lo: byte)
    ensures (((hi as bv16) << 8) | (lo as bv16)) as nat == 0x100 * (hi as nat) + (lo as nat)
  {
  }

  lemma Fullword(hi: bv16, lo: bv16)
    ensures (((hi as bv32) << 16) | (lo as bv32)) as nat == 0x1_0000 * (hi as nat) + (lo as nat)
  {
  }

  /** Two bytes weigh 1 and 256. */
  lemma LE16Value(b0: byte, b1: byte)
    ensures LE16(b0, b1) as nat == 0x100 * (b1 as nat) + (b0 as nat)
  {
    Halfword(b1, b0);
    assert LE16(b0, b1) == ((b1 as bv16) << 8) | (b0 as bv16);
  }

  lemma TwoHalfwords(b0: byte, b1: byte, b2: byte, b3: byte)
    ensures LE32(b0, b1, b2, b3) == ((LE16(b2, b3) as bv32) << 16) | (LE16(b0, b1) as bv32)
  {
  }

  /** Four bytes weigh 1, 2^8, 2^16 and 2^24. */
  lemma LE32Value(b0: byte, b1: byte, b2: byte, b3: byte)
    ensures Unsigned(LE32(b0, b1, b2, b3))
      == (b0 as nat) + 0x100 * (b1 as nat) + 0x1_0000 * (b2 as nat) + 0x100_0000 * (b3 as nat)
  {
    hide LE32, LE16;
    TwoHalfwords(b0, b1, b2, b3);
    Fullword(LE16(b2, b3), LE16(b0, b1));
    LE16Value(b0, b1);
    LE16Value(b2, b3);
  }

  lemma NextByte(v: byte)
    requires v != 0xFF
    ensures (v + 1) as nat == v as nat + 1
  {
  }

  lemma SameByte(n: nat, v: byte)
    requires v as nat == n
    ensures n as byte == v
  {
  }

  /** A number below 2^8 survives the trip through a byte. */
  lemma {:induction false} ByteValue(n: nat)
    requires n < 0x100
    ensures (n as byte) as nat == n
  {
    if n > 0 {
      ByteValue(n - 1);
      var v := (n - 1) as byte;
      NextByte(v);
      SameByte(n, v + 1);
    }
  }

  lemma SameValue(n: nat, w: bv32)
    requires Unsigned(w) == n
    ensures n as bv32 == w
  {
  }

  /** A number below 2^32 survives the trip through a 32-bit word. */
  lemma WordValue(n: nat)
    requires n < 0x1_0000_0000
    ensures Unsigned(n as bv32) == n
  {
    hide LE32, Unsigned;
    var n1, n2, n3 := n / 0x100, n / 0x1_0000, n / 0x100_0000;
    ByteValue(n % 0x100);
    ByteValue(n1 % 0x100);
    ByteValue(n2 % 0x100);
    ByteValue(n3);
    var b0, b1, b2, b3 := (n % 0x100) as byte, (n1 % 0x100) as byte, (n2 % 0x100) as byte, n3 as byte;
    LE32Value(b0, b1, b2, b3);
    BaseBytes(n);
    SameValue(n, LE32(b0, b1, b2, b3));
  }

  lemma BaseBytes(n: nat)
    ensures n == n % 0x100 + 0x100 * (n / 0x100 % 0x100) + 0x1_0000 * (n / 0x1_0000 % 0x100)
                 + 0x100_0000 * (n / 0x100_0000)
  {
    assert n / 0x1_0000 == n / 0x100 / 0x100;
    assert n / 0x100_0000 == n / 0x1_0000 / 0x100;
  }
}
