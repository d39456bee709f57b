/**
 The framer's rejections: nothing but a whole frame is ever reported, and whatever is not one lets go of the line
 when it should.
 */
module Reception {
  import opened Bytes
  import opened Protocol
  import opened Mac
  import opened Frame

  // ---- what the framer has heard ----

  ghost predicate EndsWith(h: seq<bool>, s: seq<bool>) {
    |s| <= |h| && h[|h| - |s|..] == s
  }

  /** The first bytes of a frame on the air: 32 zeros, then `s`. */
  function OnAir(s: seq<byte>): seq<bool> {
    Zeros(32) + AllBits(s)
  }

  /** The bits in the byte register are the last ones heard, and before them came `OnAir(s)`. */
  ghost predicate InByte(f: Framer, h: seq<bool>, s: seq<byte>) {
    var k := 8 - f.bitpos;
    && 0 <= k <= |h|
    && f.curbyte == ShiftAll(0x00, h[|h| - k..])
    && EndsWith(h[..|h| - k], OnAir(s))
  }

  /** `h` is what the framer must have heard to be where it is. */
  ghost predicate Trail(f: Framer, h: seq<bool>)
    requires Valid(f)
  {
    match f.mstate
    case MacIdle => EndsWith(h, Zeros(f.idleZeros))
    case MacSync => InByte(f, h, f.sync[..f.syncCount])
    case MacPacket =>
      && InByte(f, h, [SYNC_0, SYNC_1, SYNC_2] + f.pkt[..f.pktRead])
      && (f.pktLen != 0 ==> f.pktRead >= 3 && Framable(f.pkt) && f.pktLen == WireLength(f.pkt))
  }

  lemma ByteOfBits(s: seq<bool>)
    requires |s| == 8
    ensures Bits(ShiftAll(0x00, s)) == s
  {
    hide *;
    ShiftEight(0x00, s);
    ShiftSnoc(0x00, s, 7);
    assert s[..8] == s;
    EightBits(s[0], s[1], s[2], s[3], s[4], s[5], s[6], s[7]);
    SpellOut(s);
  }

  lemma SpellOut(s: seq<bool>)
    requires |s| == 8
    ensures s == [s[0], s[1], s[2], s[3], s[4], s[5], s[6], s[7]]
  {
  }

  lemma EightBits(s0: bool, s1: bool, s2: bool, s3: bool, s4: bool, s5: bool, s6: bool, s7: bool)
    ensures Bits(Shift(Shift(Shift(Shift(Shift(Shift(Shift(Shift(0x00, s0), s1), s2), s3), s4), s5), s6), s7))
      == [s0, s1, s2, s3, s4, s5, s6, s7]
  {
  }

  /** One more bit in the register. */
  lemma NextBit(f: Framer, h: seq<bool>, s: seq<byte>, bit: bool)
    requires InByte(f, h, s) && 1 <= f.bitpos <= 8
    ensures var g := f.(curbyte := Shift(f.curbyte, bit), bitpos := f.bitpos - 1); InByte(g, h + [bit], s)
  {
    hide Shift, OnAir;
    var k := 8 - f.bitpos;
    var t := h[|h| - k..];
    var h' := h + [bit];
    assert h'[|h'| - (k + 1)..] == t + [bit] && h'[..|h'| - (k + 1)] == h[..|h| - k];
    ShiftSnoc(0x00, t + [bit], k);
    assert (t + [bit])[..k] == t && (t + [bit])[..k + 1] == t + [bit];
  }

  /** A full register is one more byte of the frame. */
  lemma FullByte(f: Framer, h: seq<bool>, s: seq<byte>)
    requires InByte(f, h, s) && f.bitpos == 0
    ensures EndsWith(h, OnAir(s + [f.curbyte]))
  {
    hide Bits, ShiftAll;
    var a, t := h[..|h| - 8], h[|h| - 8..];
    ByteOfBits(t);
    AllBitsConcat(s, [f.curbyte]);
    AllBitsOne(f.curbyte);
    assert OnAir(s + [f.curbyte]) == OnAir(s) + t;
    assert h == a + t;
  }

  lemma EmptyRegister(f: Framer, h: seq<bool>, s: seq<byte>)
    requires EndsWith(h, OnAir(s)) && f.bitpos == 8 && f.curbyte == 0
    ensures InByte(f, h, s)
  {
    assert h[..|h|] == h;
  }

  lemma AnyEnd(h: seq<bool>)
    ensures EndsWith(h, Zeros(0))
  {
  }

  // ---- every step keeps the trail ----

  lemma TrailIdle(f: Framer, h: seq<bool>, bit: bool)
    requires Valid(f) && f.mstate == MacIdle && Trail(f, h)
    ensures Trail(StepIdle(f, bit), h + [bit])
  {
    hide EndsWith;
    var n := f.idleZeros;
    if bit {
      AnyEnd(h + [bit]);
      if n > 32 {
        SyncStarts(h, n);
      }
    } else {
      OneMoreZero(h, n);
    }
  }

  lemma OneMoreZero(h: seq<bool>, n: nat)
    requires EndsWith(h, Zeros(n))
    ensures EndsWith(h + [false], Zeros(n)) && EndsWith(h + [false], Zeros(n + 1))
  {
    var h' := h + [false];
    assert h'[|h'| - (n + 1)..] == h[|h| - n..] + [false];
    assert Zeros(n + 1) == Zeros(n) + [false];
    assert h'[|h'| - n..] == (h[|h| - n..] + [false])[1..];
  }

  /** The first one after 33 zeros: the last zero and the one are the low bits of the first sync byte. */
  lemma SyncStarts(h: seq<bool>, n: nat)
    requires EndsWith(h, Zeros(n)) && n > 32
    ensures forall f: Framer :: f.bitpos == 6 && f.curbyte == 0x80 ==> InByte(f, h + [true], [])
  {
    var h' := h + [true];
    assert forall i :: |h| - n <= i < |h| ==> !h[i] by {
      forall i | |h| - n <= i < |h| ensures !h[i] { assert h[i] == h[|h| - n..][i - (|h| - n)]; }
    }
    assert h'[|h'| - 2..] == [false, true];
    assert ShiftAll(0x00, [false, true]) == 0x80 by {
      assert [false, true][1..] == [true] && [true][1..] == [];
      assert Shift(Shift(0x00, false), true) == 0x80;
    }
    var before := h'[..|h'| - 2];
    assert before[|before| - 32..] == Zeros(32);
    assert OnAir([]) == Zeros(32);
  }

  lemma TrailSync(f: Framer, h: seq<bool>, bit: bool)
    requires Valid(f) && f.mstate == MacSync && Trail(f, h)
    ensures Trail(StepSync(f, bit), h + [bit])
  {
    hide Shift, OnAir, ShiftAll;
    var s, h' := f.sync[..f.syncCount], h + [bit];
    NextBit(f, h, s, bit);
    var g := f.(curbyte := Shift(f.curbyte, bit), bitpos := f.bitpos - 1);
    if g.bitpos == 0 {
      FullByte(g, h', s);
      if g.curbyte == 0 {
        ZeroByte(h', s);
      } else {
        TrailSyncByte(g, h');
      }
    }
  }

  lemma ZeroByte(h: seq<bool>, s: seq<byte>)
    requires EndsWith(h, OnAir(s + [0x00]))
    ensures EndsWith(h, Zeros(8))
  {
    AllBitsConcat(s, [0x00]);
    AllBitsOne(0x00);
    assert Bits(0x00) == Zeros(8);
    assert OnAir(s + [0x00]) == OnAir(s) + Zeros(8);
  }

  lemma TrailSyncByte(g: Framer, h: seq<bool>)
    requires |g.sync| == 4 && g.syncCount <= 2 && EndsWith(h, OnAir(g.sync[..g.syncCount] + [g.curbyte]))
    requires g.mstate == MacSync && Valid(SyncByte(g))
    ensures Trail(SyncByte(g), h)
  {
    hide OnAir;
    var r := SyncByte(g);
    var s := g.sync[g.syncCount := g.curbyte];
    assert s[..g.syncCount + 1] == g.sync[..g.syncCount] + [g.curbyte];
    EmptyRegister(r.(bitpos := 8, curbyte := 0), h, g.sync[..g.syncCount] + [g.curbyte]);
    AnyEnd(h);
    if r.mstate == MacPacket {
      assert g.sync[..g.syncCount] + [g.curbyte] == [SYNC_0, SYNC_1, SYNC_2] + r.pkt[..0];
    }
  }

  /** A packet bit: still a packet, dropped, or reported with its whole frame just heard. */
  lemma TrailPacket(f: Framer, h: seq<bool>, bit: bool)
    requires Valid(f) && f.mstate == MacPacket && Trail(f, h)
    ensures var g := StepPacket(f, bit);
      && Trail(g, h + [bit])
      && (g.pktReady && !f.pktReady ==> Framable(g.pkt) && EndsWith(h + [bit], AirFrame(g.pkt)))
  {
    hide Shift, OnAir, ShiftAll, AirFrame, LoadBit;
    AnyEnd(h + [bit]);
    var undecided := f.pktLen == 0 && f.pktRead > HEADER_SIZE;
    var len := if undecided then HeaderVerdict(f.pkt) else f.pktLen;
    if !(undecided && len == 0) {
      var f1 := f.(pktLen := len);
      TrailLoad(f1, h, bit);
      var g := LoadBit(f1, bit);
      if len != 0 && g.pktRead >= len {
        FrameComplete(g, h + [bit], len);
      }
    }
  }

  lemma TrailLoad(f: Framer, h: seq<bool>, bit: bool)
    requires 1 <= f.bitpos <= 8 && f.pktRead < PACKET_SIZE
    requires InByte(f, h, [SYNC_0, SYNC_1, SYNC_2] + f.pkt[..f.pktRead])
    requires f.pktLen != 0 ==> f.pktRead >= 3 && Framable(f.pkt) && f.pktLen == WireLength(f.pkt)
    ensures var g := LoadBit(f, bit);
      && InByte(g, h + [bit], [SYNC_0, SYNC_1, SYNC_2] + g.pkt[..g.pktRead])
      && (g.pktLen != 0 ==> g.pktRead >= 3 && Framable(g.pkt) && g.pktLen == WireLength(g.pkt))
      && g.pktLen == f.pktLen && g.mstate == f.mstate && g.pktReady == f.pktReady
      && f.pktRead <= g.pktRead <= f.pktRead + 1 && (g.pktRead > f.pktRead ==> g.bitpos == 8)
  {
    hide Shift, OnAir, ShiftAll, InByte;
    var sync := [SYNC_0, SYNC_1, SYNC_2];
    var s := sync + f.pkt[..f.pktRead];
    NextBit(f, h, s, bit);
    var cur := Shift(f.curbyte, bit);
    if f.bitpos == 1 {
      var full := f.(curbyte := cur, bitpos := 0);
      FullByte(full, h + [bit], s);
      var g := LoadBit(f, bit);
      assert sync + g.pkt[..g.pktRead] == s + [cur];
      EmptyRegister(g, h + [bit], s + [cur]);
    }
  }

  lemma FrameComplete(g: Framer, h: seq<bool>, len: nat)
    requires g.pktRead == len == WireLength(g.pkt) && g.bitpos == 8
    requires InByte(g, h, [SYNC_0, SYNC_1, SYNC_2] + g.pkt[..g.pktRead])
    ensures EndsWith(h, AirFrame(g.pkt))
  {
    hide AllBits;
    assert h[..|h|] == h;
  }

  lemma TrailStep(f: Framer, h: seq<bool>, bit: bool)
    requires Valid(f) && Trail(f, h)
    ensures var g := MacStep(f, bit);
      && Trail(g, h + [bit])
      && (g.pktReady && !f.pktReady ==> Framable(g.pkt) && EndsWith(h + [bit], AirFrame(g.pkt)))
  {
    hide StepIdle, StepSync, StepPacket, Trail, EndsWith, AirFrame;
    match f.mstate {
      case MacIdle => TrailIdle(f, h, bit);
      case MacSync => TrailSync(f, h, bit);
      case MacPacket => TrailPacket(f, h, bit);
    }
  }

  /** A framer that looks for the start of a frame afresh, with nothing waiting. */
  ghost predicate Afresh(f: Framer) {
    Valid(f) && f.mstate == MacIdle && f.idleZeros == 0 && !f.pktReady
  }

  lemma {:induction false} TrailRun(f: Framer, bits: seq<bool>)
    requires Afresh(f)
    ensures Trail(MacRun(f, bits), bits)
    decreases |bits|
  {
    hide MacRun, MacStep, Trail, EndsWith;
    if bits == [] {
      TrailStart(f);
    } else {
      var n := |bits| - 1;
      TrailRun(f, bits[..n]);
      LastBit(f, bits);
      TrailStep(MacRun(f, bits[..n]), bits[..n], bits[n]);
    }
  }

  lemma TrailStart(f: Framer)
    requires Afresh(f)
    ensures Trail(MacRun(f, []), [])
  {
    AnyEnd([]);
  }

  lemma LastBit(f: Framer, bits: seq<bool>)
    requires Valid(f) && bits != []
    ensures var n := |bits| - 1;
      bits == bits[..n] + [bits[n]] && MacRun(f, bits) == MacStep(MacRun(f, bits[..n]), bits[n])
  {
    hide MacRun, MacStep, Valid, Quiet;
    var n := |bits| - 1;
    MacRunConcat(f, bits[..n], [bits[n]]);
    OneBit(MacRun(f, bits[..n]), bits[n]);
  }

  /**
   Nothing but a whole frame is reported: whatever bits arrive, if the last of them makes the framer report a
   packet, the packet is of a known version and type and the bits just heard are that packet's frame, preamble
   and sync word included.
   */
  lemma ReportedWasFramed(f: Framer, bits: seq<bool>)
    requires Afresh(f) && bits != []
    requires MacRun(f, bits).pktReady && !MacRun(f, bits[..|bits| - 1]).pktReady
    ensures var w := MacRun(f, bits).pkt;
      Framable(w) && |AirFrame(w)| <= |bits| && bits[|bits| - |AirFrame(w)|..] == AirFrame(w)
  {
    hide MacRun, MacStep, Trail, AirFrame;
    var n := |bits| - 1;
    TrailRun(f, bits[..n]);
    LastBit(f, bits);
    TrailStep(MacRun(f, bits[..n]), bits[..n], bits[n]);
  }

  // ---- letting go ----

  /**
   A packet of another version or type is dropped with the first bit after its third byte: the framer looks for
   a frame afresh, and the mailbox flag is as it was.
   */
  lemma ForeignPacketDropped(f: Framer, g: Framer, s: seq<byte>, bit: bool)
    requires AtPacketStart(f, g) && |s| == 3
    requires !((s[0] == VER_1 || s[0] == VER_2) && (s[1] == TYPE_CTRL || s[1] == TYPE_DATA))
    ensures var r := MacRun(g, Bits(s[0]) + (Bits(s[1]) + (Bits(s[2]) + [bit])));
      r.mstate == MacIdle && r.idleZeros == 0 && r.pktReady == f.pktReady
  {
    hide Bits, MacRun, MacStep;
    FeedPacketByte(g, s[0]);
    var g1 := PacketByte(g, s[0]);
    FeedPacketByte(g1, s[1]);
    var g2 := PacketByte(g1, s[1]);
    FeedPacketByte(g2, s[2]);
    var g3 := PacketByte(g2, s[2]);
    DropsNow(g3, bit);
    OneBit(g3, bit);
    MacRunConcat(g, Bits(s[0]), Bits(s[1]) + (Bits(s[2]) + [bit]));
    MacRunConcat(g1, Bits(s[1]), Bits(s[2]) + [bit]);
    MacRunConcat(g2, Bits(s[2]), [bit]);
  }

  lemma DropsNow(g: Framer, bit: bool)
    requires Valid(g) && g.mstate == MacPacket && g.pktLen == 0 && g.pktRead == 3 && HeaderVerdict(g.pkt) == 0
    ensures MacStep(g, bit) == MakeIdle(g)
  {
    hide Shift;
  }

  /** The eight zeros of a sync byte that turns out to be idle line count towards the next preamble. */
  lemma FalseStartCounts(f: Framer, w: Packet)
    requires Valid(f) && f.mstate == MacSync && f.bitpos == 8 && Framable(w)
    ensures var g := MacRun(f, Zeros(8) + ShortFrame(24, w));
      g.mstate == MacIdle && g.pktReady && g.pkt[..WireLength(w)] == w[..WireLength(w)]
  {
    hide MacRun, ShortFrame, Quiet, MacStep;
    IdleByte(f);
    var g := MacRun(f, Zeros(8));
    MacRunConcat(f, Zeros(8), ShortFrame(24, w));
    ShortFrameReceived(g, 24, w);
  }

  lemma IdleByte(f: Framer)
    requires Valid(f) && f.mstate == MacSync && f.bitpos == 8
    ensures var g := MacRun(f, Zeros(8));
      g.mstate == MacIdle && g.idleZeros == 8 && g.pktReady == f.pktReady
  {
    assert Bits(0x00) == Zeros(8);
    var s := Zeros(8);
    ShiftByte(f.curbyte, 0x00);
    hide Shift, Bits, MacRun, ShiftAll;
    FeedSyncBits(f, s[..7]);
    var g := MacRun(f, s[..7]);
    OneBit(g, false);
    assert s == s[..7] + [s[7]];
    MacRunConcat(f, s[..7], [false]);
  }
}
