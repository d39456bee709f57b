/**
 Framing: what a sender puts on the air for one packet, the baud striping the receiver undoes, and
 the round trip through the bit-level machine.
 */
module Frame {
  import opened Bytes
  import opened Protocol
  import opened Mac
  import Flash

  // ---- striping ----

  /** The xor pattern that keeps transitions coming, by protocol version and byte position. */
  function Mask(version: byte, i: nat): byte {
    if version == VER_1 then (if i % 16 == 7 then 0x55 else if i % 16 == 15 then 0xAA else 0x00)
    else if version == VER_2 then (if i % 3 == 0 then 0x35 else if i % 3 == 1 then 0xac else 0x95)
    else 0x00
  }

  /** Header and trailing hash stay clear, and so do control packets. */
  function Stripe(p: Packet): Packet {
    if Type(p) != TYPE_DATA then
      p
    else
      seq(PACKET_SIZE, i requires 0 <= i < PACKET_SIZE =>
        (if HEADER_SIZE <= i < PACKET_SIZE - 4 then p[i] ^ Mask(Version(p), i) else p[i]))
  }

  lemma StripeAt(p: Packet, r: Packet)
    requires Type(p) == TYPE_DATA
    requires forall i :: 0 <= i < PACKET_SIZE ==>
      r[i] == if HEADER_SIZE <= i < PACKET_SIZE - 4 then p[i] ^ Mask(p[0], i) else p[i]
    ensures r == Stripe(p)
  {
    forall i | 0 <= i < PACKET_SIZE ensures r[i] == Stripe(p)[i] {}
  }

  lemma XorTwice(x: byte, y: byte)
    ensures (x ^ y) ^ y == x
  {
  }

  /** Striping is undone by striping again. */
  lemma StripeInvolution(p: Packet)
    ensures Stripe(Stripe(p)) == p
    ensures Version(Stripe(p)) == Version(p) && Type(Stripe(p)) == Type(p)
  {
    if Type(p) == TYPE_DATA {
      var s := Stripe(p);
      hide Mask;
      forall i | 0 <= i < PACKET_SIZE ensures Stripe(s)[i] == p[i] {
        XorTwice(p[i], Mask(Version(p), i));
      }
    }
  }

  /** The wire format, byte by byte, as the two protocol versions have it. */
  lemma WireFormat(p: Packet, i: nat)
    requires i < PACKET_SIZE
    ensures var striped := Type(p) == TYPE_DATA && 2 <= i < 260;
      && (!striped ==> Stripe(p)[i] == p[i])
      && (striped && Version(p) == VER_1 ==>
            Stripe(p)[i] == if i % 16 == 7 then p[i] ^ 0x55 else if i % 16 == 15 then p[i] ^ 0xAA else p[i])
      && (striped && Version(p) == VER_2 ==> Stripe(p)[i] == p[i] ^ [0x35, 0xac, 0x95][i % 3])
      && (striped && Version(p) != VER_1 && Version(p) != VER_2 ==> Stripe(p)[i] == p[i])
  {
    StripedByte(p, i);
    MaskBytes(Version(p), i);
    hide Stripe, Mask, Version, Type;
    XorNothing(p[i]);
  }

  lemma StripedByte(p: Packet, i: nat)
    requires i < PACKET_SIZE
    ensures Stripe(p)[i] == if Type(p) == TYPE_DATA && 2 <= i < 260 then p[i] ^ Mask(Version(p), i) else p[i]
  {
    hide Mask;
  }

  lemma MaskBytes(version: byte, i: nat)
    ensures version == VER_1 ==>
      Mask(version, i) == if i % 16 == 7 then 0x55 else if i % 16 == 15 then 0xAA else 0x00
    ensures version == VER_2 ==> Mask(version, i) == [0x35, 0xac, 0x95][i % 3]
    ensures version != VER_1 && version != VER_2 ==> Mask(version, i) == 0x00
  {
  }

  lemma XorNothing(x: byte)
    ensures x ^ 0x00 == x
  {
  }

  method UnstripeByte(version: byte, i: nat, b: byte) returns (r: byte)
    ensures r == b ^ Mask(version, i)
  {
    r := b;
    if version == VER_1 {
      if i % 16 == 7 {
        r := r ^ 0x55;
      } else if i % 16 == 15 {
        r := r ^ 0xAA;
      }
    } else if version == VER_2 {
      if i % 3 == 0 {
        r := r ^ 0x35;
      } else if i % 3 == 1 {
        r := r ^ 0xac;
      } else if i % 3 == 2 {
        r := r ^ 0x95;
      }
    }
  }

  /** The receiver's in-place loop over the packet buffer. */
  method Unstripe(pkt: array<byte>)
    requires pkt.Length == PACKET_SIZE
    modifies pkt
    ensures pkt[..] == Stripe(old(pkt[..]))
  {
    hide Mask;
    ghost var was: Packet := pkt[..];
    if pkt[1] == TYPE_DATA {
      var i := HEADER_SIZE;
      while i < PACKET_SIZE - 4
        invariant HEADER_SIZE <= i <= PACKET_SIZE - 4
        invariant forall j :: HEADER_SIZE <= j < i ==> pkt[j] == old(pkt[j]) ^ Mask(old(pkt[0]), j)
        invariant forall j :: 0 <= j < PACKET_SIZE && !(HEADER_SIZE <= j < i) ==> pkt[j] == old(pkt[j])
      {
        pkt[i] := UnstripeByte(pkt[0], i, pkt[i]);
        i := i + 1;
      }
      StripeAt(was, pkt[..]);
    }
  }

  // ---- what goes on the air ----

  /** A byte, least significant bit first. */
  function Bits(b: byte): (s: seq<bool>)
    ensures |s| == 8
  {
    [b & 0x01 != 0, b & 0x02 != 0, b & 0x04 != 0, b & 0x08 != 0,
     b & 0x10 != 0, b & 0x20 != 0, b & 0x40 != 0, b & 0x80 != 0]
  }

  function AllBits(s: seq<byte>): seq<bool> {
    if s == [] then [] else Bits(s[0]) + AllBits(s[1..])
  }

  function Zeros(n: nat): seq<bool> {
    seq(n, _ => false)
  }

  /** Number of packet bytes on the air. */
  function WireLength(p: Packet): nat {
    if Type(p) == TYPE_CTRL then CTRL_LEN else DATA_LEN
  }

  /** 32 idle bits, the sync word, the packet. */
  function AirFrame(p: Packet): seq<bool> {
    Zeros(32) + AllBits([SYNC_0, SYNC_1, SYNC_2] + p[..WireLength(p)])
  }

  ghost predicate Framable(p: Packet) {
    (Version(p) == VER_1 || Version(p) == VER_2) && (Type(p) == TYPE_CTRL || Type(p) == TYPE_DATA)
  }

  /** The machine does not report a packet strictly before the last of `bits`. */
  ghost predicate Quiet(f: Framer, bits: seq<bool>)
    requires Valid(f)
  {
    forall k :: 0 <= k < |bits| ==> MacRun(f, bits[..k]).pktReady == f.pktReady
  }

  lemma QuietConcat(f: Framer, a: seq<bool>, b: seq<bool>)
    requires Valid(f) && Quiet(f, a) && MacRun(f, a).pktReady == f.pktReady && Quiet(MacRun(f, a), b)
    ensures Quiet(f, a + b)
    ensures MacRun(f, a + b) == MacRun(MacRun(f, a), b)
  {
    hide MacRun, Valid;
    MacRunConcat(f, a, b);
    forall k | 0 <= k < |a + b| ensures MacRun(f, (a + b)[..k]).pktReady == f.pktReady {
      if k < |a| {
        assert (a + b)[..k] == a[..k];
      } else {
        assert (a + b)[..k] == a + b[..k - |a|];
        MacRunConcat(f, a, b[..k - |a|]);
      }
    }
  }

  // ---- idle and sync ----

  lemma {:induction false} FeedZeros(f: Framer, n: nat)
    requires Valid(f) && f.mstate == MacIdle
    ensures MacRun(f, Zeros(n)) == f.(idleZeros := if f.idleZeros + n < 255 then f.idleZeros + n else 255)
    ensures Quiet(f, Zeros(n))
    decreases n
  {
    if n > 0 {
      var g := MacStep(f, false);
      FeedZeros(g, n - 1);
      assert Zeros(n)[1..] == Zeros(n - 1);
      assert Zeros(n) == [false] + Zeros(n - 1);
      OneBit(f, false);
      QuietConcat(f, [false], Zeros(n - 1));
    }
  }

  lemma OneBit(f: Framer, bit: bool)
    requires Valid(f)
    ensures MacRun(f, [bit]) == MacStep(f, bit) && Quiet(f, [bit])
  {
    hide MacStep, Valid;
    assert [bit][1..] == [];
    assert [bit][..0] == [];
  }

  function ShiftAll(cur: byte, bits: seq<bool>): byte
    decreases |bits|
  {
    if bits == [] then cur else ShiftAll(Shift(cur, bits[0]), bits[1..])
  }

  lemma {:induction false} ShiftSnoc(cur: byte, s: seq<bool>, j: nat)
    requires j < |s|
    ensures ShiftAll(cur, s[..j + 1]) == Shift(ShiftAll(cur, s[..j]), s[j])
    decreases |s|
  {
    hide Shift;
    if j > 0 {
      assert s[..j + 1][1..] == s[1..][..j] && s[..j][1..] == s[1..][..j - 1];
      ShiftSnoc(Shift(cur, s[0]), s[1..], j - 1);
    } else {
      assert s[..1] == [s[0]] && s[..1][1..] == [];
    }
  }

  /** Shifting in eight bits rebuilds the byte they came from. */
  lemma ShiftByte(cur: byte, b: byte)
    ensures var s := Bits(b); Shift(ShiftAll(cur, s[..7]), s[7]) == b
  {
    ShiftEight(cur, Bits(b));
    EightShifts(cur, b);
  }

  lemma ShiftEight(cur: byte, s: seq<bool>)
    requires |s| == 8
    ensures Shift(ShiftAll(cur, s[..7]), s[7])
      == Shift(Shift(Shift(Shift(Shift(Shift(Shift(Shift(cur, s[0]), s[1]), s[2]), s[3]), s[4]), s[5]), s[6]), s[7])
  {
    hide Shift;
    assert ShiftAll(cur, s[..0]) == cur;
    hide ShiftAll;
    ShiftSnoc(cur, s, 0);
    ShiftSnoc(cur, s, 1);
    ShiftSnoc(cur, s, 2);
    ShiftSnoc(cur, s, 3);
    ShiftSnoc(cur, s, 4);
    ShiftSnoc(cur, s, 5);
    ShiftSnoc(cur, s, 6);
  }

  lemma EightShifts(cur: byte, b: byte)
    ensures var s := Bits(b);
      Shift(Shift(Shift(Shift(Shift(Shift(Shift(Shift(cur, s[0]), s[1]), s[2]), s[3]), s[4]), s[5]), s[6]), s[7]) == b
  {
  }

  // ---- one byte at a time ----

  /** Fewer bits than complete the current sync byte are only shifted in. */
  lemma {:induction false} FeedSyncBits(f: Framer, bits: seq<bool>)
    requires Valid(f) && f.mstate == MacSync && |bits| < f.bitpos
    ensures MacRun(f, bits) == f.(bitpos := f.bitpos - |bits|, curbyte := ShiftAll(f.curbyte, bits))
    ensures Quiet(f, bits)
    decreases |bits|
  {
    hide Shift;
    if bits != [] {
      var g := MacStep(f, bits[0]);
      FeedSyncBits(g, bits[1..]);
      OneBit(f, bits[0]);
      assert bits == [bits[0]] + bits[1..];
      QuietConcat(f, [bits[0]], bits[1..]);
    }
  }

  /** A whole sync byte. */
  lemma FeedSyncByte(f: Framer, b: byte)
    requires Valid(f) && f.mstate == MacSync && f.bitpos == 8 && b != 0
    ensures MacRun(f, Bits(b)) == SyncByte(f.(curbyte := b, bitpos := 0)) && Quiet(f, Bits(b))
    ensures MacRun(f, Bits(b)).pktReady == f.pktReady
  {
    var s := Bits(b);
    ShiftByte(f.curbyte, b);
    hide Shift, Bits, Valid;
    FeedSyncBits(f, s[..7]);
    var g := MacRun(f, s[..7]);
    OneBit(g, s[7]);
    assert s == s[..7] + [s[7]];
    QuietConcat(f, s[..7], [s[7]]);
  }

  /** Not waiting for the header's verdict. */
  ghost predicate Settled(f: Framer) {
    f.pktLen != 0 || f.pktRead <= HEADER_SIZE
  }

  lemma {:induction false} FeedPacketBits(f: Framer, bits: seq<bool>)
    requires Valid(f) && f.mstate == MacPacket && Settled(f) && |bits| < f.bitpos
    ensures MacRun(f, bits) == f.(bitpos := f.bitpos - |bits|, curbyte := ShiftAll(f.curbyte, bits))
    ensures Quiet(f, bits)
    decreases |bits|
  {
    hide Shift;
    if bits != [] {
      var g := MacStep(f, bits[0]);
      FeedPacketBits(g, bits[1..]);
      OneBit(f, bits[0]);
      assert bits == [bits[0]] + bits[1..];
      QuietConcat(f, [bits[0]], bits[1..]);
    }
  }

  /** A whole packet byte lands in the buffer; the last one hands the packet over. */
  function PacketByte(f: Framer, b: byte): Framer
    requires f.pktRead < PACKET_SIZE
  {
    var g := f.(pkt := f.pkt[f.pktRead := b], pktRead := f.pktRead + 1, bitpos := 8, curbyte := 0);
    if g.pktLen != 0 && g.pktRead >= g.pktLen then MakeIdle(g.(pktReady := true)) else g
  }

  lemma FeedPacketByte(f: Framer, b: byte)
    requires Valid(f) && f.mstate == MacPacket && Settled(f) && f.bitpos == 8
    ensures MacRun(f, Bits(b)) == PacketByte(f, b) && Quiet(f, Bits(b))
  {
    var s := Bits(b);
    ShiftByte(f.curbyte, b);
    hide Shift, Bits;
    FeedPacketBits(f, s[..7]);
    var g := MacRun(f, s[..7]);
    OneBit(g, s[7]);
    assert s == s[..7] + [s[7]];
    QuietConcat(f, s[..7], [s[7]]);
  }

  /** The verdict on the header is taken before the fourth byte's first bit is loaded. */
  lemma FeedFourthByte(f: Framer, b: byte)
    requires Valid(f) && f.mstate == MacPacket && f.pktLen == 0 && f.pktRead == 3 && HeaderVerdict(f.pkt) != 0
    ensures var g := f.(pktLen := HeaderVerdict(f.pkt));
      MacRun(f, Bits(b)) == PacketByte(g, b) && Quiet(f, Bits(b))
  {
    hide Shift, Bits;
    var g := f.(pktLen := HeaderVerdict(f.pkt));
    var s := Bits(b);
    FeedPacketByte(g, b);
    SameFromFirstBit(f, g, s);
  }

  lemma SameFromFirstBit(f: Framer, g: Framer, s: seq<bool>)
    requires Valid(f) && Valid(g) && s != [] && MacStep(f, s[0]) == MacStep(g, s[0]) && f.pktReady == g.pktReady
    ensures MacRun(f, s) == MacRun(g, s)
    ensures Quiet(g, s) ==> Quiet(f, s)
  {
    hide MacStep, Valid;
    forall k | 0 <= k < |s| ensures k > 0 ==> MacRun(f, s[..k]) == MacRun(g, s[..k]) {}
  }

  // ---- the preamble ----

  /** After sync: waiting for the first packet byte. */
  ghost predicate AtPacketStart(f: Framer, g: Framer) {
    && g.mstate == MacPacket && g.bitpos == 8 && g.curbyte == 0 && g.pktLen == 0 && g.pktRead == 0
    && g.pkt == f.pkt && g.pktReady == f.pktReady && |g.sync| == 4
  }

  lemma FirstSyncByte()
    ensures Bits(SYNC_0)[..2] == [false, true]
    ensures ShiftAll(0x80, Bits(SYNC_0)[2..7]) == ShiftAll(0x00, Bits(SYNC_0)[..7])
  {
    var s := Bits(SYNC_0);
    var t := s[..7];
    assert t[1..][1..] == s[2..7];
    assert Shift(Shift(0x00, false), true) == 0x80;
  }

  /**
   The frame's 33rd zero is the low bit of the first sync byte; the next bit starts the sync state
   with a byte register seeded as if both had been shifted in.
   */
  lemma FeedFirstSync(f: Framer)
    requires Valid(f) && f.mstate == MacIdle && f.idleZeros > 32
    ensures var g := MacRun(f, Bits(SYNC_0)[1..]);
      && Valid(g) && g.mstate == MacSync && g.syncCount == 1 && g.sync[0] == SYNC_0 && g.bitpos == 8
      && g.pkt == f.pkt && g.pktReady == f.pktReady
    ensures Quiet(f, Bits(SYNC_0)[1..])
  {
    var s := Bits(SYNC_0);
    FirstSyncByte();
    ShiftByte(0x00, SYNC_0);
    assert s[1];
    hide Shift, Bits, ShiftAll;
    var f1 := MacStep(f, true);
    OneBit(f, true);
    FeedSyncBits(f1, s[2..7]);
    var f2 := MacRun(f1, s[2..7]);
    OneBit(f2, s[7]);
    QuietConcat(f1, s[2..7], [s[7]]);
    QuietConcat(f, [true], s[2..7] + [s[7]]);
    assert s[1..] == [true] + (s[2..7] + [s[7]]);
  }

  /** `n` zeros and the sync word. */
  function Preamble(n: nat): seq<bool> {
    Zeros(n) + (Bits(SYNC_0) + (Bits(SYNC_1) + Bits(SYNC_2)))
  }

  lemma PreambleSplit(n: nat)
    ensures Preamble(n) == Zeros(n + 1) + (Bits(SYNC_0)[1..] + (Bits(SYNC_1) + Bits(SYNC_2)))
  {
    assert !Bits(SYNC_0)[0];
    hide Bits;
    assert Zeros(n + 1) == Zeros(n) + [false];
    assert Bits(SYNC_0) == [false] + Bits(SYNC_0)[1..];
  }

  /** Zeros heard before count. */
  lemma FeedPreamble(f: Framer, n: nat)
    requires Valid(f) && f.mstate == MacIdle && f.idleZeros + n >= 32
    ensures AtPacketStart(f, MacRun(f, Preamble(n))) && Quiet(f, Preamble(n))
  {
    hide Bits, MacStep, MacRun, Preamble;
    FeedZeros(f, n + 1);
    var f1 := MacRun(f, Zeros(n + 1));
    FeedFirstSync(f1);
    var f2 := MacRun(f1, Bits(SYNC_0)[1..]);
    FeedSyncByte(f2, SYNC_1);
    var f3 := MacRun(f2, Bits(SYNC_1));
    FeedSyncByte(f3, SYNC_2);
    QuietConcat(f2, Bits(SYNC_1), Bits(SYNC_2));
    QuietConcat(f1, Bits(SYNC_0)[1..], Bits(SYNC_1) + Bits(SYNC_2));
    QuietConcat(f, Zeros(n + 1), Bits(SYNC_0)[1..] + (Bits(SYNC_1) + Bits(SYNC_2)));
    PreambleSplit(n);
  }

  // ---- the packet ----

  lemma {:induction false} AllBitsConcat(a: seq<byte>, b: seq<byte>)
    ensures AllBits(a + b) == AllBits(a) + AllBits(b)
    decreases |a|
  {
    hide Bits;
    if a == [] {
      assert a + b == b;
    } else {
      assert (a + b)[0] == a[0] && (a + b)[1..] == a[1..] + b;
      AllBitsConcat(a[1..], b);
    }
  }

  lemma AllBitsOne(b: byte)
    ensures AllBits([b]) == Bits(b)
  {
    assert [b][1..] == [];
  }

  /** The machine after `k` of the packet's bytes. */
  function Loaded(g: Framer, w: Packet, k: nat): Framer
    requires k <= WireLength(w)
  {
    var h := g.(pktRead := k, pktLen := if k <= 3 then 0 else WireLength(w), pkt := w[..k] + g.pkt[k..]);
    if k == WireLength(w) then MakeIdle(h.(pktReady := true)) else h
  }

  lemma LoadedNext(f: Framer, g: Framer, w: Packet, k: nat)
    requires AtPacketStart(f, g) && Framable(w) && k < WireLength(w)
    ensures var a := Loaded(g, w, k);
      && Valid(a) && MacRun(a, Bits(w[k])) == Loaded(g, w, k + 1) && Quiet(a, Bits(w[k]))
  {
    hide Bits, MacRun;
    var a := Loaded(g, w, k);
    assert a.pkt[k := w[k]] == w[..k + 1] + g.pkt[k + 1..];
    if k == 3 {
      assert a.pkt[0] == w[0] && a.pkt[1] == w[1];
      FeedFourthByte(a, w[k]);
    } else {
      FeedPacketByte(a, w[k]);
    }
  }

  lemma {:induction false} FeedPacket(f: Framer, g: Framer, w: Packet, k: nat)
    requires AtPacketStart(f, g) && Valid(g) && Framable(w) && k <= WireLength(w)
    ensures MacRun(g, AllBits(w[..k])) == Loaded(g, w, k) && Quiet(g, AllBits(w[..k]))
  {
    hide Bits, Valid;
    if k == 0 {
      assert w[..0] + g.pkt[0..] == g.pkt;
    } else {
      FeedPacket(f, g, w, k - 1);
      LoadedNext(f, g, w, k - 1);
      assert w[..k] == w[..k - 1] + [w[k - 1]];
      AllBitsConcat(w[..k - 1], [w[k - 1]]);
      AllBitsOne(w[k - 1]);
      QuietConcat(g, AllBits(w[..k - 1]), Bits(w[k - 1]));
    }
  }

  /** A frame whose preamble has only `n` zeros. */
  function ShortFrame(n: nat, p: Packet): seq<bool> {
    Zeros(n) + AllBits([SYNC_0, SYNC_1, SYNC_2] + p[..WireLength(p)])
  }

  lemma FrameSplit(n: nat, w: Packet)
    ensures ShortFrame(n, w) == Preamble(n) + AllBits(w[..WireLength(w)])
  {
    hide Bits;
    var sync := [SYNC_0, SYNC_1, SYNC_2];
    var body := w[..WireLength(w)];
    AllBitsConcat(sync, body);
    assert sync == [SYNC_0] + ([SYNC_1] + [SYNC_2]);
    AllBitsConcat([SYNC_0], [SYNC_1] + [SYNC_2]);
    AllBitsConcat([SYNC_1], [SYNC_2]);
    AllBitsOne(SYNC_0);
    AllBitsOne(SYNC_1);
    AllBitsOne(SYNC_2);
    assert ShortFrame(n, w) == Zeros(n) + (AllBits(sync) + AllBits(body));
  }

  /**
   A frame from any idle state is received bit for bit, and reported on its very last bit, as soon as its
   zeros and those just heard make 32.
   */
  lemma ShortFrameReceived(f: Framer, n: nat, w: Packet)
    requires Valid(f) && f.mstate == MacIdle && f.idleZeros + n >= 32 && Framable(w)
    ensures var g := MacRun(f, ShortFrame(n, w));
      && g.mstate == MacIdle && g.pktReady
      && g.pkt == w[..WireLength(w)] + f.pkt[WireLength(w)..]
    ensures Quiet(f, ShortFrame(n, w))
  {
    hide MacRun, Preamble, AllBits, ShortFrame;
    FeedPreamble(f, n);
    var g := MacRun(f, Preamble(n));
    FeedPacket(f, g, w, WireLength(w));
    QuietConcat(f, Preamble(n), AllBits(w[..WireLength(w)]));
    FrameSplit(n, w);
  }

  lemma FrameReceived(f: Framer, w: Packet)
    requires Valid(f) && f.mstate == MacIdle && Framable(w)
    ensures var g := MacRun(f, AirFrame(w));
      && g.mstate == MacIdle && g.pktReady
      && g.pkt == w[..WireLength(w)] + f.pkt[WireLength(w)..]
    ensures Quiet(f, AirFrame(w))
  {
    hide MacRun, AllBits;
    ShortFrameReceived(f, 32, w);
  }

  /**
   Round trip: sending the striped packet and unstriping what the machine collected gives back every
   byte of the packet, over any stale buffer contents.
   */
  lemma FrameRoundTrip(f: Framer, p: Packet)
    requires Valid(f) && f.mstate == MacIdle && Framable(p)
    ensures var g := MacRun(f, AirFrame(Stripe(p)));
      g.mstate == MacIdle && g.pktReady && Stripe(g.pkt)[..WireLength(p)] == p[..WireLength(p)]
    ensures Quiet(f, AirFrame(Stripe(p)))
  {
    hide MacRun, AirFrame, Quiet;
    var w := Stripe(p);
    StripeInvolution(p);
    FrameReceived(f, w);
    var g := MacRun(f, AirFrame(w));
    if Type(p) == TYPE_CTRL {
      assert g.pkt[1] == TYPE_CTRL;
    } else {
      assert g.pkt == w;
    }
  }

  /** What the updater does with a received frame is what it does with the packet that was sent. */
  lemma ReceivedPacketActsAsSent(f: Framer, p: Packet, m: Flash.Memory, astate: AppState)
    requires Valid(f) && f.mstate == MacIdle && Framable(p)
    ensures Process(m, astate, Stripe(MacRun(f, AirFrame(Stripe(p))).pkt)) == Process(m, astate, p)
  {
    hide MacRun, AirFrame, Stripe, Process, Quiet, Valid;
    FrameRoundTrip(f, p);
    var q := Stripe(MacRun(f, AirFrame(Stripe(p))).pkt);
    if Type(p) == TYPE_CTRL {
      CtrlPrefixDecides(p, q, m, astate);
    } else {
      assert q == p;
    }
  }

  lemma CtrlPrefixDecides(p: Packet, q: Packet, m: Flash.Memory, astate: AppState)
    requires Type(p) == TYPE_CTRL && p[..CTRL_LEN] == q[..CTRL_LEN]
    ensures Process(m, astate, q) == Process(m, astate, p)
  {
    assert q[1] == q[..CTRL_LEN][1] == p[..CTRL_LEN][1];
    assert p[..28] == p[..CTRL_LEN][..28] && q[..28] == q[..CTRL_LEN][..28];
    assert p[28..32] == p[..CTRL_LEN][28..32] && q[28..32] == q[..CTRL_LEN][28..32];
    assert p[4..8] == p[..CTRL_LEN][4..8] && q[4..8] == q[..CTRL_LEN][4..8];
    assert p[8..12] == p[..CTRL_LEN][8..12] && q[8..12] == q[..CTRL_LEN][8..12];
    assert p[12..28] == p[..CTRL_LEN][12..28] && q[12..28] == q[..CTRL_LEN][12..28];
    hide Flash.ApplyAll, EraseAll, Flash.ProgramCommands, LE, AppIsValid, Incomplete, Split32;
  }
}
