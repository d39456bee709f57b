/**
 The layers composed, from samples to flash.  However the main loop's halves cut up the incoming bits, it does
 what handing over each packet on its last bit would do; so a transmission that is heard leaves the flash and
 the verdict that delivering its packets one by one leaves.
 */
module EndToEnd {
  import opened Bytes
  import opened Protocol
  import opened Pipeline
  import opened Pll
  import Analog
  import Convergence
  import Demod
  import Flash
  import Frame
  import Mac
  import Sender

  // ---- bit by bit ----

  /** A receiver that hands a packet over on its very last bit. */
  function HearBit(b: Boot, bit: bool): (b': Boot)
    requires b.Sound()
    ensures b'.Sound()
  {
    if b.power != Running then b else HearChunk(b, [bit])
  }

  function HearBits(b: Boot, bits: seq<bool>): (b': Boot)
    requires b.Sound()
    ensures b'.Sound()
    decreases |bits|
  {
    if bits == [] then b else HearBits(HearBit(b, bits[0]), bits[1..])
  }

  /** All of `bits`, and only then the packet, as the main loop does with the bits of one half. */
  function HearChunk(b: Boot, bits: seq<bool>): (b': Boot)
    requires b.Sound()
    ensures b'.Sound()
  {
    var heard := b.(mac := Mac.MacRun(b.mac, bits));
    if heard.mac.pktReady then HandOver(heard) else heard
  }

  /** The same flash and verdict, and the same framer as long as there is anyone to listen. */
  ghost predicate Same(x: Boot, y: Boot) {
    x.mem == y.mem && x.astate == y.astate && x.power == y.power && (x.power == Running ==> x.mac == y.mac)
  }

  ghost predicate Listening(b: Boot) {
    b.Sound() && b.power == Running && !b.mac.pktReady
  }

  lemma HearBitIs(b: Boot, bit: bool)
    requires Listening(b)
    ensures var g := Mac.MacStep(b.mac, bit);
      HearBit(b, bit) == if g.pktReady then HandOver(b.(mac := g)) else b.(mac := g)
  {
    hide Mac.MacStep, HandOver, Mac.Valid;
    Frame.OneBit(b.mac, bit);
  }

  lemma {:induction false} HearConcat(b: Boot, s: seq<bool>, t: seq<bool>)
    requires b.Sound()
    ensures HearBits(b, s + t) == HearBits(HearBits(b, s), t)
    decreases |s|
  {
    hide HearBit, Mac.Valid;
    if s == [] {
      assert s + t == t;
    } else {
      assert (s + t)[0] == s[0] && (s + t)[1..] == s[1..] + t;
      HearConcat(HearBit(b, s[0]), s[1..], t);
    }
  }

  lemma {:induction false} NoOneListens(b: Boot, bits: seq<bool>)
    requires b.Sound() && b.power != Running
    ensures HearBits(b, bits) == b
    decreases |bits|
  {
    hide HearChunk, Mac.Valid;
    if bits != [] {
      NoOneListens(b, bits[1..]);
    }
  }

  lemma SameBit(x: Boot, y: Boot, bit: bool)
    requires x.Sound() && y.Sound() && Same(x, y)
    ensures Same(HearBit(x, bit), HearBit(y, bit))
  {
    hide Mac.MacRun, Mac.Valid, Process, Flash.ApplyAll, Frame.Stripe;
  }

  lemma {:induction false} SameBits(x: Boot, y: Boot, bits: seq<bool>)
    requires x.Sound() && y.Sound() && Same(x, y)
    ensures Same(HearBits(x, bits), HearBits(y, bits))
    decreases |bits|
  {
    hide HearBit, Same, Mac.Valid;
    if bits != [] {
      SameBit(x, y, bits[0]);
      SameBits(HearBit(x, bits[0]), HearBit(y, bits[0]), bits[1..]);
    }
  }

  // ---- the cuts between halves do not matter ----

  lemma TransparentSync(f: Mac.Framer, q: Packet, ready: bool, bit: bool)
    requires Mac.Valid(f) && f.mstate == Mac.MacSync
    ensures Mac.Valid(f.(pkt := q, pktReady := ready))
    ensures Mac.StepSync(f.(pkt := q, pktReady := ready), bit) == Mac.StepSync(f, bit).(pkt := q, pktReady := ready)
  {
    hide Mac.Shift;
  }

  lemma TransparentIdle(f: Mac.Framer, q: Packet, ready: bool, bit: bool)
    requires Mac.Valid(f) && f.mstate == Mac.MacIdle
    ensures Mac.Valid(f.(pkt := q, pktReady := ready))
    ensures Mac.StepIdle(f.(pkt := q, pktReady := ready), bit) == Mac.StepIdle(f, bit).(pkt := q, pktReady := ready)
  {
  }

  /** Between packets the framer does not look at its mailbox. */
  lemma Transparent(f: Mac.Framer, q: Packet, ready: bool, bit: bool)
    requires Mac.Valid(f) && f.mstate != Mac.MacPacket
    ensures Mac.Valid(f.(pkt := q, pktReady := ready))
    ensures Mac.MacStep(f.(pkt := q, pktReady := ready), bit) == Mac.MacStep(f, bit).(pkt := q, pktReady := ready)
  {
    hide Mac.StepIdle, Mac.StepSync, Mac.StepPacket, Mac.Valid;
    if f.mstate == Mac.MacIdle {
      TransparentIdle(f, q, ready, bit);
    } else {
      TransparentSync(f, q, ready, bit);
    }
  }

  /** What follows a packet within the same half: the framer moves on, and the mailbox stays as it is. */
  lemma {:induction false} AfterReport(b: Boot, f: Mac.Framer, bits: seq<bool>)
    requires Listening(b) && Mac.Valid(f) && f.pktReady && Guarded(f, |bits|) && |bits| <= 55
    requires b.mac == f.(pkt := b.mac.pkt, pktReady := false)
    ensures Mac.MacRun(f, bits).pktReady && Mac.MacRun(f, bits).pkt == f.pkt
    ensures HearBits(b, bits) == b.(mac := Mac.MacRun(f, bits).(pkt := b.mac.pkt, pktReady := false))
    decreases |bits|
  {
    if bits != [] {
      hide Mac.MacStep, Slack, HearBit, Mac.Valid, Mac.Overrun, HandOver;
      GuardStep(f, bits[0], |bits| - 1);
      Transparent(f, b.mac.pkt, false, bits[0]);
      HearBitIs(b, bits[0]);
      AfterReport(HearBit(b, bits[0]), Mac.MacStep(f, bits[0]), bits[1..]);
    }
  }

  lemma HandOverMac(b: Boot)
    requires b.Sound() && b.power == Running
    ensures var r := HandOver(b);
      && r == b.(mac := r.mac, mem := r.mem, astate := r.astate, power := r.power)
      && r.mac == b.mac.(pkt := Frame.Stripe(b.mac.pkt), pktReady := b.mac.pktReady && r.power != Running)
  {
    hide Process, Flash.ApplyAll, Frame.Stripe, Mac.Valid;
  }

  /** Two receivers that hand over the same packet. */
  lemma SameHandOver(x: Boot, y: Boot)
    requires x.Sound() && y.Sound() && x.mem == y.mem && x.astate == y.astate && x.mac.pkt == y.mac.pkt
    ensures var r, s := HandOver(x), HandOver(y); r.mem == s.mem && r.astate == s.astate && r.power == s.power
  {
    hide Process, Flash.ApplyAll, Frame.Stripe, Mac.Valid;
  }

  /** A chunk shorter than the mailbox's slack does what its bits do one by one. */
  lemma {:induction false} ChunkIsBits(b: Boot, bits: seq<bool>)
    requires Listening(b) && |bits| <= 55
    ensures Same(HearChunk(b, bits), HearBits(b, bits))
    decreases |bits|
  {
    hide Mac.MacStep, HearBit, Slack, Mac.Valid, HandOver, Mac.Overrun;
    if bits != [] {
      var f, rest := Mac.MacStep(b.mac, bits[0]), bits[1..];
      HearBitIs(b, bits[0]);
      if f.pktReady {
        GuardStep(b.mac, bits[0], |rest|);
        ReportedInChunk(b, f, rest);
      } else {
        ChunkIsBits(b.(mac := f), rest);
      }
    }
  }

  lemma ReportedInChunk(b: Boot, f: Mac.Framer, rest: seq<bool>)
    requires Listening(b) && Mac.Valid(f) && f.pktReady && Guarded(f, |rest|) && |rest| <= 55
    ensures Same(HearChunk(b.(mac := f), rest), HearBits(HandOver(b.(mac := f)), rest))
  {
    hide Mac.MacStep, HearBit, Slack, Mac.Valid, HandOver, Mac.MacRun, HearBits, Guarded;
    var now := HandOver(b.(mac := f));
    var later := b.(mac := Mac.MacRun(f, rest));
    HandOverMac(b.(mac := f));
    var shadow := b.(mac := f.(pkt := Frame.Stripe(f.pkt), pktReady := false));
    OtherPacket(f, Frame.Stripe(f.pkt), false);
    AfterReport(shadow, f, rest);
    HandOverMac(later);
    SameHandOver(later, b.(mac := f));
    if now.power == Running {
      AfterReport(now, f, rest);
    } else {
      NoOneListens(now, rest);
    }
  }

  // ---- the loop over halves ----

  function Joined(halves: seq<seq<int>>): seq<int> {
    if halves == [] then [] else Joined(halves[..|halves| - 1]) + halves[|halves| - 1]
  }

  /** What the demodulator makes of all the halves as one signal. */
  function AllHeard(c: Setup, b: Boot, halves: seq<seq<int>>): (k: Trace)
    requires c.Sound() && b.Sound()
    ensures k.now.InRange()
  {
    Demod.Heard(b.phase, b.history, Demod.Scaled(Joined(halves), c.shift), c.size, c.tables, c.rate)
  }

  lemma ScaledConcat(s: seq<int>, t: seq<int>, shift: nat)
    ensures Demod.Scaled(s + t, shift) == Demod.Scaled(s, shift) + Demod.Scaled(t, shift)
  {
  }

  lemma HeardNext(c: Setup, b: Boot, halves: seq<seq<int>>, b1: Boot)
    requires c.Sound() && b.Sound() && b1.Sound() && halves != []
    requires var earlier := halves[..|halves| - 1];
      && b1.phase == AllHeard(c, b, earlier).now
      && b1.history == b.history + Demod.Scaled(Joined(earlier), c.shift)
    ensures var half := halves[|halves| - 1];
      && AllHeard(c, b, halves).now == HalfBits(c, b1, half).now
      && AllHeard(c, b, halves).bits == AllHeard(c, b, halves[..|halves| - 1]).bits + HalfBits(c, b1, half).bits
      && b1.history + Demod.Scaled(half, c.shift) == b.history + Demod.Scaled(Joined(halves), c.shift)
  {
    hide Demod.Heard, Demod.Scaled, Mac.Valid;
    var s, t := Joined(halves[..|halves| - 1]), halves[|halves| - 1];
    ScaledConcat(s, t, c.shift);
    Demod.HeardConcat(b.phase, b.history, Demod.Scaled(s, c.shift), Demod.Scaled(t, c.shift), c.size, c.tables, c.rate);
  }

  lemma HalfHasFewBits(c: Setup, b: Boot, half: seq<int>)
    requires c.Sound() && b.Sound() && |half| == HALF_SIZE
    ensures |HalfBits(c, b, half).bits| <= 55
  {
    hide Track, Demod.Slices, Mac.Valid;
    FewBits(b.phase, Demod.Slices(b.history, Demod.Scaled(half, c.shift), c.size, c.tables), c.rate);
  }

  lemma HalfIsChunk(c: Setup, b: Boot, half: seq<int>)
    requires c.Sound() && Listening(b)
    ensures var r, s := HalfStep(c, b, half), HearChunk(b, HalfBits(c, b, half).bits);
      && Same(r, s) && r.phase == HalfBits(c, b, half).now && r.history == b.history + Demod.Scaled(half, c.shift)
  {
    hide Demod.Heard, Demod.Scaled, Demod.Beats, Mac.MacRun, Mac.Valid, HandOver;
    var k := HalfBits(c, b, half);
    var heard, chunk := AfterSamples(c, b, Demod.Scaled(half, c.shift)), b.(mac := Mac.MacRun(b.mac, k.bits));
    assert heard.mac == chunk.mac;
    SameHandOver(heard, chunk);
    HandOverMac(heard);
    HandOverMac(chunk);
  }

  /** The main loop, half by half, does what handing packets over on their last bit would do to all the bits heard. */
  lemma {:induction false} LoopHearsBits(c: Setup, b: Boot, halves: seq<seq<int>>)
    requires c.Sound() && Listening(b) && forall i :: 0 <= i < |halves| ==> |halves[i]| == HALF_SIZE
    ensures var r := LoopRun(c, b, halves);
      && Same(r, HearBits(b, AllHeard(c, b, halves).bits))
      && (r.power == Running ==>
            && !r.mac.pktReady && r.phase == AllHeard(c, b, halves).now
            && r.history == b.history + Demod.Scaled(Joined(halves), c.shift))
  {
    if halves == [] {
      NothingHeard(c, b);
    } else {
      hide HalfStep, HearBits, HearChunk, HalfBits, AllHeard, Demod.Scaled, Joined, Mac.Valid, Slack;
      var earlier, half := halves[..|halves| - 1], halves[|halves| - 1];
      LoopHearsBits(c, b, earlier);
      MailboxEmptyBetweenHalves(c, b, halves);
      var b1, before := LoopRun(c, b, earlier), HearBits(b, AllHeard(c, b, earlier).bits);
      if b1.power == Running {
        var bits := HalfBits(c, b1, half).bits;
        HeardNext(c, b, halves, b1);
        HalfHasFewBits(c, b1, half);
        HalfIsChunk(c, b1, half);
        ChunkIsBits(b1, bits);
        SameBits(b1, before, bits);
        HearConcat(b, AllHeard(c, b, earlier).bits, bits);
      } else {
        var more := HeardMore(c, b, halves);
        NoOneListens(before, more);
        HearConcat(b, AllHeard(c, b, earlier).bits, more);
        StoppedStays(c, b1, half);
      }
    }
  }

  lemma NothingHeard(c: Setup, b: Boot)
    requires c.Sound() && b.Sound()
    ensures AllHeard(c, b, []).bits == [] && AllHeard(c, b, []).now == b.phase
    ensures b.history + Demod.Scaled(Joined([]), c.shift) == b.history
  {
  }

  lemma StoppedStays(c: Setup, b: Boot, half: seq<int>)
    requires c.Sound() && b.Sound() && b.power != Running
    ensures HalfStep(c, b, half) == b
  {
  }

  lemma HeardMore(c: Setup, b: Boot, halves: seq<seq<int>>) returns (more: seq<bool>)
    requires c.Sound() && b.Sound() && halves != []
    ensures AllHeard(c, b, halves).bits == AllHeard(c, b, halves[..|halves| - 1]).bits + more
  {
    hide Demod.Heard, Demod.Scaled, Mac.Valid;
    var s, t := Joined(halves[..|halves| - 1]), halves[|halves| - 1];
    ScaledConcat(s, t, c.shift);
    var a := Demod.Scaled(s, c.shift);
    Demod.HeardConcat(b.phase, b.history, a, Demod.Scaled(t, c.shift), c.size, c.tables, c.rate);
    var k := AllHeard(c, b, halves[..|halves| - 1]);
    more := Demod.Heard(k.now, b.history + a, Demod.Scaled(t, c.shift), c.size, c.tables, c.rate).bits;
  }

  // ---- frames on the air ----

  /** One frame per packet, striped, each after any number of further zeros. */
  function Transmission(ps: seq<Packet>, gaps: seq<nat>): seq<bool>
    requires |gaps| == |ps|
  {
    if ps == [] then []
    else
      var n := |ps| - 1;
      Transmission(ps[..n], gaps[..n]) + (Frame.Zeros(gaps[n]) + Frame.AirFrame(Frame.Stripe(ps[n])))
  }

  /** Between packets: listening, and not in the middle of anything. */
  ghost predicate AtRest(b: Boot) {
    b.Sound() && (b.power == Running ==> !b.mac.pktReady && b.mac.mstate == Mac.MacIdle)
  }

  ghost predicate OnDevice(b: Boot, d: Device) {
    b.mem == d.mem && b.astate == d.astate && b.power == d.power
  }

  /** Bits that report nothing before the last of them. */
  lemma {:induction false} QuietBits(b: Boot, bits: seq<bool>)
    requires Listening(b) && Frame.Quiet(b.mac, bits)
    ensures HearBits(b, bits) == HearChunk(b, bits)
    decreases |bits|
  {
    hide Mac.MacStep, HearBit, Mac.Valid, HandOver;
    if bits != [] {
      HearBitIs(b, bits[0]);
      var f, rest := Mac.MacStep(b.mac, bits[0]), bits[1..];
      if rest != [] {
        Frame.OneBit(b.mac, bits[0]);
        assert bits[..1] == [bits[0]];
        assert !f.pktReady;
        forall k | 0 <= k < |rest| ensures Mac.MacRun(f, rest[..k]).pktReady == f.pktReady {
          assert bits[..k + 1][1..] == rest[..k];
        }
        QuietBits(b.(mac := f), rest);
      } else {
        Frame.OneBit(b.mac, bits[0]);
        assert bits == [bits[0]];
      }
    }
  }

  lemma GapHeard(b: Boot, n: nat)
    requires Listening(b) && b.mac.mstate == Mac.MacIdle
    ensures var r := HearBits(b, Frame.Zeros(n));
      Listening(r) && r.mac.mstate == Mac.MacIdle && r.mem == b.mem && r.astate == b.astate
  {
    hide Mac.MacRun, Frame.Quiet, HearBits, HandOver, Mac.Valid, Frame.Zeros;
    Frame.FeedZeros(b.mac, n);
    QuietBits(b, Frame.Zeros(n));
  }

  lemma FrameHeard(b: Boot, p: Packet, d: Device)
    requires Listening(b) && b.mac.mstate == Mac.MacIdle && OnDevice(b, d) && Frame.Framable(p)
    ensures var r := HearBits(b, Frame.AirFrame(Frame.Stripe(p)));
      AtRest(r) && OnDevice(r, Step(d, Deliver(p)))
  {
    hide Mac.MacRun, Frame.Quiet, HearBits, Mac.Valid, Frame.AirFrame, Frame.Stripe, Process, Flash.ApplyAll;
    Frame.FrameRoundTrip(b.mac, p);
    Frame.ReceivedPacketActsAsSent(b.mac, p, b.mem, b.astate);
    QuietBits(b, Frame.AirFrame(Frame.Stripe(p)));
    HandOverMac(b.(mac := Mac.MacRun(b.mac, Frame.AirFrame(Frame.Stripe(p)))));
  }

  /** Frames heard bit by bit are packets delivered. */
  lemma {:induction false} TransmissionHeard(b: Boot, ps: seq<Packet>, gaps: seq<nat>, d: Device)
    requires AtRest(b) && OnDevice(b, d) && |gaps| == |ps|
    requires forall i :: 0 <= i < |ps| ==> Frame.Framable(ps[i])
    ensures var r := HearBits(b, Transmission(ps, gaps));
      AtRest(r) && OnDevice(r, Convergence.Deliveries(d, ps))
  {
    hide HearBits, Mac.Valid, Frame.AirFrame, Frame.Stripe, Frame.Zeros, Frame.Framable, Step;
    if ps == [] {
      assert HearBits(b, []) == b by { NoBits(b); }
    } else {
      var n := |ps| - 1;
      TransmissionHeard(b, ps[..n], gaps[..n], d);
      var r, e := HearBits(b, Transmission(ps[..n], gaps[..n])), Convergence.Deliveries(d, ps[..n]);
      var gap, frame := Frame.Zeros(gaps[n]), Frame.AirFrame(Frame.Stripe(ps[n]));
      HearConcat(b, Transmission(ps[..n], gaps[..n]), gap + frame);
      HearConcat(r, gap, frame);
      if r.power == Running {
        GapHeard(r, gaps[n]);
        FrameHeard(HearBits(r, gap), ps[n], e);
      } else {
        NoOneListens(r, gap);
        NoOneListens(r, frame);
        StoppedDevice(e, ps[n]);
      }
    }
  }

  lemma NoBits(b: Boot)
    requires b.Sound()
    ensures HearBits(b, []) == b
  {
  }

  lemma StoppedDevice(d: Device, p: Packet)
    requires d.power != Running
    ensures Step(d, Deliver(p)) == d
  {
    assert Issued(d, Deliver(p)) == [];
  }

  // ---- from samples to flash ----

  /** Bits after the transmission are zeros. */
  ghost predicate HeardAs(c: Setup, b: Boot, halves: seq<seq<int>>, ps: seq<Packet>, gaps: seq<nat>, tail: nat)
    requires c.Sound() && b.Sound() && |gaps| == |ps|
  {
    AllHeard(c, b, halves).bits == Transmission(ps, gaps) + Frame.Zeros(tail)
  }

  /**
   If the bits heard in a run of the main loop are the frames of `ps`, with any number of zeros between
   and after them, the loop leaves the flash and the verdict of delivering `ps` packet by packet.
   */
  lemma LoopDeliversPackets(
    c: Setup, b: Boot, halves: seq<seq<int>>, ps: seq<Packet>, gaps: seq<nat>, tail: nat, d: Device)
    requires c.Sound() && Listening(b) && b.mac.mstate == Mac.MacIdle && OnDevice(b, d)
    requires forall i :: 0 <= i < |halves| ==> |halves[i]| == HALF_SIZE
    requires |gaps| == |ps| && forall i :: 0 <= i < |ps| ==> Frame.Framable(ps[i])
    requires HeardAs(c, b, halves, ps, gaps, tail)
    ensures OnDevice(LoopRun(c, b, halves), Convergence.Deliveries(d, ps))
  {
    hide HearBits, Mac.Valid, Frame.Zeros, Frame.Framable, Transmission, LoopRun, AllHeard, Convergence.Deliveries;
    hide Mac.MacRun, Frame.Quiet;
    LoopHearsBits(c, b, halves);
    TransmissionHeard(b, ps, gaps, d);
    HearConcat(b, Transmission(ps, gaps), Frame.Zeros(tail));
    var r := HearBits(b, Transmission(ps, gaps));
    if r.power == Running {
      GapHeard(r, tail);
    } else {
      NoOneListens(r, Frame.Zeros(tail));
    }
  }

  /** What a transmission of `img` sounds like to the slicer: a bit before it, its frames, zeros after it. */
  function Announcement(img: seq<byte>, length: bv32, guid: seq<byte>): seq<Packet>
    requires Sender.Sendable(img, length, guid)
  {
    [Sender.CtrlPacket(img, length, guid)] + Sender.AllBlocks(img, BlockCount(Unsigned(length)))
  }

  /** The two-level signal of all halves. */
  function Signal(c: Setup, b: Boot, halves: seq<seq<int>>): seq<bool>
    requires c.Sound()
  {
    Demod.Slices(b.history, Demod.Scaled(Joined(halves), c.shift), c.size, c.tables)
  }

  /**
   The signal carries `sent` after one leading bit and before `tail` zeros, from ideal phase `q` on, with every
   transition within `d` of its place; the loop starts less than a slip away and is given time for all of `sent`.
   */
  ghost predicate Audible(
    c: Setup, b: Boot, halves: seq<seq<int>>, sent: seq<bool>, tail: nat, ks: seq<nat>, q: int, d: nat)
    requires c.Sound()
  {
    var ss := Signal(c, b, halves);
    && Carries([b.phase.last] + sent + Frame.Zeros(tail), ss, ks, q, c.rate, d)
    && Shows(0, q - c.rate.incr, c.rate, d)
    && 2 * d + c.rate.adj < HALF && Abs(b.phase.pll - q) + d < HALF
    && PERIOD * (|sent| + 1) + HALF <= At(q, |ss|, c.rate)
  }

  /** The clock recovers everything sent, and perhaps some of the zeros after it. */
  lemma AudibleIsHeard(
    c: Setup, b: Boot, halves: seq<seq<int>>, sent: seq<bool>, tail: nat, ks: seq<nat>, q: int, d: nat)
    returns (rest: nat)
    requires c.Sound() && b.Sound() && Audible(c, b, halves, sent, tail, ks, q, d)
    ensures AllHeard(c, b, halves).bits == sent + Frame.Zeros(rest)
  {
    hide Demod.Slices, Joined, Demod.Scaled, Mac.Valid, Track, Carries, Shows, At, Times, Abs, Max;
    var ss, x := Signal(c, b, halves), [b.phase.last] + sent + Frame.Zeros(tail);
    BitRecovery(x, 0, b.phase, ss, ks, q, c.rate, d);
    var t := Track(b.phase, ss, c.rate);
    assert t == AllHeard(c, b, halves);
    var off := Unwrapped(t) - At(q, |ss|, c.rate);
    assert off > 0 - HALF by { AbsBelow(off, HALF); }
    assert PERIOD * |t.bits| + PERIOD > PERIOD * (|sent| + 1);
    rest := |t.bits| - |sent|;
    assert x[1..1 + |t.bits|] == sent + Frame.Zeros(rest);
  }

  lemma AbsBelow(x: int, h: nat)
    requires Abs(x) < h
    ensures x > 0 - h
  {
  }

  lemma BlocksFramable(img: seq<byte>, n: nat)
    requires BLOCK_SIZE * n <= |img| <= BLOCK_SIZE * BLOCKS
    ensures var ps := Sender.AllBlocks(img, n); forall i :: 0 <= i < |ps| ==> Frame.Framable(ps[i])
  {
    hide Frame.Framable, Sender.DataPacket;
    var ps := Sender.AllBlocks(img, n);
    forall i | 0 <= i < |ps| ensures Frame.Framable(ps[i]) {
      Sender.DataPacketReads(img, i);
    }
  }

  lemma AnnouncementFramable(img: seq<byte>, length: bv32, guid: seq<byte>)
    requires Sender.Sendable(img, length, guid)
    ensures var ps := Announcement(img, length, guid);
      forall i :: 0 <= i < |ps| ==> Frame.Framable(ps[i])
  {
    hide Frame.Framable, Sender.CtrlPacket, Sender.AllBlocks, Unsigned, BlockCount, GoodCtrl, Word;
    Sender.CtrlPacketReads(img, length, guid);
    BlocksFramable(img, BlockCount(Unsigned(length)));
    FramableCons(Sender.CtrlPacket(img, length, guid), Sender.AllBlocks(img, BlockCount(Unsigned(length))));
  }

  lemma FramableCons(p: Packet, ps: seq<Packet>)
    requires Frame.Framable(p) && forall i :: 0 <= i < |ps| ==> Frame.Framable(ps[i])
    ensures forall i :: 0 <= i < |[p] + ps| ==> Frame.Framable(([p] + ps)[i])
  {
    hide Frame.Framable;
  }

  /**
   From sound to flash: if the signal the slicer makes of the halves carries the frames that announce and send
   `img`, the main loop ends with exactly that image and guid in flash, marked complete, and with the
   application booted exactly when the image carries its signature.
   */
  lemma SoundToFlash(
    c: Setup, b: Boot, halves: seq<seq<int>>, img: seq<byte>, length: bv32, guid: seq<byte>,
    gaps: seq<nat>, tail: nat, ks: seq<nat>, q: int, d: nat)
    requires c.Sound() && Listening(b) && b.mac.mstate == Mac.MacIdle && b.astate == Idle && Guid(b.mem) != guid
    requires forall i :: 0 <= i < |halves| ==> |halves[i]| == HALF_SIZE
    requires Sender.Sendable(img, length, guid) && |gaps| == |Announcement(img, length, guid)|
    requires Audible(c, b, halves, Transmission(Announcement(img, length, guid), gaps), tail, ks, q, d)
    ensures var r := LoopRun(c, b, halves);
      && Convergence.Stored(r.mem, |img|) == img && Guid(r.mem) == guid && !Incomplete(r.mem)
      && (r.power == Booted <==> Sender.Signed(img))
  {
    hide Audible, Announcement, Transmission, LoopRun, AllHeard, Convergence.Deliveries, Mac.Valid, Frame.Zeros;
    hide Sender.CtrlPacket, Sender.AllBlocks, Sender.Signed, Unsigned, BlockCount, Frame.Framable, Incomplete;
    var ps := Announcement(img, length, guid);
    var d0 := Device(b.mem, b.astate, b.power, []);
    AnnouncementFramable(img, length, guid);
    var rest := AudibleIsHeard(c, b, halves, Transmission(ps, gaps), tail, ks, q, d);
    LoopDeliversPackets(c, b, halves, ps, gaps, rest, d0);
    SentAsAnnounced(d0, img, length, guid);
  }

  lemma SentAsAnnounced(d: Device, img: seq<byte>, length: bv32, guid: seq<byte>)
    requires d.astate == Idle && d.power == Running && Guid(d.mem) != guid && Sender.Sendable(img, length, guid)
    ensures var r := Convergence.Deliveries(d, Announcement(img, length, guid));
      && Convergence.Stored(r.mem, |img|) == img && Guid(r.mem) == guid && !Incomplete(r.mem)
      && (r.power == Booted <==> Sender.Signed(img))
  {
    hide Convergence.Deliveries, Sender.CtrlPacket, Sender.AllBlocks, Sender.Signed, Unsigned, BlockCount, Incomplete;
    Sender.SentImageArrives(d, img, length, guid);
  }

  // ---- interrupt and main loop, interleaved ----

  function HalvesOf(s: seq<int>): (halves: seq<seq<int>>)
    requires |s| % HALF_SIZE == 0
    ensures forall i :: 0 <= i < |halves| ==> |halves[i]| == HALF_SIZE
    ensures Joined(halves) == s
    decreases |s|
  {
    if s == [] then []
    else
      var n := |s| - HALF_SIZE;
      var halves := HalvesOf(s[..n]) + [s[n..]];
      assert halves[..|halves| - 1] == HalvesOf(s[..n]);
      halves
  }

  /** The copy of a half is complete: what follows is its demodulation. */
  predicate Finishes(s: Analog.System, a: Analog.Action) {
    a.Proceed? && s.consumer.Copying? && !(s.consumer.i < s.line.bufN && s.consumer.i < Analog.HALF_DEPTH)
  }

  /** The loop's state after the first `n` actions of a run in which samples arrive between any two steps. */
  ghost function BootAfter(
    c: Setup, b: Boot, states: seq<Analog.System>, actions: seq<Analog.Action>, n: nat): (b': Boot)
    requires c.Sound() && b.Sound() && n <= |actions| < |states|
    ensures b'.Sound()
  {
    if n == 0 then b
    else
      var before := BootAfter(c, b, states, actions, n - 1);
      if Finishes(states[n - 1], actions[n - 1]) then HalfStep(c, before, states[n - 1].dmBuf) else before
  }

  /** The halves the loop demodulates are the halves the sample line has delivered, whatever the interleaving. */
  lemma {:induction false} LoopHearsDelivered(
    c: Setup, b: Boot, states: seq<Analog.System>, actions: seq<Analog.Action>, n: nat)
    requires c.Sound() && b.Sound() && Analog.IsRun(states, actions) && n <= |actions|
    ensures |states[n].delivered| % HALF_SIZE == 0
    ensures BootAfter(c, b, states, actions, n) == LoopRun(c, b, HalvesOf(states[n].delivered))
  {
    hide HalfStep, LoopRun, Mac.Valid, Analog.Next, Analog.Sane, HalvesOf, Finishes;
    if n == 0 {
      NoHalves();
      LoopStart(c, b);
    } else {
      LoopHearsDelivered(c, b, states, actions, n - 1);
      var s := states[n - 1];
      DeliveredNext(s, actions[n - 1]);
      if Finishes(s, actions[n - 1]) {
        HalvesNext(s.delivered, s.dmBuf);
        LoopSnoc(c, b, HalvesOf(s.delivered), s.dmBuf);
      }
    }
  }

  lemma NoHalves()
    ensures HalvesOf([]) == []
  {
  }

  lemma DeliveredNext(s: Analog.System, a: Analog.Action)
    requires Analog.Sane(s.line) && |s.dmBuf| == Analog.HALF_DEPTH
    ensures Analog.Next(s, a).delivered == if Finishes(s, a) then s.delivered + s.dmBuf else s.delivered
  {
    hide Analog.Isr;
  }

  lemma LoopStart(c: Setup, b: Boot)
    requires c.Sound() && b.Sound()
    ensures LoopRun(c, b, []) == b
  {
  }

  lemma HalvesNext(s: seq<int>, half: seq<int>)
    requires |s| % HALF_SIZE == 0 && |half| == HALF_SIZE
    ensures |s + half| % HALF_SIZE == 0 && HalvesOf(s + half) == HalvesOf(s) + [half]
  {
    var n := |s + half| - HALF_SIZE;
    assert (s + half)[..n] == s && (s + half)[n..] == half;
  }

  /** With every publication in time, the halves of the stream itself. */
  lemma LoopHearsStream(c: Setup, b: Boot, states: seq<Analog.System>, actions: seq<Analog.Action>, n: nat)
    requires c.Sound() && b.Sound() && Analog.IsRun(states, actions) && n <= |actions|
    requires forall i :: 0 <= i < n ==> Analog.InTime(states[i], actions[i])
    ensures var s := states[n];
      && |s.delivered| <= |s.stream| && |s.delivered| % HALF_SIZE == 0
      && BootAfter(c, b, states, actions, n)
         == LoopRun(c, b, HalvesOf(Analog.Centred(s.stream[..|s.delivered|])))
  {
    hide LoopRun, BootAfter, Mac.Valid, Analog.InTime, Analog.IsRun, Analog.Centred, HalvesOf;
    LoopHearsDelivered(c, b, states, actions, n);
    Analog.LosslessDelivery(states, actions, n);
  }
}
