/**
 The bootloader's main loop: published sample halves go through the demodulator into the MAC, and a
 finished packet is unstriped in place and processed before the next half is looked at.  The packet
 buffer has room for one packet only; nothing but timing protects it.
 */
module Pipeline {
  import opened Protocol
  import opened Pll
  import Analog
  import BitRate
  import Correlator
  import Demod
  import Flash
  import Frame
  import Mac
  import Updater

  const NB_SAMPLES := 8
  const NB_FRAMES := 32
  const HALF_SIZE := NB_SAMPLES * NB_FRAMES

  // ---- the mailbox ----

  /** Bits that must still arrive, at least, before the "packet buffer full" assertion is evaluated. */
  function Slack(f: Mac.Framer): nat
    requires Mac.Valid(f)
  {
    match f.mstate
    case MacIdle => (if f.idleZeros > 32 then 0 else 33 - f.idleZeros) + 23
    case MacSync => f.bitpos + 8 * (2 - f.syncCount)
    case MacPacket => 0
  }

  /** A packet waiting in the mailbox survives the next `n` bits. */
  ghost predicate Guarded(f: Mac.Framer, n: nat)
    requires Mac.Valid(f)
  {
    f.pktReady ==> f.mstate != Mac.MacPacket && Slack(f) > n
  }

  lemma GuardStep(f: Mac.Framer, bit: bool, n: nat)
    requires Mac.Valid(f) && Guarded(f, n + 1) && n < 56
    ensures !Mac.Overrun(f, bit)
    ensures Guarded(Mac.MacStep(f, bit), n)
    ensures f.pktReady ==> Mac.MacStep(f, bit).pktReady && Mac.MacStep(f, bit).pkt == f.pkt
  {
    hide Mac.Shift, Mac.HeaderVerdict;
  }

  /** No bit of `bits` trips the assertion, and a packet once reported stays put. */
  ghost predicate MailboxSafe(f: Mac.Framer, bits: seq<bool>)
    requires Mac.Valid(f)
  {
    && (forall i :: 0 <= i < |bits| ==> !Mac.Overrun(Mac.MacRun(f, bits[..i]), bits[i]))
    && forall i, j :: 0 <= i <= j <= |bits| && Mac.MacRun(f, bits[..i]).pktReady ==>
         Mac.MacRun(f, bits[..j]).pktReady && Mac.MacRun(f, bits[..j]).pkt == Mac.MacRun(f, bits[..i]).pkt
  }

  lemma {:induction false} GuardedRun(f: Mac.Framer, bits: seq<bool>)
    requires Mac.Valid(f) && Guarded(f, |bits|) && |bits| <= 56
    ensures MailboxSafe(f, bits)
    decreases |bits|
  {
    hide Mac.MacStep, Mac.Valid, Guarded, Mac.Overrun;
    if bits != [] {
      var g, rest := Mac.MacStep(f, bits[0]), bits[1..];
      GuardStep(f, bits[0], |rest|);
      GuardedRun(g, rest);
      SafeNext(f, bits);
    }
  }

  lemma SafeNext(f: Mac.Framer, bits: seq<bool>)
    requires Mac.Valid(f) && bits != [] && !Mac.Overrun(f, bits[0]) && MailboxSafe(Mac.MacStep(f, bits[0]), bits[1..])
    requires f.pktReady ==> Mac.MacStep(f, bits[0]).pktReady && Mac.MacStep(f, bits[0]).pkt == f.pkt
    ensures MailboxSafe(f, bits)
  {
    hide Mac.MacStep, Mac.Valid, Mac.Overrun;
    var g, rest := Mac.MacStep(f, bits[0]), bits[1..];
    forall i | 0 < i <= |bits| ensures Mac.MacRun(f, bits[..i]) == Mac.MacRun(g, rest[..i - 1]) {
      assert bits[..i][1..] == rest[..i - 1];
    }
    forall i | 0 <= i < |bits| ensures !Mac.Overrun(Mac.MacRun(f, bits[..i]), bits[i]) {
      if i > 0 {
        assert bits[i] == rest[i - 1];
      }
    }
    forall i, j | 0 <= i <= j <= |bits| && Mac.MacRun(f, bits[..i]).pktReady
      ensures Mac.MacRun(f, bits[..j]).pktReady && Mac.MacRun(f, bits[..j]).pkt == Mac.MacRun(f, bits[..i]).pkt
    {
      if i == 0 && j > 0 {
        assert Mac.MacRun(g, rest[..0]) == g;
      }
    }
  }

  /** The clock is slow enough: fewer than 56 bits per half, whatever is heard. */
  predicate SlowEnough(r: Rate) {
    HALF_SIZE * (r.incr + r.adj) <= 55 * PERIOD
  }

  lemma ShippedRateIsSlowEnough(p: Phase, ss: seq<bool>)
    requires p.InRange() && |ss| <= HALF_SIZE
    ensures CHIBI.Sane() && SlowEnough(CHIBI) && |Track(p, ss, CHIBI).bits| <= 35
  {
    ShippedRate();
    BitCountBounds(p, ss, CHIBI);
    TimesMonotone(|ss|, HALF_SIZE, CHIBI.incr + CHIBI.adj);
    assert Times(HALF_SIZE, 8742) == 2237952;
  }

  lemma FewBits(p: Phase, ss: seq<bool>, r: Rate)
    requires p.InRange() && r.Sane() && SlowEnough(r) && |ss| <= HALF_SIZE
    ensures |Track(p, ss, r).bits| <= 55
  {
    BitCountBounds(p, ss, r);
    TimesMonotone(|ss|, HALF_SIZE, r.incr + r.adj);
    assert Times(HALF_SIZE, r.incr + r.adj) == HALF_SIZE * (r.incr + r.adj);
  }

  // ---- the main loop ----

  datatype Setup = Setup(size: nat, tables: Correlator.Tables, shift: nat, rate: Rate) {
    ghost predicate Sound() {
      tables.Sized(size) && rate.Sane() && SlowEnough(rate)
    }
  }

  datatype Boot = Boot(
    mac: Mac.Framer, phase: Phase, gauge: BitRate.Gauge, history: seq<int>,
    mem: Flash.Memory, astate: AppState, power: Power)
  {
    ghost predicate Sound() {
      Mac.Valid(mac) && phase.InRange()
    }
  }

  function HalfBits(c: Setup, b: Boot, half: seq<int>): Trace
    requires c.Sound() && b.Sound()
  {
    Demod.Heard(b.phase, b.history, Demod.Scaled(half, c.shift), c.size, c.tables, c.rate)
  }

  /** Scaled samples heard: their bits go to the MAC, their zeros to the bit-rate switch. */
  function AfterSamples(c: Setup, b: Boot, scaled: seq<int>): (b': Boot)
    requires c.Sound() && b.Sound()
    ensures b'.Sound()
  {
    var k := Demod.Heard(b.phase, b.history, scaled, c.size, c.tables, c.rate);
    b.(mac := Mac.MacRun(b.mac, k.bits), phase := k.now,
       gauge := BitRate.Run(b.gauge, Demod.Beats(b.history, scaled, c.size, c.tables, b.astate == Idle)),
       history := b.history + scaled)
  }

  /** One half in the demodulation buffer, and the packet it completes if any. */
  function HalfStep(c: Setup, b: Boot, half: seq<int>): (b': Boot)
    requires c.Sound() && b.Sound()
    ensures b'.Sound()
  {
    if b.power != Running then b
    else
      var heard := AfterSamples(c, b, Demod.Scaled(half, c.shift));
      if heard.mac.pktReady then HandOver(heard) else heard
  }

  function HandOver(b: Boot): (b': Boot)
    requires b.Sound()
    ensures b'.Sound()
  {
    var pkt := Frame.Stripe(b.mac.pkt);
    var out := Process(b.mem, b.astate, pkt);
    b.(mac := b.mac.(pkt := pkt, pktReady := b.mac.pktReady && out.power != Running),
       mem := Flash.ApplyAll(b.mem, out.cmds), astate := out.astate, power := out.power)
  }

  function LoopRun(c: Setup, b: Boot, halves: seq<seq<int>>): (b': Boot)
    requires c.Sound() && b.Sound()
    ensures b'.Sound()
  {
    if halves == [] then b else HalfStep(c, LoopRun(c, b, halves[..|halves| - 1]), halves[|halves| - 1])
  }

  /** Whenever the loop goes back to listening, the mailbox is empty. */
  lemma {:induction false} MailboxEmptyBetweenHalves(c: Setup, b: Boot, halves: seq<seq<int>>)
    requires c.Sound() && b.Sound() && !b.mac.pktReady
    ensures var b' := LoopRun(c, b, halves); b'.power == Running ==> !b'.mac.pktReady
  {
    hide Mac.MacRun, Mac.Valid, Process, HalfBits, Flash.ApplyAll, Frame.Stripe;
    if halves != [] {
      MailboxEmptyBetweenHalves(c, b, halves[..|halves| - 1]);
    }
  }

  /**
   The packet mailbox is never overwritten: in every run of the main loop, whatever is heard, the
   assertion guarding it holds at every bit, and a reported packet is still there, unchanged, when the
   half that completed it has been demodulated.
   */
  lemma MailboxNeverOverwritten(c: Setup, b: Boot, halves: seq<seq<int>>, half: seq<int>)
    requires c.Sound() && b.Sound() && !b.mac.pktReady && |half| == HALF_SIZE
    ensures var b' := LoopRun(c, b, halves);
      b'.power == Running ==> MailboxSafe(b'.mac, HalfBits(c, b', half).bits)
  {
    var b' := LoopRun(c, b, halves);
    hide Mac.MacRun, Track, Demod.Slices, LoopRun, MailboxSafe, Demod.Scaled;
    MailboxEmptyBetweenHalves(c, b, halves);
    if b'.power == Running {
      var scaled := Demod.Scaled(half, c.shift);
      FewBits(b'.phase, Demod.Slices(b'.history, scaled, c.size, c.tables), c.rate);
      GuardedRun(b'.mac, HalfBits(c, b', half).bits);
    }
  }

  // ---- the loop and the sample line ----

  datatype Machine = Machine(boot: Boot, line: Analog.Line) {
    ghost predicate Sound() {
      boot.Sound() && Analog.Sane(line)
    }
  }

  /** One turn of the inner loop: nothing unless the flag is set; then a half is copied, heard and acted upon. */
  function PollStep(c: Setup, m: Machine): (m': Machine)
    requires c.Sound() && m.Sound()
    ensures m'.Sound()
  {
    if m.boot.power != Running || m.line.dataReady == 0 then m
    else Machine(HalfStep(c, m.boot, Analog.Centred(Analog.Offered(m.line))), m.line.(dataReady := 0))
  }

  /** Turns of the inner loop; `batches[i]` are the samples that arrive before turn `i`. */
  function MachineRun(c: Setup, m: Machine, batches: seq<seq<int>>): (m': Machine)
    requires c.Sound() && m.Sound()
    ensures m'.Sound()
  {
    if batches == [] then m
    else
      var before := MachineRun(c, m, batches[..|batches| - 1]);
      PollStep(c, before.(line := Analog.Arrive(before.line, batches[|batches| - 1])))
  }

  /** The contents of the demodulation buffer, turn by turn, in the turns that found the flag set. */
  function Consumed(c: Setup, m: Machine, batches: seq<seq<int>>): (halves: seq<seq<int>>)
    requires c.Sound() && m.Sound()
    ensures forall i :: 0 <= i < |halves| ==> |halves[i]| == HALF_SIZE
  {
    if batches == [] then []
    else
      var before := MachineRun(c, m, batches[..|batches| - 1]);
      var line := Analog.Arrive(before.line, batches[|batches| - 1]);
      Consumed(c, m, batches[..|batches| - 1])
        + if before.boot.power != Running || line.dataReady == 0 then [] else [Analog.Centred(Analog.Offered(line))]
  }

  /** Polling turns that find no half make no difference. */
  lemma {:induction false} LoopRunsOnConsumed(c: Setup, m: Machine, batches: seq<seq<int>>)
    requires c.Sound() && m.Sound()
    ensures MachineRun(c, m, batches).boot == LoopRun(c, m.boot, Consumed(c, m, batches))
  {
    hide HalfStep, Analog.Arrive, Analog.Centred, Analog.Sane, Mac.Valid;
    if batches != [] {
      var earlier := batches[..|batches| - 1];
      LoopRunsOnConsumed(c, m, earlier);
      var before, halves := MachineRun(c, m, earlier), Consumed(c, m, earlier);
      var line := Analog.Arrive(before.line, batches[|batches| - 1]);
      if before.boot.power != Running || line.dataReady == 0 {
        assert halves + [] == halves;
      } else {
        LoopSnoc(c, m.boot, halves, Analog.Centred(Analog.Offered(line)));
      }
    }
  }

  lemma LoopSnoc(c: Setup, b: Boot, halves: seq<seq<int>>, half: seq<int>)
    requires c.Sound() && b.Sound()
    ensures LoopRun(c, b, halves + [half]) == HalfStep(c, LoopRun(c, b, halves), half)
  {
    hide HalfStep;
    assert (halves + [half])[..|halves + [half]| - 1] == halves;
  }

  // ---- the loop as an object ----

  class Bootloader {
    const line: Analog.Sampler
    const demod: Demod.Demodulator
    const mac: Mac.MacFramer
    const updater: Updater.Updater
    const dmBuf: array<int>

    ghost predicate Valid()
      reads this, line, line.mic, demod, demod.filterBuf, mac, mac.macSync, mac.pkt, updater, updater.flash
    {
      && Analog.Sane(line.State())
      && demod.Valid() && SlowEnough(demod.rate)
      && mac.WellFormed() && Mac.Valid(mac.State())
      && updater.Valid() && updater.mac == mac
      && dmBuf.Length == HALF_SIZE
      && Apart(line.mic, demod, mac, updater) && dmBuf != demod.filterBuf && dmBuf != line.mic
    }

    ghost function Config(): (c: Setup)
      requires Valid()
      reads this, line, line.mic, demod, demod.filterBuf, mac, mac.macSync, mac.pkt, updater, updater.flash
      ensures c.Sound()
    {
      Setup(demod.size, demod.tables, demod.shift, demod.rate)
    }

    ghost function State(): (b: Boot)
      requires Valid()
      reads this, line, line.mic, demod, demod.filterBuf, mac, mac.macSync, mac.pkt, updater, updater.flash
      reads updater.flash.mem
      ensures b.Sound()
    {
      Boot(mac.State(), demod.Now(), demod.Gauge(), demod.history,
           updater.flash.Contents(), updater.astate, updater.power)
    }

    ghost function Snapshot(): (m: Machine)
      requires Valid()
      reads this, line, line.mic, demod, demod.filterBuf, mac, mac.macSync, mac.pkt, updater, updater.flash
      reads updater.flash.mem
      ensures m.Sound()
    {
      Machine(State(), line.State())
    }

    constructor (line: Analog.Sampler, demod: Demod.Demodulator, mac: Mac.MacFramer, updater: Updater.Updater)
      requires Analog.Sane(line.State()) && demod.Valid() && SlowEnough(demod.rate)
      requires mac.WellFormed() && Mac.Valid(mac.State()) && updater.Valid() && updater.mac == mac
      requires Apart(line.mic, demod, mac, updater)
      ensures Valid() && fresh(dmBuf)
      ensures this.line == line && this.demod == demod && this.mac == mac && this.updater == updater
    {
      this.line := line;
      this.demod := demod;
      this.mac := mac;
      this.updater := updater;
      dmBuf := new int[HALF_SIZE](_ => 0);
    }

    /** The copy out of the double buffer. */
    method CopyHalf()
      requires Analog.Sane(line.State()) && line.bufN == dmBuf.Length && dmBuf != line.mic
      modifies dmBuf
      ensures dmBuf[..] == Analog.Centred(Analog.Offered(line.State()))
    {
      var i := 0;
      while i < line.bufN
        invariant 0 <= i <= line.bufN
        invariant forall j :: 0 <= j < i ==> dmBuf[j] == line.mic[line.bufloc + j] - 2048
      {
        dmBuf[i] := line.mic[line.bufloc + i] - 2048;
        i := i + 1;
      }
    }

    method DemodulateFrame(frame: seq<int>)
      requires Valid()
      modifies demod, demod.filterBuf, mac, mac.macSync, mac.pkt
      ensures Valid() && Config() == old(Config()) && dmBuf[..] == old(dmBuf[..]) && line.State() == old(line.State())
      ensures State() == AfterSamples(Config(), old(State()), Demod.Scaled(frame, demod.shift))
    {
      hide Demod.Heard, Demod.Beats, BitRate.Run, Demod.Scaled, Mac.MacRun, Mac.Valid, Demod.Window, Analog.Sane;
      demod.Demodulate(frame, mac, updater.astate == Idle);
    }

    /** One half, frame by frame; then the flag is cleared. */
    method PhyDemodulate()
      requires Valid()
      modifies line`dataReady, demod, demod.filterBuf, mac, mac.macSync, mac.pkt
      ensures Valid() && Config() == old(Config()) && dmBuf[..] == old(dmBuf[..])
      ensures line.State() == old(line.State()).(dataReady := 0)
      ensures State() == AfterSamples(Config(), old(State()), Demod.Scaled(dmBuf[..], demod.shift))
    {
      hide AfterSamples, Demod.Scaled, Mac.Valid, Demod.Window;
      ghost var b0, samples := State(), dmBuf[..];
      HeardNoFrame(b0, Config(), samples);
      var frames := 0;
      while frames < NB_FRAMES
        invariant 0 <= frames <= NB_FRAMES && Valid() && Config() == old(Config()) && dmBuf[..] == samples
        invariant State() == AfterFrames(Config(), b0, samples, frames) && line.State() == old(line.State())
      {
        HeardFrame(b0, Config(), samples, frames);
        DemodulateFrame(dmBuf[frames * NB_SAMPLES..(frames + 1) * NB_SAMPLES]);
        frames := frames + 1;
      }
      assert samples[..NB_FRAMES * NB_SAMPLES] == samples;
      line.dataReady := 0;
    }

    /** demod_loop, once the flag is set. */
    method HandleHalf()
      requires Valid() && updater.power == Running && !mac.pktReady && line.dataReady != 0
      modifies line`dataReady, dmBuf, demod, demod.filterBuf
      modifies mac, mac.macSync, mac.pkt, updater`astate, updater`power, updater.flash.mem, updater.flash`log
      ensures Valid() && Config() == old(Config())
      ensures Snapshot() == PollStep(Config(), old(Snapshot()))
      ensures updater.power == Running ==> !mac.pktReady
    {
      hide AfterSamples, Demod.Scaled, Mac.Valid, Demod.Window, Process, Flash.ApplyAll, Frame.Stripe;
      CopyHalf();
      PhyDemodulate();
      if mac.pktReady {
        ghost var f := mac.State();
        Frame.Unstripe(mac.pkt);
        var _ := updater.PacketProcess(mac.pkt[..]);
        OtherPacket(f, mac.pkt[..], mac.pktReady);
      }
    }

    /** Once booted or halted, the flag is no longer looked at. */
    method Poll()
      requires Valid() && (updater.power == Running ==> !mac.pktReady)
      modifies line`dataReady, dmBuf, demod, demod.filterBuf
      modifies mac, mac.macSync, mac.pkt, updater`astate, updater`power, updater.flash.mem, updater.flash`log
      ensures Valid() && Config() == old(Config())
      ensures Snapshot() == PollStep(Config(), old(Snapshot()))
      ensures updater.power == Running ==> !mac.pktReady
    {
      if updater.power == Running && line.dataReady != 0 {
        hide PollStep, HalfStep, Mac.Valid, Demod.Window;
        HandleHalf();
      }
    }

    /** The interrupt, once per sample. */
    method Receive(batch: seq<int>)
      requires Valid()
      modifies line, line.mic
      ensures Valid() && Config() == old(Config())
      ensures Snapshot() == old(Snapshot()).(line := Analog.Arrive(old(line.State()), batch))
    {
      hide Mac.Valid, Demod.Window, Analog.Sane, Analog.Isr;
      ghost var b0, l0 := State(), line.State();
      var i := 0;
      while i < |batch|
        invariant 0 <= i <= |batch| && Valid() && Config() == old(Config())
        invariant State() == b0 && line.State() == Analog.Arrive(l0, batch[..i])
      {
        Analog.ArriveNext(l0, batch, i);
        line.FastIsr(batch[i]);
        i := i + 1;
      }
      assert batch[..|batch|] == batch;
    }

    /** A finite run of the endless loop, with the samples that arrive between its turns. */
    method DemodLoop(batches: seq<seq<int>>)
      requires Valid() && !mac.pktReady
      modifies line, line.mic, dmBuf, demod, demod.filterBuf
      modifies mac, mac.macSync, mac.pkt, updater`astate, updater`power, updater.flash.mem, updater.flash`log
      ensures Valid() && Config() == old(Config())
      ensures Snapshot() == MachineRun(Config(), old(Snapshot()), batches)
      ensures State() == LoopRun(Config(), old(State()), Consumed(Config(), old(Snapshot()), batches))
    {
      ghost var m0 := Snapshot();
      hide Mac.Valid, PollStep, HalfStep, LoopRun, MachineRun, Consumed, Demod.Window, Analog.Sane, Analog.Arrive;
      ghost var c := Config();
      MachineStart(c, m0, batches);
      var i := 0;
      while i < |batches|
        invariant 0 <= i <= |batches| && Valid() && Config() == c
        invariant Snapshot() == MachineRun(c, m0, batches[..i])
        invariant updater.power == Running ==> !mac.pktReady
      {
        MachineNext(c, m0, batches, i);
        Receive(batches[i]);
        Poll();
        i := i + 1;
      }
      assert batches[..|batches|] == batches;
      LoopRunsOnConsumed(c, m0, batches);
    }
  }

  /** The sample, filter and packet buffers are different arrays. */
  ghost predicate Apart(mic: array<int>, demod: Demod.Demodulator, mac: Mac.MacFramer, updater: Updater.Updater)
    reads mac, updater
  {
    && mic != demod.filterBuf
    && mic != mac.macSync as object && mic != mac.pkt as object && mic != updater.flash.mem as object
    && demod.filterBuf != mac.macSync as object && demod.filterBuf != mac.pkt as object
    && updater.flash.mem != mac.macSync && updater.flash.mem != mac.pkt
  }

  lemma MachineStart(c: Setup, m: Machine, batches: seq<seq<int>>)
    requires c.Sound() && m.Sound()
    ensures MachineRun(c, m, batches[..0]) == m
  {
  }

  lemma MachineNext(c: Setup, m: Machine, batches: seq<seq<int>>, i: nat)
    requires c.Sound() && m.Sound() && i < |batches|
    ensures var before := MachineRun(c, m, batches[..i]);
      MachineRun(c, m, batches[..i + 1])
        == PollStep(c, before.(line := Analog.Arrive(before.line, batches[i])))
  {
    hide PollStep, Analog.Arrive, Analog.Sane, Mac.Valid;
    assert batches[..i + 1][..i] == batches[..i];
  }

  lemma OtherPacket(f: Mac.Framer, pkt: Packet, ready: bool)
    requires Mac.Valid(f)
    ensures Mac.Valid(f.(pkt := pkt, pktReady := ready))
  {
  }

  /** The loop's state after `n` frames of one half. */
  ghost function AfterFrames(c: Setup, b: Boot, samples: seq<int>, n: nat): Boot
    requires c.Sound() && b.Sound() && n * NB_SAMPLES <= |samples|
  {
    AfterSamples(c, b, Demod.Scaled(samples[..n * NB_SAMPLES], c.shift))
  }

  lemma HeardNoFrame(b: Boot, c: Setup, samples: seq<int>)
    requires c.Sound() && b.Sound()
    ensures AfterFrames(c, b, samples, 0) == b
  {
    assert samples[..0] == [];
    assert b.history + [] == b.history;
  }

  lemma AfterConcat(c: Setup, b: Boot, done: seq<int>, frame: seq<int>)
    requires c.Sound() && b.Sound()
    ensures AfterSamples(c, b, done + frame) == AfterSamples(c, AfterSamples(c, b, done), frame)
  {
    hide Demod.Heard, Demod.Beats, BitRate.Run, Mac.MacRun, Mac.Valid;
    var idle := b.astate == Idle;
    Demod.HeardConcat(b.phase, b.history, done, frame, c.size, c.tables, c.rate);
    var k := Demod.Heard(b.phase, b.history, done, c.size, c.tables, c.rate);
    Mac.MacRunConcat(b.mac, k.bits, Demod.Heard(k.now, b.history + done, frame, c.size, c.tables, c.rate).bits);
    Demod.BeatsConcat(b.history, done, frame, c.size, c.tables, idle);
    BitRate.RunConcat(b.gauge, Demod.Beats(b.history, done, c.size, c.tables, idle),
                      Demod.Beats(b.history + done, frame, c.size, c.tables, idle));
    assert b.history + (done + frame) == b.history + done + frame;
  }

  lemma HeardFrame(b: Boot, c: Setup, samples: seq<int>, n: nat)
    requires c.Sound() && b.Sound() && (n + 1) * NB_SAMPLES <= |samples|
    ensures var b' := AfterFrames(c, b, samples, n);
      var frame := Demod.Scaled(samples[n * NB_SAMPLES..(n + 1) * NB_SAMPLES], c.shift);
      && b'.Sound()
      && AfterFrames(c, b, samples, n + 1) == AfterSamples(c, b', frame)
  {
    hide AfterSamples, Correlator.Sar, Mac.Valid;
    var done := Demod.Scaled(samples[..n * NB_SAMPLES], c.shift);
    var frame := Demod.Scaled(samples[n * NB_SAMPLES..(n + 1) * NB_SAMPLES], c.shift);
    assert Demod.Scaled(samples[..(n + 1) * NB_SAMPLES], c.shift) == done + frame;
    AfterConcat(c, b, done, frame);
  }
}
