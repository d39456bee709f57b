/**
 The main loop over time: the bit-rate switch over many halves, and the polling that turns a stream of samples
 into halves.
 */
module LoopRuns {
  import opened Protocol
  import opened Pipeline
  import opened EndToEnd
  import Analog
  import BitRate
  import Correlator
  import Demod
  import Mac

  // ---- the bit-rate switch ----

  /** What the switch sees over a run of the loop: the updater's state is looked at anew for every half. */
  function LoopBeats(c: Setup, b: Boot, halves: seq<seq<int>>): seq<BitRate.Beat>
    requires c.Sound() && b.Sound()
  {
    if halves == [] then []
    else
      var earlier, half := halves[..|halves| - 1], halves[|halves| - 1];
      var r := LoopRun(c, b, earlier);
      LoopBeats(c, b, earlier)
        + if r.power != Running then []
          else Demod.Beats(r.history, Demod.Scaled(half, c.shift), c.size, c.tables, r.astate == Idle)
  }

  /** Halves heard while the updater was idle. */
  function IdleHalves(c: Setup, b: Boot, halves: seq<seq<int>>): nat
    requires c.Sound() && b.Sound()
  {
    if halves == [] then 0
    else
      var earlier := halves[..|halves| - 1];
      var r := LoopRun(c, b, earlier);
      IdleHalves(c, b, earlier) + if r.power == Running && r.astate == Idle then 1 else 0
  }

  lemma HalfGauge(c: Setup, b: Boot, half: seq<int>)
    requires c.Sound() && b.Sound()
    ensures var scaled := Demod.Scaled(half, c.shift);
      HalfStep(c, b, half).gauge
        == if b.power != Running then b.gauge
           else BitRate.Run(b.gauge, Demod.Beats(b.history, scaled, c.size, c.tables, b.astate == Idle))
  {
    hide Demod.Heard, Demod.Scaled, Demod.Beats, BitRate.Run, Mac.MacRun, Mac.Valid, Process;
  }

  lemma MoreBeats(c: Setup, r: Boot, half: seq<int>)
    requires c.Sound()
    ensures var bs := Demod.Beats(r.history, Demod.Scaled(half, c.shift), c.size, c.tables, r.astate == Idle);
      forall i :: 0 <= i < |bs| ==> bs[i].idle == (r.astate == Idle)
  {
    var scaled := Demod.Scaled(half, c.shift);
    hide Demod.Beats, Demod.Scaled;
    var bs := Demod.Beats(r.history, scaled, c.size, c.tables, r.astate == Idle);
    forall i | 0 <= i < |bs| ensures bs[i].idle == (r.astate == Idle) {
      Demod.BeatsAt(r.history, scaled, c.size, c.tables, r.astate == Idle, i);
    }
  }

  lemma {:induction false} LoopGauge(c: Setup, b: Boot, halves: seq<seq<int>>)
    requires c.Sound() && b.Sound() && forall i :: 0 <= i < |halves| ==> |halves[i]| == HALF_SIZE
    ensures LoopRun(c, b, halves).gauge == BitRate.Run(b.gauge, LoopBeats(c, b, halves))
    ensures BitRate.IdleBeats(LoopBeats(c, b, halves)) == HALF_SIZE * IdleHalves(c, b, halves)
  {
    hide HalfStep, Mac.Valid, BitRate.Step, Demod.Scaled, Demod.Beats;
    if halves != [] {
      var earlier, half := halves[..|halves| - 1], halves[|halves| - 1];
      var r := LoopRun(c, b, earlier);
      LoopGauge(c, b, earlier);
      HalfGauge(c, r, half);
      var more := LoopBeats(c, b, halves)[|LoopBeats(c, b, earlier)|..];
      assert LoopBeats(c, b, halves) == LoopBeats(c, b, earlier) + more;
      BitRate.RunConcat(b.gauge, LoopBeats(c, b, earlier), more);
      BitRate.IdleConcat(LoopBeats(c, b, earlier), more);
      if r.power == Running {
        MoreBeats(c, r, half);
      }
      BitRate.IdleAlike(more, r.power == Running && r.astate == Idle);
    }
  }

  /**
   The low rate over the life of the loop: without another pilot it ends with the half that takes the time
   spent idle past the holdout, and the timer stands still through every half heard during an update.
   */
  lemma LowRateLastsInLoop(c: Setup, b: Boot, halves: seq<seq<int>>)
    requires c.Sound() && b.Sound() && forall i :: 0 <= i < |halves| ==> |halves[i]| == HALF_SIZE
    requires BitRate.Consistent(b.gauge) && b.gauge.slow && BitRate.NeverFires(b.gauge, LoopBeats(c, b, halves))
    ensures LoopRun(c, b, halves).gauge.slow
      <==> b.gauge.lbrTime + HALF_SIZE * IdleHalves(c, b, halves) <= BitRate.LBR_HOLDOUT
  {
    hide LoopRun, LoopBeats, IdleHalves, BitRate.Run, BitRate.NeverFires, BitRate.IdleBeats, Mac.Valid;
    LoopGauge(c, b, halves);
    BitRate.LowRateLasts(b.gauge, LoopBeats(c, b, halves));
  }

  // ---- from the converter to 32 bits ----

  /** Whatever the 12-bit converter delivers, once centred no decision overflows. */
  lemma ConverterFits(raw: seq<int>, size: nat, t: Correlator.Tables, shift: nat)
    requires t.Sized(size) && size < 8192 && Correlator.ScalesFor(size, shift)
    requires forall i :: 0 <= i < |raw| ==> 0 <= raw[i] < 4096
    requires Correlator.Coefficients(t.hiI) && Correlator.Coefficients(t.hiQ)
    requires Correlator.Coefficients(t.loI) && Correlator.Coefficients(t.loQ)
    ensures var w := Demod.Window(size, Demod.Scaled(Analog.Centred(raw), shift));
      -Correlator.INT32_MAX <= Correlator.Discriminant(w, t) <= Correlator.INT32_MAX
  {
    hide Correlator.Discriminant, Correlator.Coefficients, Correlator.ScalesFor, Demod.Window, Demod.Scaled;
    Demod.EveryDecisionFits(Analog.Centred(raw), size, t, shift);
  }

  // ---- polling ----

  /** Between turns: the line, what has arrived, and what has been taken. */
  function Between(line: Analog.Line, stream: seq<int>, taken: seq<int>): Analog.System {
    Analog.System(line, Analog.Polling, Demod.Quiet(HALF_SIZE), stream, taken)
  }

  /** Nothing has been lost so far, and nothing is half copied. */
  ghost predicate Ready(line: Analog.Line, x: seq<int>, taken: seq<int>) {
    Analog.Inv(Between(line, x, taken), x)
  }

  /** At most one half of samples arrives: nothing is published late. */
  lemma {:induction false} BatchArrives(line: Analog.Line, x: seq<int>, taken: seq<int>, batch: seq<int>)
    requires Analog.Sane(line) && Ready(line, x, taken) && |x| + |batch| < |taken| + Analog.MIC_SAMPLE_DEPTH
    ensures Ready(Analog.Arrive(line, batch), x + batch, taken)
    decreases |batch|
  {
    hide Ready, Analog.Isr, Analog.Sane, Analog.Arrive;
    if batch == [] {
      NoArrival(line, x);
    } else {
      var n := |batch| - 1;
      BatchArrives(line, x, taken, batch[..n]);
      SampleArrives(Analog.Arrive(line, batch[..n]), x + batch[..n], taken, batch[n]);
      ArriveLast(line, batch);
      assert x + batch[..n] + [batch[n]] == x + batch;
    }
  }

  lemma NoArrival(line: Analog.Line, x: seq<int>)
    requires Analog.Sane(line)
    ensures Analog.Arrive(line, []) == line && x + [] == x
  {
  }

  lemma ArriveLast(line: Analog.Line, batch: seq<int>)
    requires Analog.Sane(line) && batch != []
    ensures var n := |batch| - 1; Analog.Arrive(line, batch) == Analog.Isr(Analog.Arrive(line, batch[..n]), batch[n])
  {
    hide Analog.Isr;
  }

  lemma SampleArrives(line: Analog.Line, x: seq<int>, taken: seq<int>, sample: int)
    requires Analog.Sane(line) && Ready(line, x, taken) && |x| + 1 < |taken| + Analog.MIC_SAMPLE_DEPTH
    ensures Ready(Analog.Isr(line, sample), x + [sample], taken)
  {
    var s := Between(line, x, taken);
    NotLate(line, x, taken, sample);
    Analog.OnTimeKeepsInv(s, x, sample);
  }

  lemma NotLate(line: Analog.Line, x: seq<int>, taken: seq<int>, sample: int)
    requires Ready(line, x, taken) && |x| + 1 < |taken| + Analog.MIC_SAMPLE_DEPTH
    ensures !Analog.Late(Between(line, x, taken), Analog.Sample(sample))
  {
    Analog.Arrival(Between(line, x, taken), x, sample);
    hide Analog.RingHolds, Analog.Centred, Analog.RingAt, Analog.Whole, Analog.Aligned, Analog.Isr;
  }

  lemma OfferIsNext(line: Analog.Line, x: seq<int>, taken: seq<int>)
    requires Analog.Sane(line) && Ready(line, x, taken) && line.dataReady != 0
    ensures |taken| + Analog.HALF_DEPTH <= |x| < |taken| + Analog.MIC_SAMPLE_DEPTH
    ensures Analog.Offered(line) == x[|taken|..|taken| + Analog.HALF_DEPTH]
  {
    hide Analog.Centred, Analog.RingAt, Analog.Whole, Analog.Aligned;
    var c := |taken|;
    var half := Analog.Offered(line);
    forall j | 0 <= j < Analog.HALF_DEPTH ensures half[j] == x[c + j] {
      Analog.Slot(c, j);
      assert line.mic[Analog.RingAt(c + j)] == x[c + j];
    }
  }

  /** Taking the half on offer takes the next 256 samples of the stream. */
  lemma HalfTaken(line: Analog.Line, x: seq<int>, taken: seq<int>)
    requires Analog.Sane(line) && Ready(line, x, taken) && line.dataReady != 0
    ensures var half := Analog.Centred(Analog.Offered(line));
      Ready(line.(dataReady := 0), x, taken + half)
  {
    OfferIsNext(line, x, taken);
    Analog.CentredConcat(x, |taken|);
    Analog.WholeSums(|taken|, 0);
    hide Analog.Centred, Analog.RingAt, Analog.Whole, Analog.Offered;
  }

  // ---- polled in time, the loop hears the stream ----

  /** A line that starts empty, and turns close enough together. */
  ghost predicate Prompt(line: Analog.Line, batches: seq<seq<int>>) {
    && Analog.Sane(line) && line.index == 0 && line.dataReady == 0
    && forall i :: 0 <= i < |batches| ==> |batches[i]| <= HALF_SIZE
  }

  lemma {:induction false} Polled(c: Setup, m: Machine, batches: seq<seq<int>>)
    requires c.Sound() && m.Sound() && Prompt(m.line, batches)
    ensures var r := MachineRun(c, m, batches);
      r.boot.power == Running ==>
        && Ready(r.line, Joined(batches), Joined(Consumed(c, m, batches)))
        && r.line.dataReady == 0
  {
    hide Ready, Analog.Arrive, Analog.Centred, HalfStep, Mac.Valid, Analog.Sane;
    if batches == [] {
      NothingArrived(m.line);
    } else {
      var n := |batches| - 1;
      Polled(c, m, batches[..n]);
      var before := MachineRun(c, m, batches[..n]);
      var x, taken := Joined(batches[..n]), Joined(Consumed(c, m, batches[..n]));
      if before.boot.power == Running {
        NotWaiting(before.line, x, taken);
        BatchArrives(before.line, x, taken, batches[n]);
        var line := Analog.Arrive(before.line, batches[n]);
        if line.dataReady != 0 {
          HalfTaken(line, x + batches[n], taken);
          ConsumedNext(Consumed(c, m, batches[..n]), Analog.Centred(Analog.Offered(line)));
        } else {
          assert Consumed(c, m, batches[..n]) + [] == Consumed(c, m, batches[..n]);
          assert Consumed(c, m, batches) == Consumed(c, m, batches[..n]);
        }
      }
    }
  }

  lemma NothingArrived(line: Analog.Line)
    requires Analog.Sane(line) && line.index == 0 && line.dataReady == 0
    ensures Ready(line, [], [])
  {
    Analog.FreshInv(Between(line, [], []));
  }

  lemma NotWaiting(line: Analog.Line, x: seq<int>, taken: seq<int>)
    requires Ready(line, x, taken) && line.dataReady == 0
    ensures |taken| <= |x| < |taken| + Analog.HALF_DEPTH
    ensures taken == Analog.Centred(x[..|taken|]) && |taken| % HALF_SIZE == 0
  {
    hide Analog.Centred, Analog.RingHolds;
  }

  lemma ConsumedNext(halves: seq<seq<int>>, half: seq<int>)
    ensures Joined(halves + [half]) == Joined(halves) + half
  {
    assert (halves + [half])[..|halves + [half]| - 1] == halves;
  }

  lemma {:induction false} HalvesJoined(halves: seq<seq<int>>)
    requires forall i :: 0 <= i < |halves| ==> |halves[i]| == HALF_SIZE
    ensures |Joined(halves)| == HALF_SIZE * |halves| && HalvesOf(Joined(halves)) == halves
  {
    if halves != [] {
      var n := |halves| - 1;
      HalvesJoined(halves[..n]);
      assert halves == halves[..n] + [halves[n]];
      HalvesNext(Joined(halves[..n]), halves[n]);
    } else {
      NoHalves();
    }
  }

  /**
   Polling in time: with at most 256 samples arriving between two turns, a loop that is still running has done to
   the stream of samples what the loop function does to its consecutive halves, centred, and is less than a half behind.
   */
  lemma PolledLoopHearsStream(c: Setup, m: Machine, batches: seq<seq<int>>)
    requires c.Sound() && m.Sound() && Prompt(m.line, batches) && MachineRun(c, m, batches).boot.power == Running
    ensures var x := Joined(batches);
      exists k :: k <= |x| < k + HALF_SIZE && k % HALF_SIZE == 0
        && MachineRun(c, m, batches).boot == LoopRun(c, m.boot, HalvesOf(Analog.Centred(x[..k])))
  {
    var x, halves := Joined(batches), Consumed(c, m, batches);
    hide Ready, Analog.Centred, Consumed, MachineRun, LoopRun, Joined, HalvesOf, Mac.Valid, Analog.Sane;
    Polled(c, m, batches);
    NotWaiting(MachineRun(c, m, batches).line, x, Joined(halves));
    HalvesJoined(halves);
    LoopRunsOnConsumed(c, m, batches);
  }
}
