/**
 The switch between high and low bit rate: a counter of zeros looks for the pilot tone that precedes a slow
 transmission, and a timer restores the high rate while no update is going on.
 */
module BitRate {

  const RUN_THRESH := 1500
  const HOLDOVER_THRESH := 80
  const LBR_HOLDOUT := 48000

  /** `slow`: the ADC has been restarted at the low rate. */
  datatype Gauge = Gauge(run: nat, holdover: nat, lbrTime: nat, slow: bool)

  /** One sample: whether the discriminant was negative, and whether the updater was idle. */
  datatype Beat = Beat(zero: bool, idle: bool)

  /** The run of zeros, with a few ones forgiven once it is long enough; the counter has 32 bits. */
  function Count(g: Gauge, zero: bool): Gauge {
    if zero then g.(run := (g.run + 1) % 0x1_0000_0000)
    else if g.run < RUN_THRESH || g.holdover > HOLDOVER_THRESH then g.(run := 0, holdover := 0)
    else g.(holdover := g.holdover + 1)
  }

  /** The low rate is (again) selected. */
  predicate Fires(g: Gauge, zero: bool) {
    Count(g, zero).run == RUN_THRESH
  }

  function Step(g: Gauge, b: Beat): Gauge {
    var counted := Count(g, b.zero);
    var fired := if counted.run == RUN_THRESH then counted.(lbrTime := 1, slow := true) else counted;
    if !b.idle || fired.lbrTime == 0 then fired
    else if fired.lbrTime + 1 > LBR_HOLDOUT then Gauge(0, 0, 0, false)
    else fired.(lbrTime := fired.lbrTime + 1)
  }

  function Run(g: Gauge, bs: seq<Beat>): Gauge {
    if bs == [] then g else Step(Run(g, bs[..|bs| - 1]), bs[|bs| - 1])
  }

  lemma {:induction false} RunConcat(g: Gauge, a: seq<Beat>, b: seq<Beat>)
    ensures Run(g, a + b) == Run(Run(g, a), b)
    decreases |b|
  {
    hide Step;
    if b == [] {
      assert a + b == a;
    } else {
      assert (a + b)[..|a + b| - 1] == a + b[..|b| - 1];
      RunConcat(g, a, b[..|b| - 1]);
    }
  }

  // ---- the timer ----

  /** The low rate is on exactly while the timer runs, and no counter leaves its range. */
  ghost predicate Consistent(g: Gauge) {
    && (g.slow <==> g.lbrTime > 0)
    && g.lbrTime <= LBR_HOLDOUT && g.holdover <= HOLDOVER_THRESH + 1 && g.run < 0x1_0000_0000
  }

  lemma {:induction false} StaysConsistent(g: Gauge, bs: seq<Beat>)
    requires Consistent(g)
    ensures Consistent(Run(g, bs))
  {
    if bs != [] {
      StaysConsistent(g, bs[..|bs| - 1]);
    }
  }

  ghost predicate NeverFires(g: Gauge, bs: seq<Beat>) {
    forall i :: 0 <= i < |bs| ==> !Fires(Run(g, bs[..i]), bs[i].zero)
  }

  function IdleBeats(bs: seq<Beat>): nat {
    if bs == [] then 0 else IdleBeats(bs[..|bs| - 1]) + if bs[|bs| - 1].idle then 1 else 0
  }

  lemma NeverFiresPrefix(g: Gauge, bs: seq<Beat>)
    requires bs != [] && NeverFires(g, bs)
    ensures NeverFires(g, bs[..|bs| - 1]) && !Fires(Run(g, bs[..|bs| - 1]), bs[|bs| - 1].zero)
  {
    hide Fires, Run;
    var before := bs[..|bs| - 1];
    forall i | 0 <= i < |before| ensures !Fires(Run(g, before[..i]), before[i].zero) {
      assert before[..i] == bs[..i] && before[i] == bs[i];
    }
  }

  lemma {:induction false} IdleConcat(a: seq<Beat>, b: seq<Beat>)
    ensures IdleBeats(a + b) == IdleBeats(a) + IdleBeats(b)
    decreases |b|
  {
    if b == [] {
      assert a + b == a;
    } else {
      assert (a + b)[..|a + b| - 1] == a + b[..|b| - 1];
      IdleConcat(a, b[..|b| - 1]);
    }
  }

  lemma {:induction false} IdleAlike(bs: seq<Beat>, idle: bool)
    requires forall i :: 0 <= i < |bs| ==> bs[i].idle == idle
    ensures IdleBeats(bs) == if idle then |bs| else 0
  {
    if bs != [] {
      IdleAlike(bs[..|bs| - 1], idle);
    }
  }

  /**
   How long the low rate lasts: without another pilot it ends with the sample that takes the idle time past the
   holdout, and not before; time spent on an update does not count.
   */
  lemma {:induction false} LowRateLasts(g: Gauge, bs: seq<Beat>)
    requires Consistent(g) && g.slow && NeverFires(g, bs)
    ensures Run(g, bs).slow <==> g.lbrTime + IdleBeats(bs) <= LBR_HOLDOUT
    ensures Run(g, bs).slow ==> Run(g, bs).lbrTime == g.lbrTime + IdleBeats(bs)
  {
    if bs != [] {
      NeverFiresPrefix(g, bs);
      LowRateLasts(g, bs[..|bs| - 1]);
      StaysConsistent(g, bs[..|bs| - 1]);
    }
  }

  /** Counted from the sample that selects it, the low rate lasts for fewer idle samples than the holdout. */
  lemma LowRateLastsFromPilot(g: Gauge, b: Beat, bs: seq<Beat>)
    requires Consistent(g) && Fires(g, b.zero) && NeverFires(Step(g, b), bs)
    ensures Run(Step(g, b), bs).slow <==> (if b.idle then 1 else 0) + IdleBeats(bs) < LBR_HOLDOUT
  {
    StaysConsistent(g, [b]);
    OneBeat(g, b);
    hide Run, NeverFires, IdleBeats;
    LowRateLasts(Step(g, b), bs);
  }

  lemma OneBeat(g: Gauge, b: Beat)
    ensures Run(g, [b]) == Step(g, b)
  {
    hide Step;
    assert [b][..0] == [];
  }

  // ---- when the low rate is selected ----

  ghost predicate ZerosLast(bs: seq<Beat>, n: nat) {
    n <= |bs| && forall i :: |bs| - n <= i < |bs| ==> bs[i].zero
  }

  lemma CountsUp(g: Gauge, b: Beat)
    requires g.run < RUN_THRESH && !Fires(g, b.zero)
    ensures Step(g, b).run == 0 || (b.zero && Step(g, b).run == g.run + 1 < RUN_THRESH)
  {
  }

  lemma OneZeroMore(bs: seq<Beat>, n: nat)
    requires bs != [] && bs[|bs| - 1].zero && ZerosLast(bs[..|bs| - 1], n)
    ensures ZerosLast(bs, n + 1)
  {
    var before := bs[..|bs| - 1];
    forall i | |bs| - (n + 1) <= i < |bs| ensures bs[i].zero {
      assert i < |bs| - 1 ==> before[i] == bs[i];
    }
  }

  /** Until it fires, the counter counts the zeros heard last. */
  lemma {:induction false} RunIsZeros(g: Gauge, bs: seq<Beat>)
    requires g.run == 0 && NeverFires(g, bs)
    ensures Run(g, bs).run < RUN_THRESH && ZerosLast(bs, Run(g, bs).run)
  {
    if bs != [] {
      NeverFiresPrefix(g, bs);
      hide NeverFires, Step, Fires, ZerosLast;
      var before, last := bs[..|bs| - 1], bs[|bs| - 1];
      RunIsZeros(g, before);
      CountsUp(Run(g, before), last);
      if Run(g, bs).run == 0 {
        NoZeros(bs);
      } else {
        OneZeroMore(bs, Run(g, before).run);
      }
    }
  }

  lemma NoZeros(bs: seq<Beat>)
    ensures ZerosLast(bs, 0)
  {
  }

  lemma FiresFromBelow(g: Gauge, b: Beat)
    requires g.run < RUN_THRESH && Fires(g, b.zero)
    ensures b.zero && g.run == RUN_THRESH - 1
  {
  }

  /** The low rate is selected only after 1500 zeros in a row. */
  lemma FiringNeedsFullRun(g: Gauge, bs: seq<Beat>, b: Beat)
    requires g.run == 0 && NeverFires(g, bs) && Fires(Run(g, bs), b.zero)
    ensures b.zero && ZerosLast(bs, RUN_THRESH - 1)
  {
    RunIsZeros(g, bs);
    hide Run, NeverFires, Fires, ZerosLast;
    FiresFromBelow(Run(g, bs), b);
  }

  /**
   The timeout starts afresh, whatever the pilot is doing at that moment: the low rate is selected again only
   after another 1500 zeros in a row, and the next pilot counts its forgiven samples from nothing.
   */
  lemma AfreshAfterTimeout(g: Gauge, last: Beat, bs: seq<Beat>, b: Beat)
    requires Consistent(g) && g.slow && !Step(g, last).slow
    ensures var r := Step(g, last);
      NeverFires(r, bs) && Fires(Run(r, bs), b.zero) ==> b.zero && ZerosLast(bs, RUN_THRESH - 1)
    ensures var r := Step(g, last);
      OnePilot(r, bs) && |bs| >= RUN_THRESH ==>
        && 1 <= Firings(r, bs) <= HOLDOVER_THRESH + 2
        && (Firings(r, bs) == 1 <==> |bs| == RUN_THRESH || bs[RUN_THRESH].zero)
  {
    var r := Step(g, last);
    assert r.run == 0 && r.holdover == 0;
    hide Step, Run, NeverFires, Fires, OnePilot, Firings, ZerosLast;
    if NeverFires(r, bs) && Fires(Run(r, bs), b.zero) {
      FiringNeedsFullRun(r, bs, b);
    }
    if OnePilot(r, bs) && |bs| >= RUN_THRESH {
      OncePerPilotExactly(r, bs);
    }
  }

  // ---- one pilot tone ----

  /** No sample of `bs` takes the counter back to zero. */
  ghost predicate OnePilot(g: Gauge, bs: seq<Beat>) {
    forall i :: 0 < i <= |bs| ==> Run(g, bs[..i]).run != 0
  }

  /** How often the low rate is selected. */
  function Firings(g: Gauge, bs: seq<Beat>): nat {
    if bs == [] then 0
    else
      var before := bs[..|bs| - 1];
      Firings(g, before) + if Fires(Run(g, before), bs[|bs| - 1].zero) then 1 else 0
  }

  lemma OnePilotPrefix(g: Gauge, bs: seq<Beat>)
    requires bs != [] && OnePilot(g, bs)
    ensures OnePilot(g, bs[..|bs| - 1]) && Run(g, bs).run != 0
  {
    hide Run;
    var before := bs[..|bs| - 1];
    forall i | 0 < i <= |before| ensures Run(g, before[..i]).run != 0 {
      assert before[..i] == bs[..i];
    }
    assert bs[..|bs|] == bs;
  }

  /** A sample that does not end the pilot either lengthens the run or is forgiven. */
  lemma PilotStep(g: Gauge, b: Beat)
    requires Step(g, b).run != 0 && g.run < 0x1_0000_0000
    ensures b.zero ==> Step(g, b).run == g.run + 1 < 0x1_0000_0000 && Step(g, b).holdover == g.holdover
    ensures !b.zero ==>
      && g.run >= RUN_THRESH && Step(g, b).run == g.run
      && Step(g, b).holdover == g.holdover + 1 <= HOLDOVER_THRESH + 1
    ensures Fires(g, b.zero) <==> Step(g, b).run == RUN_THRESH
  {
  }

  /** What is known of the counters after part of one pilot. */
  lemma {:induction false} PilotCounts(g: Gauge, bs: seq<Beat>)
    requires g.run == 0 && g.holdover == 0 && OnePilot(g, bs)
    ensures var r, n := Run(g, bs), |bs|;
      && r.run < 0x1_0000_0000
      && (n <= RUN_THRESH ==> r.run == n && r.holdover == 0)
      && (n >= RUN_THRESH ==> r.run >= RUN_THRESH && r.holdover <= HOLDOVER_THRESH + 1)
      && (n > RUN_THRESH ==> (r.run == RUN_THRESH ==> r.holdover > 0 && !bs[RUN_THRESH].zero))
      && (n > RUN_THRESH && !bs[RUN_THRESH].zero ==> r.holdover > 0)
  {
    if bs != [] {
      hide Step, OnePilot;
      OnePilotPrefix(g, bs);
      PilotCounts(g, bs[..|bs| - 1]);
      PilotStep(Run(g, bs[..|bs| - 1]), bs[|bs| - 1]);
    }
  }

  lemma {:induction false} PilotFirings(g: Gauge, bs: seq<Beat>)
    requires g.run == 0 && g.holdover == 0 && OnePilot(g, bs)
    ensures var r, n, k := Run(g, bs), |bs|, Firings(g, bs);
      && (n < RUN_THRESH ==> k == 0)
      && (n >= RUN_THRESH && r.run == RUN_THRESH ==> k == 1 + r.holdover)
      && (n >= RUN_THRESH && r.run > RUN_THRESH ==> 1 <= k <= 1 + r.holdover)
      && (n > RUN_THRESH ==> (k == 1 <==> bs[RUN_THRESH].zero))
  {
    if bs != [] {
      hide Step, OnePilot, Fires;
      OnePilotPrefix(g, bs);
      PilotCounts(g, bs);
      PilotCounts(g, bs[..|bs| - 1]);
      PilotStep(Run(g, bs[..|bs| - 1]), bs[|bs| - 1]);
      PilotFirings(g, bs[..|bs| - 1]);
    }
  }

  /**
   One pilot selects the low rate at least once and at most 82 times; once exactly, as the design has it, if and
   only if the sample after the threshold is again a zero (or nothing has followed yet).
   */
  lemma OncePerPilotExactly(g: Gauge, bs: seq<Beat>)
    requires g.run == 0 && g.holdover == 0 && OnePilot(g, bs) && |bs| >= RUN_THRESH
    ensures 1 <= Firings(g, bs) <= HOLDOVER_THRESH + 2
    ensures Firings(g, bs) == 1 <==> |bs| == RUN_THRESH || bs[RUN_THRESH].zero
  {
    hide Run, Firings;
    PilotCounts(g, bs);
    PilotFirings(g, bs);
  }

  function Zeros(n: nat): seq<Beat> {
    seq(n, i requires 0 <= i < n => Beat(true, false))
  }

  lemma OnePilotNext(g: Gauge, bs: seq<Beat>, b: Beat)
    requires OnePilot(g, bs) && Step(Run(g, bs), b).run != 0
    ensures OnePilot(g, bs + [b]) && Run(g, bs + [b]) == Step(Run(g, bs), b)
  {
    hide Step;
    var longer := bs + [b];
    assert longer[..|longer| - 1] == bs;
    forall i | 0 < i <= |longer| ensures Run(g, longer[..i]).run != 0 {
      if i <= |bs| {
        assert longer[..i] == bs[..i];
      } else {
        assert longer[..i] == longer;
      }
    }
  }

  const POWER_ON := Gauge(0, 0, 0, false)

  lemma CountZero(g: Gauge)
    requires g.run < RUN_THRESH && g.holdover == 0
    ensures Step(g, Beat(true, false)).run == g.run + 1 && Step(g, Beat(true, false)).holdover == 0
  {
  }

  lemma ZerosNext(n: nat)
    ensures Zeros(n + 1) == Zeros(n) + [Beat(true, false)]
  {
  }

  lemma NoBeatsYet(g: Gauge)
    ensures Run(g, Zeros(0)) == g && OnePilot(g, Zeros(0))
  {
  }

  lemma {:induction false} ZerosCounted(n: nat)
    requires n <= RUN_THRESH
    ensures var r := Run(POWER_ON, Zeros(n)); r.run == n && r.holdover == 0
    ensures OnePilot(POWER_ON, Zeros(n))
  {
    hide OnePilot, Run, Step, Zeros;
    if n == 0 {
      NoBeatsYet(POWER_ON);
    } else {
      ZerosCounted(n - 1);
      CountZero(Run(POWER_ON, Zeros(n - 1)));
      OnePilotNext(POWER_ON, Zeros(n - 1), Beat(true, false));
      ZerosNext(n - 1);
    }
  }

  function Ones(n: nat): seq<Beat> {
    seq(n, i requires 0 <= i < n => Beat(false, false))
  }

  lemma {:induction false} OnesForgiven(k: nat)
    requires k <= HOLDOVER_THRESH + 1
    ensures var g, bs := POWER_ON, Zeros(RUN_THRESH) + Ones(k);
      && OnePilot(g, bs) && Run(g, bs).run == RUN_THRESH && Run(g, bs).holdover == k && Firings(g, bs) == k + 1
  {
    var g, zeros := POWER_ON, Zeros(RUN_THRESH);
    if k == 0 {
      assert zeros + Ones(0) == zeros;
      hide OnePilot, Run, Step, Firings;
      ZerosCounted(RUN_THRESH);
      PilotFirings(g, zeros);
    } else {
      var before, one := zeros + Ones(k - 1), Beat(false, false);
      assert zeros + Ones(k) == before + [one];
      hide OnePilot, Run, Firings;
      OnesForgiven(k - 1);
      OnePilotNext(g, before, one);
      PilotFirings(g, before + [one]);
    }
  }

  /** After the threshold a pilot survives exactly 81 samples that are no zeros; each selects the low rate again. */
  lemma ForgivesExactly(k: nat)
    ensures var g, bs := POWER_ON, Zeros(RUN_THRESH) + Ones(k);
      && (OnePilot(g, bs) <==> k <= HOLDOVER_THRESH + 1)
      && (k <= HOLDOVER_THRESH + 1 ==> Firings(g, bs) == k + 1)
  {
    hide Run, Firings, OnePilot;
    if k <= HOLDOVER_THRESH + 1 {
      OnesForgiven(k);
    } else {
      OneTooMany(k);
    }
  }

  lemma OneTooMany(k: nat)
    requires k > HOLDOVER_THRESH + 1
    ensures !OnePilot(POWER_ON, Zeros(RUN_THRESH) + Ones(k))
  {
    var g, n, one := POWER_ON, HOLDOVER_THRESH + 1, Beat(false, false);
    var before, bs := Zeros(RUN_THRESH) + Ones(n), Zeros(RUN_THRESH) + Ones(k);
    assert bs[..|before| + 1] == before + [one];
    assert (before + [one])[..|before|] == before;
    hide OnePilot;
    OnesForgiven(n);
    assert Run(g, before + [one]) == Step(Run(g, before), one);
    hide Run;
    assert Run(g, bs[..|before| + 1]).run == 0;
    NotOnePilot(g, bs, |before| + 1);
  }

  lemma NotOnePilot(g: Gauge, bs: seq<Beat>, i: nat)
    requires 0 < i <= |bs| && Run(g, bs[..i]).run == 0
    ensures !OnePilot(g, bs)
  {
    hide Run;
  }

  /** A pilot on which "exactly once" fails: one sample that is not a zero, right after the threshold. */
  lemma FiresTwice()
    ensures var g, bs := POWER_ON, Zeros(RUN_THRESH) + [Beat(false, false)];
      OnePilot(g, bs) && Firings(g, bs) > 1
  {
    var g, zeros := POWER_ON, Zeros(RUN_THRESH);
    hide OnePilot, Run;
    ZerosCounted(RUN_THRESH);
    OnePilotNext(g, zeros, Beat(false, false));
    OncePerPilotExactly(g, zeros + [Beat(false, false)]);
  }

  // ---- every pilot is the first ----

  /** Nothing is forgiven before the threshold. */
  ghost predicate Unforgiving(g: Gauge, heard: nat) {
    g.run <= heard && (g.run < RUN_THRESH ==> g.holdover == 0) && g.holdover <= HOLDOVER_THRESH + 1
  }

  lemma StaysUnforgiving(g: Gauge, b: Beat, heard: nat)
    requires Unforgiving(g, heard) && heard + 1 < 0x1_0000_0000
    ensures Unforgiving(Step(g, b), heard + 1)
  {
  }

  lemma {:induction false} AlwaysUnforgiving(bs: seq<Beat>)
    requires |bs| < 0x1_0000_0000
    ensures Unforgiving(Run(POWER_ON, bs), |bs|)
  {
    if bs != [] {
      hide Step, Unforgiving;
      AlwaysUnforgiving(bs[..|bs| - 1]);
      StaysUnforgiving(Run(POWER_ON, bs[..|bs| - 1]), bs[|bs| - 1], |bs| - 1);
    }
  }

  /**
   Whatever has been heard since power-on (for fewer than 2^32 samples), a pilot that begins now selects the low
   rate as often as the first one would.
   */
  lemma EveryPilotAlike(bs: seq<Beat>, pilot: seq<Beat>)
    requires |bs| < 0x1_0000_0000 && Run(POWER_ON, bs).run == 0
    requires OnePilot(Run(POWER_ON, bs), pilot) && |pilot| >= RUN_THRESH
    ensures 1 <= Firings(Run(POWER_ON, bs), pilot) <= HOLDOVER_THRESH + 2
    ensures Firings(Run(POWER_ON, bs), pilot) == 1 <==> |pilot| == RUN_THRESH || pilot[RUN_THRESH].zero
  {
    hide Run, OnePilot, Firings;
    AlwaysUnforgiving(bs);
    OncePerPilotExactly(Run(POWER_ON, bs), pilot);
  }
}
