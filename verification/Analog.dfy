/** The double-buffered sample line: the ADC interrupt on one side, the main loop's copy on the other. */
module Analog {

  const HALF_DEPTH := 256
  const MIC_SAMPLE_DEPTH := 512

  // ---- the interrupt ----

  datatype Line = Line(mic: seq<int>, index: nat, bufloc: nat, bufN: nat, dataReady: nat)

  ghost predicate Sane(l: Line) {
    && |l.mic| == MIC_SAMPLE_DEPTH && l.index < MIC_SAMPLE_DEPTH && l.dataReady < 256
    && (l.bufloc == 0 || l.bufloc == HALF_DEPTH) && (l.bufN == 0 || l.bufN == HALF_DEPTH)
    && (l.dataReady != 0 ==> l.bufN == HALF_DEPTH)
  }

  /** The next sample fills a half. */
  predicate Publishes(l: Line) {
    l.index + 1 == MIC_SAMPLE_DEPTH || l.index + 1 == HALF_DEPTH
  }

  /** `dataReadyFlag` is an 8-bit counter. */
  function Isr(l: Line, x: int): (r: Line)
    requires Sane(l)
    ensures Sane(r)
  {
    var mic := l.mic[l.index := x];
    if l.index + 1 == MIC_SAMPLE_DEPTH then Line(mic, 0, HALF_DEPTH, HALF_DEPTH, (l.dataReady + 1) % 256)
    else if l.index + 1 == HALF_DEPTH then Line(mic, l.index + 1, 0, HALF_DEPTH, (l.dataReady + 1) % 256)
    else Line(mic, l.index + 1, l.bufloc, l.bufN, l.dataReady)
  }

  /** Samples arriving one after another. */
  function Arrive(l: Line, xs: seq<int>): (r: Line)
    requires Sane(l)
    ensures Sane(r)
  {
    if xs == [] then l else Isr(Arrive(l, xs[..|xs| - 1]), xs[|xs| - 1])
  }

  lemma ArriveNext(l: Line, xs: seq<int>, i: nat)
    requires Sane(l) && i < |xs|
    ensures Arrive(l, xs[..0]) == l
    ensures Arrive(l, xs[..i + 1]) == Isr(Arrive(l, xs[..i]), xs[i])
  {
    hide Isr;
    assert xs[..i + 1][..i] == xs[..i];
  }

  /** The half that the line points its consumer at. */
  function Offered(l: Line): (half: seq<int>)
    requires Sane(l)
    ensures |half| == l.bufN
  {
    l.mic[l.bufloc..l.bufloc + l.bufN]
  }

  class Sampler {
    const mic: array<int>
    var index: nat
    var bufloc: nat
    var bufN: nat
    var dataReady: nat

    ghost function State(): Line
      reads this, mic
    {
      Line(mic[..], index, bufloc, bufN, dataReady)
    }

    constructor ()
      ensures Sane(State()) && fresh(mic) && index == 0 && dataReady == 0
    {
      mic := new int[MIC_SAMPLE_DEPTH](_ => 0);
      index, bufloc, bufN, dataReady := 0, 0, 0, 0;
    }

    method FastIsr(sample: int)
      requires Sane(State())
      modifies this, mic
      ensures State() == Isr(old(State()), sample)
    {
      mic[index] := sample;
      index := index + 1;
      if index == MIC_SAMPLE_DEPTH {
        var half := MIC_SAMPLE_DEPTH / 2;
        bufloc := half * 1;
        bufN := half;
        index := 0;
        dataReady := (dataReady + 1) % 256;
      } else if index == MIC_SAMPLE_DEPTH / 2 {
        bufloc := 0;
        bufN := MIC_SAMPLE_DEPTH / 2;
        dataReady := (dataReady + 1) % 256;
      }
    }
  }

  // ---- interrupt and consumer, interleaved ----

  /** Where the main loop is: polling the flag, copying sample `i`, or demodulating the copy. */
  datatype Consumer = Polling | Copying(i: nat) | Demodulating

  datatype System = System(line: Line, consumer: Consumer, dmBuf: seq<int>, stream: seq<int>, delivered: seq<int>)

  datatype Action = Sample(x: int) | Proceed

  function Next(s: System, a: Action): System
    requires Sane(s.line) && |s.dmBuf| == HALF_DEPTH
  {
    match a
    case Sample(x) => s.(line := Isr(s.line, x), stream := s.stream + [x])
    case Proceed =>
      match s.consumer
      case Polling => if s.line.dataReady == 0 then s else s.(consumer := Copying(0))
      case Copying(i) =>
        if i < s.line.bufN && i < HALF_DEPTH
        then s.(dmBuf := s.dmBuf[i := s.line.mic[s.line.bufloc + i] - 2048], consumer := Copying(i + 1))
        else s.(delivered := s.delivered + s.dmBuf, consumer := Demodulating)
      case Demodulating => s.(line := s.line.(dataReady := 0), consumer := Polling)
  }

  ghost predicate Fresh(s: System) {
    && Sane(s.line) && |s.dmBuf| == HALF_DEPTH
    && s.line.index == 0 && s.line.dataReady == 0 && s.consumer == Polling && s.stream == [] && s.delivered == []
  }

  function Centred(x: seq<int>): (r: seq<int>)
    ensures |r| == |x|
  {
    seq(|x|, i requires 0 <= i < |x| => x[i] - 2048)
  }

  /** A whole number of halves. */
  predicate Whole(n: nat) {
    n % HALF_DEPTH == 0
  }

  /** Where sample `n` of the stream goes in the ring. */
  function RingAt(n: nat): nat {
    n % MIC_SAMPLE_DEPTH
  }

  lemma WholeSums(a: nat, b: nat)
    requires Whole(a) && Whole(b)
    ensures Whole(a + b) && Whole(a + HALF_DEPTH) && Whole(a + MIC_SAMPLE_DEPTH)
  {
  }

  /** The ring holds the newest samples. */
  ghost predicate RingHolds(s: System)
    requires |s.line.mic| == MIC_SAMPLE_DEPTH
  {
    && s.line.index == RingAt(|s.stream|)
    && forall k :: 0 <= k < |s.stream| && k + MIC_SAMPLE_DEPTH >= |s.stream| ==>
         s.line.mic[RingAt(k)] == s.stream[k]
  }

  // ---- what survives ----

  /** Where in the surviving samples the consumer's next read falls. */
  function Front(s: System): nat {
    |s.delivered| + if s.consumer.Copying? then s.consumer.i else 0
  }

  /** The line publishes a half while the consumer still owes something to the one before. */
  predicate Late(s: System, a: Action) {
    a.Sample? && Publishes(s.line) && (s.consumer != Polling || s.line.dataReady != 0)
  }

  /** The late publication that takes the 8-bit counter from 255 back to 0: the flag reads as clear. */
  predicate Wraps(s: System, a: Action) {
    Late(s, a) && s.consumer == Polling && s.line.dataReady == 255
  }

  function Cut(x: seq<int>, at: nat): seq<int> {
    if at + HALF_DEPTH <= |x| then x[..at] + x[at + HALF_DEPTH..] else x
  }

  /** The samples that have been or will be delivered, given those before `a`. */
  function Surviving(s: System, kept: seq<int>, a: Action): seq<int> {
    match a
    case Proceed => kept
    case Sample(x) =>
      if Wraps(s, a) then Cut(Cut(kept + [x], Front(s)), Front(s))
      else if Late(s, a) then Cut(kept + [x], Front(s))
      else kept + [x]
  }

  /** A half is on offer or being copied. */
  predicate Waiting(s: System) {
    s.consumer.Copying? || (s.consumer.Polling? && s.line.dataReady != 0)
  }

  ghost predicate Inv(s: System, kept: seq<int>) {
    && Sane(s.line) && |s.dmBuf| == HALF_DEPTH && RingHolds(s)
    && |s.delivered| <= |kept| <= |s.stream| && Whole(|s.delivered|) && Whole(|s.stream| - |kept|)
    && s.delivered == Centred(kept[..|s.delivered|])
    && Aligned(s, kept)
    && if !Waiting(s) then |kept| < |s.delivered| + HALF_DEPTH else OnOffer(s, kept)
  }

  /** From the consumer's next read on, the surviving samples are the newest of the stream. */
  ghost predicate Aligned(s: System, kept: seq<int>)
    requires |kept| <= |s.stream|
  {
    forall j :: Front(s) <= j < |kept| ==> kept[j] == s.stream[j + (|s.stream| - |kept|)]
  }

  ghost predicate OnOffer(s: System, kept: seq<int>)
    requires |s.dmBuf| == HALF_DEPTH && |kept| <= |s.stream|
  {
    var c := |s.delivered|;
    && c + HALF_DEPTH <= |kept| < c + MIC_SAMPLE_DEPTH
    && s.line.bufN == HALF_DEPTH && s.line.bufloc == RingAt(c + |s.stream| - |kept|)
    && (s.consumer.Copying? ==>
          s.consumer.i <= HALF_DEPTH && forall j :: 0 <= j < s.consumer.i ==> s.dmBuf[j] == kept[c + j] - 2048)
  }

  lemma FreshInv(s: System)
    requires Fresh(s)
    ensures Inv(s, [])
  {
  }

  // ---- a sample arrives ----

  lemma RingNext(s: System, x: int)
    requires Sane(s.line) && |s.dmBuf| == HALF_DEPTH && RingHolds(s)
    ensures RingHolds(Next(s, Sample(x)))
  {
    hide Centred;
    var r := Next(s, Sample(x));
    var n := |s.stream|;
    assert r.line.mic == s.line.mic[RingAt(n) := x];
    forall k | 0 <= k < n + 1 && k + MIC_SAMPLE_DEPTH >= n + 1
      ensures r.line.mic[RingAt(k)] == r.stream[k]
    {
      if k < n {
        DistinctSlots(k, n);
        assert r.stream[k] == s.stream[k];
      }
    }
  }

  lemma DistinctSlots(k: nat, n: nat)
    requires k < n < k + MIC_SAMPLE_DEPTH
    ensures RingAt(k) != RingAt(n)
  {
  }

  lemma RingIndex(s: System)
    requires |s.line.mic| == MIC_SAMPLE_DEPTH && RingHolds(s)
    ensures s.line.index == RingAt(|s.stream|)
  {
  }

  /** A whole number of halves falls on one of the two half boundaries of the ring. */
  lemma Boundary(b: nat)
    requires Whole(b)
    ensures RingAt(b) == 0 || RingAt(b) == HALF_DEPTH
    ensures RingAt(b + HALF_DEPTH) == HALF_DEPTH - RingAt(b)
  {
    var h := b / HALF_DEPTH;
    var q := h / 2;
    assert b == MIC_SAMPLE_DEPTH * q || b == MIC_SAMPLE_DEPTH * q + HALF_DEPTH;
  }

  lemma Slot(b: nat, i: nat)
    requires Whole(b) && i < HALF_DEPTH
    ensures RingAt(b + i) == RingAt(b) + i
  {
    Boundary(b);
  }

  /** The half that a publication offers. */
  lemma Published(s: System, x: int, b: nat)
    requires Sane(s.line) && |s.dmBuf| == HALF_DEPTH && RingHolds(s)
    requires Whole(b) && b <= |s.stream| < b + HALF_DEPTH
    ensures Publishes(s.line) <==> |s.stream| + 1 == b + HALF_DEPTH
    ensures var r := Next(s, Sample(x)).line;
      if Publishes(s.line) then
        r.bufN == HALF_DEPTH && r.bufloc == RingAt(b) && r.dataReady == (s.line.dataReady + 1) % 256
      else r.bufN == s.line.bufN && r.bufloc == s.line.bufloc && r.dataReady == s.line.dataReady
  {
    Slot(b, |s.stream| - b);
    Boundary(b);
    RingIndex(s);
    hide RingHolds, RingAt, Whole;
  }

  /** A sample's effect on ring and flag, given the boundary the stream has passed last. */
  lemma Arrival(s: System, kept: seq<int>, x: int)
    requires Inv(s, kept)
    ensures var r, b := Next(s, Sample(x)), |s.delivered| + |s.stream| - |kept|;
      var open := if Waiting(s) then b + HALF_DEPTH else b;
      && RingHolds(r)
      && (Publishes(s.line) <==> |s.stream| + 1 == open + HALF_DEPTH)
      && (if Publishes(s.line) then
            r.line.bufN == HALF_DEPTH && r.line.bufloc == RingAt(open)
            && r.line.dataReady == (s.line.dataReady + 1) % 256
          else
            r.line.bufN == s.line.bufN && r.line.bufloc == s.line.bufloc && r.line.dataReady == s.line.dataReady)
  {
    hide RingHolds, RingAt, Whole, Centred, Aligned, Isr;
    var b := |s.delivered| + |s.stream| - |kept|;
    WholeSums(|s.delivered|, |s.stream| - |kept|);
    WholeSums(b, 0);
    RingNext(s, x);
    Published(s, x, if Waiting(s) then b + HALF_DEPTH else b);
  }

  lemma OnTimeKeepsInv(s: System, kept: seq<int>, x: int)
    requires Inv(s, kept) && !Late(s, Sample(x))
    ensures Inv(Next(s, Sample(x)), kept + [x])
  {
    var r, c := Next(s, Sample(x)), |s.delivered|;
    Arrival(s, kept, x);
    hide RingHolds, Centred, RingAt, Whole, Isr;
    assert (kept + [x])[..c] == kept[..c];
    assert Aligned(r, kept + [x]);
  }

  lemma CutParts(x: seq<int>, at: nat)
    requires at + HALF_DEPTH <= |x|
    ensures |x| == |Cut(x, at)| + HALF_DEPTH
    ensures forall j :: 0 <= j < at ==> Cut(x, at)[j] == x[j]
    ensures forall j :: at <= j < |Cut(x, at)| ==> Cut(x, at)[j] == x[j + HALF_DEPTH]
  {
  }

  lemma LateKeepsInv(s: System, kept: seq<int>, x: int)
    requires Inv(s, kept) && Late(s, Sample(x)) && !Wraps(s, Sample(x))
    ensures Inv(Next(s, Sample(x)), Cut(kept + [x], Front(s)))
    ensures |kept + [x]| == |Cut(kept + [x], Front(s))| + HALF_DEPTH
  {
    Arrival(s, kept, x);
    WholeSums(|s.stream| - |kept|, 0);
    hide RingHolds, Centred, RingAt, Whole, Cut, Isr;
    CutParts(kept + [x], Front(s));
    LateCut(s, kept, x, Next(s, Sample(x)), Cut(kept + [x], Front(s)));
  }

  lemma LateCut(s: System, kept: seq<int>, x: int, r: System, k: seq<int>)
    requires |s.delivered| <= Front(s) && Front(s) + HALF_DEPTH <= |kept| + 1 && |kept| <= |s.stream|
    requires r.stream == s.stream + [x] && r.delivered == s.delivered && r.consumer == s.consumer
    requires |kept| + 1 == |k| + HALF_DEPTH
    requires forall j :: 0 <= j < Front(s) ==> k[j] == (kept + [x])[j]
    requires forall j :: Front(s) <= j < |k| ==> k[j] == (kept + [x])[j + HALF_DEPTH]
    requires Aligned(s, kept)
    ensures Aligned(r, k) && k[..|s.delivered|] == kept[..|s.delivered|]
    ensures forall j :: 0 <= j < Front(s) ==> j < |kept| && k[j] == kept[j]
  {
  }

  lemma CutTwice(x: seq<int>, at: nat)
    requires |x| == at + MIC_SAMPLE_DEPTH
    ensures Cut(Cut(x, at), at) == x[..at]
  {
  }

  lemma NothingOnOffer(r: System, k: seq<int>)
    requires Sane(r.line) && |r.dmBuf| == HALF_DEPTH && RingHolds(r)
    requires |r.delivered| == |k| <= |r.stream| && Whole(|k|) && Whole(|r.stream| - |k|)
    requires r.delivered == Centred(k) && r.consumer == Polling && r.line.dataReady == 0
    ensures Inv(r, k)
  {
    hide RingHolds, Centred, RingAt, Whole;
    assert k[..|k|] == k;
  }

  lemma WrapKeepsInv(s: System, kept: seq<int>, x: int)
    requires Inv(s, kept) && Wraps(s, Sample(x))
    ensures var k := Cut(Cut(kept + [x], Front(s)), Front(s));
      Inv(Next(s, Sample(x)), k) && |kept + [x]| == |k| + MIC_SAMPLE_DEPTH
  {
    var c := |s.delivered|;
    Arrival(s, kept, x);
    WholeSums(|s.stream| - |kept|, 0);
    hide RingHolds, Centred, RingAt, Whole, Cut, Aligned, OnOffer;
    CutTwice(kept + [x], c);
    assert (kept + [x])[..c] == kept[..c];
    NothingOnOffer(Next(s, Sample(x)), kept[..c]);
  }

  // ---- the consumer proceeds ----

  lemma CopyOne(s: System, kept: seq<int>)
    requires Inv(s, kept) && s.consumer.Copying? && s.consumer.i < HALF_DEPTH
    ensures Inv(Next(s, Proceed), kept)
  {
    var i, c, lag := s.consumer.i, |s.delivered|, |s.stream| - |kept|;
    WholeSums(c, lag);
    Slot(c + lag, i);
    assert s.line.mic[RingAt(c + lag + i)] == s.stream[c + lag + i];
    assert kept[c + i] == s.stream[c + i + lag];
    hide Centred, RingAt, Whole;
    var r := Next(s, Proceed);
    assert r.dmBuf == s.dmBuf[i := kept[c + i] - 2048];
  }

  lemma CopyDone(s: System, kept: seq<int>)
    requires Inv(s, kept) && s.consumer.Copying? && s.consumer.i == HALF_DEPTH
    ensures Inv(Next(s, Proceed), kept)
  {
    var c := |s.delivered|;
    assert s.dmBuf == Centred(kept[c..c + HALF_DEPTH]);
    CentredConcat(kept, c);
    WholeSums(c, 0);
    hide Centred, RingHolds, RingAt, Whole;
  }

  lemma CentredConcat(x: seq<int>, c: nat)
    requires c + HALF_DEPTH <= |x|
    ensures Centred(x[..c]) + Centred(x[c..c + HALF_DEPTH]) == Centred(x[..c + HALF_DEPTH])
  {
  }

  lemma ProceedKeepsInv(s: System, kept: seq<int>)
    requires Inv(s, kept)
    ensures Inv(Next(s, Proceed), kept)
  {
    if s.consumer.Copying? {
      hide Next, Centred, RingHolds, RingAt, Whole;
      if s.consumer.i < HALF_DEPTH {
        CopyOne(s, kept);
      } else {
        CopyDone(s, kept);
      }
    }
  }

  lemma NextKeepsInv(s: System, kept: seq<int>, a: Action)
    requires Inv(s, kept)
    ensures Inv(Next(s, a), Surviving(s, kept, a))
    ensures |Next(s, a).stream| - |Surviving(s, kept, a)|
      == |s.stream| - |kept| + (if Wraps(s, a) then MIC_SAMPLE_DEPTH else if Late(s, a) then HALF_DEPTH else 0)
  {
    hide RingHolds, Centred, Cut, Sane, RingAt, Whole;
    match a {
      case Sample(x) =>
        if Wraps(s, a) {
          WrapKeepsInv(s, kept, x);
        } else if Late(s, a) {
          LateKeepsInv(s, kept, x);
        } else {
          OnTimeKeepsInv(s, kept, x);
        }
      case Proceed => ProceedKeepsInv(s, kept);
    }
  }

  // ---- whole runs ----

  /** A run, state by state. */
  ghost predicate IsRun(states: seq<System>, actions: seq<Action>) {
    && |states| == |actions| + 1 && Fresh(states[0])
    && forall i :: 0 <= i < |actions| ==>
         Sane(states[i].line) && |states[i].dmBuf| == HALF_DEPTH && states[i + 1] == Next(states[i], actions[i])
  }

  /** What survives of the stream of the first `n` actions. */
  ghost function Survivors(states: seq<System>, actions: seq<Action>, n: nat): seq<int>
    requires n <= |actions| < |states|
  {
    if n == 0 then [] else Surviving(states[n - 1], Survivors(states, actions, n - 1), actions[n - 1])
  }

  /** Samples lost to late publications among the first `n` actions. */
  ghost function Losses(states: seq<System>, actions: seq<Action>, n: nat): nat
    requires n <= |actions| < |states|
  {
    if n == 0 then 0
    else Losses(states, actions, n - 1)
         + if Wraps(states[n - 1], actions[n - 1]) then MIC_SAMPLE_DEPTH
           else if Late(states[n - 1], actions[n - 1]) then HALF_DEPTH else 0
  }

  /**
   What every interleaving of samples and consumer steps delivers, with no assumption on timing: the stream, in
   order and centred, from which each late publication has cut 256 samples at the place the consumer was about
   to read.  That is a whole half when it was polling, a torn one when it was in the middle of a copy, the new
   half when it was demodulating and had yet to clear the flag.
   */
  lemma {:induction false} EveryDelivery(states: seq<System>, actions: seq<Action>, n: nat)
    requires IsRun(states, actions) && n <= |actions|
    ensures var s, kept := states[n], Survivors(states, actions, n);
      && |s.delivered| <= |kept| < |s.delivered| + MIC_SAMPLE_DEPTH
      && s.delivered == Centred(kept[..|s.delivered|]) && |s.delivered| % HALF_DEPTH == 0
      && |kept| + Losses(states, actions, n) == |s.stream|
    ensures Inv(states[n], Survivors(states, actions, n))
  {
    hide Next, Centred, Surviving, Late, Wraps, RingHolds;
    if n == 0 {
      FreshInv(states[0]);
    } else {
      EveryDelivery(states, actions, n - 1);
      NextKeepsInv(states[n - 1], Survivors(states, actions, n - 1), actions[n - 1]);
    }
  }

  /** The next half after a late publication: the newer one, its torn second part, or none. */
  lemma LateLoss(s: System, kept: seq<int>, x: int)
    requires Inv(s, kept) && Late(s, Sample(x)) && !Wraps(s, Sample(x))
    ensures var k, c, now := Surviving(s, kept, Sample(x)), |s.delivered|, s.stream + [x];
      && Inv(Next(s, Sample(x)), k)
      && (s.consumer.Polling? ==> k == kept[..c] + now[|now| - HALF_DEPTH..])
      && (s.consumer.Copying? ==> k == kept[..c + s.consumer.i] + now[|now| - HALF_DEPTH + s.consumer.i..])
      && (s.consumer.Demodulating? ==> k == kept[..c])
  {
    Arrival(s, kept, x);
    LateKeepsInv(s, kept, x);
    hide RingHolds, Centred, RingAt, Whole, Isr, Cut;
    CutParts(kept + [x], Front(s));
  }

  /** In time: the flag has been cleared again before the line publishes the next half. */
  ghost predicate InTime(s: System, a: Action) {
    a.Sample? && Publishes(s.line) ==> s.line.dataReady == 0
  }

  /** With every publication in time, everything survives; the flag is then set whenever the consumer is busy. */
  lemma {:induction false} AllSurvive(states: seq<System>, actions: seq<Action>, n: nat)
    requires IsRun(states, actions) && n <= |actions|
    requires forall i :: 0 <= i < n ==> InTime(states[i], actions[i])
    ensures Survivors(states, actions, n) == states[n].stream && Losses(states, actions, n) == 0
    ensures states[n].line.dataReady == 0 ==> states[n].consumer == Polling
    ensures states[n].line.dataReady <= 1
  {
    if n > 0 {
      AllSurvive(states, actions, n - 1);
    }
  }

  /**
   Lossless double buffering: over every interleaving in which the flag is clear again before the next half is
   published, what the demodulator receives is the ADC stream itself, in order, centred, with nothing lost,
   repeated or torn, and never more than two halves behind.
   */
  lemma LosslessDelivery(states: seq<System>, actions: seq<Action>, n: nat)
    requires IsRun(states, actions) && n <= |actions|
    requires forall i :: 0 <= i < n ==> InTime(states[i], actions[i])
    ensures var s := states[n];
      && |s.delivered| <= |s.stream| < |s.delivered| + MIC_SAMPLE_DEPTH
      && s.delivered == Centred(s.stream[..|s.delivered|]) && |s.delivered| % HALF_DEPTH == 0
  {
    hide Next, Centred, Inv;
    EveryDelivery(states, actions, n);
    AllSurvive(states, actions, n);
  }

  /** Samples are lost in a run exactly when some publication in it comes late. */
  lemma {:induction false} LossExactlyWhenLate(states: seq<System>, actions: seq<Action>, n: nat)
    requires IsRun(states, actions) && n <= |actions|
    ensures |Survivors(states, actions, n)| == |states[n].stream|
      <==> forall i :: 0 <= i < n ==> InTime(states[i], actions[i])
  {
    hide Next, Centred, Inv, Surviving;
    EveryDelivery(states, actions, n);
    if forall i :: 0 <= i < n ==> InTime(states[i], actions[i]) {
      AllSurvive(states, actions, n);
    } else {
      var i :| 0 <= i < n && !InTime(states[i], actions[i]);
      LossesGrow(states, actions, i + 1, n);
    }
  }

  lemma {:induction false} LossesGrow(states: seq<System>, actions: seq<Action>, i: nat, n: nat)
    requires i <= n <= |actions| < |states|
    ensures Losses(states, actions, i) <= Losses(states, actions, n)
  {
    hide Late, Wraps;
    if i < n {
      LossesGrow(states, actions, i, n - 1);
    }
  }
}
