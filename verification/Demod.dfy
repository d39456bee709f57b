/** The demodulator object: a sliding window over a compacting buffer, the slicer, and the baud PLL feeding the MAC. */
module Demod {
  import opened Correlator
  import opened Pll
  import BitRate
  import Mac

  // ---- what the slicer sees ----

  function Quiet(n: nat): seq<int> {
    seq(n, _ => 0)
  }

  /** The last `size` samples of a silent line followed by `history`. */
  function Window(size: nat, history: seq<int>): (w: seq<int>)
    ensures |w| == size
  {
    (Quiet(size) + history)[|history|..]
  }

  lemma WindowSlides(size: nat, history: seq<int>, x: int)
    requires size > 0
    ensures Window(size, history + [x]) == Window(size, history)[1..] + [x]
  {
    assert Quiet(size) + (history + [x]) == (Quiet(size) + history) + [x];
  }

  function Scaled(samples: seq<int>, shift: nat): (s: seq<int>)
    ensures |s| == |samples|
  {
    seq(|samples|, i requires 0 <= i < |samples| => Sar(samples[i], shift))
  }

  lemma ScaledAt(samples: seq<int>, shift: nat, i: nat)
    requires i < |samples|
    ensures Scaled(samples, shift)[i] == Sar(samples[i], shift)
  {
  }

  function Slice(history: seq<int>, size: nat, t: Tables): bool
    requires t.Sized(size)
  {
    Discriminant(Window(size, history), t) > 0
  }

  /** The two-level signal: one decision per sample, each over the window that ends with it. */
  function Slices(history: seq<int>, scaled: seq<int>, size: nat, t: Tables): (s: seq<bool>)
    requires t.Sized(size)
    ensures |s| == |scaled|
  {
    if scaled == [] then []
    else Slices(history, scaled[..|scaled| - 1], size, t) + [Slice(history + scaled, size, t)]
  }

  /** What the PLL makes of `scaled`, heard after `history` from phase `p`. */
  function Heard(p: Phase, history: seq<int>, scaled: seq<int>, size: nat, t: Tables, r: Rate): (k: Trace)
    requires p.InRange() && r.Sane() && t.Sized(size)
    ensures k.now.InRange()
  {
    Track(p, Slices(history, scaled, size, t), r)
  }

  /** What the bit-rate switch sees: a zero is a discriminant below zero, which is not the slicer's complement. */
  function Beats(history: seq<int>, scaled: seq<int>, size: nat, t: Tables, idle: bool): (bs: seq<BitRate.Beat>)
    requires t.Sized(size)
    ensures |bs| == |scaled|
  {
    seq(|scaled|, i requires 0 <= i < |scaled| => BeatAt(history + scaled[..i + 1], size, t, idle))
  }

  function BeatAt(history: seq<int>, size: nat, t: Tables, idle: bool): BitRate.Beat
    requires t.Sized(size)
  {
    BitRate.Beat(Discriminant(Window(size, history), t) < 0, idle)
  }

  // ---- the object ----

  class Demodulator {
    const size: nat
    const tables: Tables
    const shift: nat
    const rate: Rate
    const filterBuf: array<int>
    var bufPtr: nat
    var baudPll: int
    var lastSample: bool
    var runCount: nat
    var holdover: nat
    var lbrTime: nat
    /** The ADC runs at the low rate. */
    var slow: bool
    /** Every scaled sample so far. */
    ghost var history: seq<int>

    ghost predicate Valid()
      reads this, filterBuf
    {
      && 2 <= size && 2 * size < 256 && tables.Sized(size) && rate.Sane()
      && filterBuf.Length == 2 * size && size <= bufPtr < 2 * size
      && filterBuf[bufPtr - size..bufPtr] == Window(size, history)
      && 0 <= baudPll < PERIOD
    }

    ghost function Now(): Phase
      reads this
    {
      Phase(baudPll, lastSample)
    }

    ghost function Gauge(): BitRate.Gauge
      reads this
    {
      BitRate.Gauge(runCount, holdover, lbrTime, slow)
    }

    /** demodInit. */
    constructor (size: nat, tables: Tables, baudRate: nat, sampleRate: nat)
      requires 2 <= size && 2 * size < 256 && tables.Sized(size)
      requires 0 < baudRate <= sampleRate <= baudRate * PERIOD
      ensures Valid() && fresh(filterBuf)
      ensures this.size == size && this.tables == tables && ScalesFor(size, shift)
      ensures rate.incr == baudRate * PERIOD / sampleRate && rate.adj == rate.incr / 4
      ensures Now() == Phase(0, false) && history == [] && Gauge() == BitRate.Gauge(0, 0, 0, false)
    {
      hide Pow2;
      this.size := size;
      this.tables := tables;
      var incr := baudRate * PERIOD / sampleRate;
      RateInRange(baudRate, sampleRate);
      rate := Rate(incr, incr / 4);
      var s := ComputeShift(size);
      ShiftNonNegative(size, s);
      shift := s;
      filterBuf := new int[2 * size](_ => 0);
      bufPtr := size;
      baudPll, lastSample := 0, false;
      runCount, holdover, lbrTime, slow := 0, 0, 0, false;
      history := [];
      new;
      assert filterBuf[0..size] == Window(size, []);
    }

    /** Appends one sample and moves the newest `size` of them down when the buffer is full. */
    method AddSample(x: int)
      requires Valid()
      modifies this`bufPtr, this`history, filterBuf
      ensures Valid() && history == old(history) + [x]
    {
      hide Window;
      Append(x);
      if bufPtr == 2 * size {
        Compact();
      }
    }

    method Append(x: int)
      requires Valid()
      modifies this`bufPtr, this`history, filterBuf
      ensures history == old(history) + [x] && bufPtr == old(bufPtr) + 1
      ensures filterBuf[bufPtr - size..bufPtr] == Window(size, history)
    {
      WindowSlides(size, history, x);
      hide Window;
      ghost var before := filterBuf[bufPtr - size..bufPtr];
      filterBuf[bufPtr] := x;
      bufPtr := bufPtr + 1;
      history := history + [x];
      assert filterBuf[bufPtr - size..bufPtr] == before[1..] + [x];
    }

    /** The word copy runs upwards; source and destination are the two halves of the buffer. */
    method Compact()
      requires 0 < size && filterBuf.Length == 2 * size && bufPtr == 2 * size
      modifies this`bufPtr, filterBuf
      ensures bufPtr == size && filterBuf[0..size] == old(filterBuf[size..])
    {
      var i := 0;
      while i < size
        invariant 0 <= i <= size
        invariant forall j :: 0 <= j < i ==> filterBuf[j] == old(filterBuf[size + j])
        invariant forall j :: size <= j < 2 * size ==> filterBuf[j] == old(filterBuf[j])
      {
        filterBuf[i] := filterBuf[filterBuf.Length - size + i];
        i := i + 1;
      }
      bufPtr := size;
    }

    /** The PLL half of the sample loop. */
    method Clock(newSample: bool) returns (bit: bool)
      requires Valid()
      modifies this`baudPll, this`lastSample
      ensures Valid() && bit == Wraps(old(Now()), newSample, rate)
      ensures Now() == Tick(old(Now()), newSample, rate)
    {
      if lastSample != newSample {
        lastSample := newSample;
        if baudPll < HALF {
          baudPll := baudPll + rate.adj;
        } else {
          baudPll := baudPll - rate.adj;
        }
      }
      baudPll := baudPll + rate.incr;
      bit := baudPll >= PERIOD;
      if bit {
        baudPll := baudPll - PERIOD;
      }
    }

    /** The bit-rate half of the sample loop; `idle`: the updater's state is idle. */
    method Meter(zero: bool, idle: bool)
      modifies this`runCount, this`holdover, this`lbrTime, this`slow
      ensures Gauge() == BitRate.Step(old(Gauge()), BitRate.Beat(zero, idle))
    {
      if zero {
        runCount := (runCount + 1) % 0x1_0000_0000;
      } else if runCount < BitRate.RUN_THRESH {
        runCount, holdover := 0, 0;
      } else if holdover > BitRate.HOLDOVER_THRESH {
        runCount, holdover := 0, 0;
      } else {
        holdover := holdover + 1;
      }
      if runCount == BitRate.RUN_THRESH {
        lbrTime, slow := 1, true;
      }
      if idle {
        if lbrTime > 0 {
          lbrTime := lbrTime + 1;
        }
        if lbrTime > BitRate.LBR_HOLDOUT {
          runCount, holdover, lbrTime, slow := 0, 0, 0, false;
        }
      }
    }

    /** The body of the sample loop: window, correlators, slicer, bit-rate switch, clock, and the bit sink. */
    method DemodulateSample(x: int, mac: Mac.MacFramer, idle: bool)
      requires Valid() && mac.WellFormed() && Mac.Valid(mac.State())
      requires filterBuf != mac.macSync as object && filterBuf != mac.pkt as object
      modifies this, filterBuf, mac, mac.macSync, mac.pkt
      ensures Valid() && mac.WellFormed() && history == old(history) + [x]
      ensures Gauge() == BitRate.Step(old(Gauge()), BeatAt(history, size, tables, idle))
      ensures var s := Slice(history, size, tables);
        && Now() == Tick(old(Now()), s, rate)
        && mac.State() == if Wraps(old(Now()), s, rate) then Mac.MacStep(old(mac.State()), s) else old(mac.State())
    {
      hide Wraps, Tick, Mac.MacStep, Mac.Valid, Discriminant, Window, BitRate.Step;
      AddSample(x);
      var sum := FskCore(filterBuf[bufPtr - size..bufPtr], tables);
      Meter(sum < 0, idle);
      var bit := Clock(sum > 0);
      assert Now() == Tick(old(Now()), sum > 0, rate);
      TickKeeps(old(Now()), sum > 0, rate);
      if bit {
        mac.PutBit(lastSample);
      }
    }

    /** FSKdemod, with the MAC as its bit sink. */
    method Demodulate(samples: seq<int>, mac: Mac.MacFramer, idle: bool)
      requires Valid() && mac.WellFormed() && Mac.Valid(mac.State())
      requires filterBuf != mac.macSync as object && filterBuf != mac.pkt as object
      modifies this, filterBuf, mac, mac.macSync, mac.pkt
      ensures Valid() && mac.WellFormed()
      ensures Gauge() == BitRate.Run(old(Gauge()), Beats(old(history), Scaled(samples, shift), size, tables, idle))
      ensures var scaled := Scaled(samples, shift);
        var t := Heard(old(Now()), old(history), scaled, size, tables, rate);
        && history == old(history) + scaled
        && Now() == t.now && mac.State() == Mac.MacRun(old(mac.State()), t.bits)
    {
      ghost var m0, p0, h0 := mac.State(), Now(), history;
      ghost var scaled := Scaled(samples, shift);
      hide Heard, Slice, Wraps, Tick, Sar, Mac.MacRun, Mac.MacStep, Mac.Valid, Window, Scaled;
      hide Beats, BeatAt, BitRate.Step, BitRate.Run;
      ghost var g0 := Gauge();
      HeardNothing(p0, h0, scaled, size, tables, rate, m0);
      NoBeats(g0, h0, scaled, size, tables, idle);
      var i := 0;
      while i < |samples|
        invariant 0 <= i <= |samples| && Valid() && mac.WellFormed()
        invariant history == h0 + scaled[..i]
        invariant Now() == Heard(p0, h0, scaled[..i], size, tables, rate).now
        invariant mac.State() == Mac.MacRun(m0, Heard(p0, h0, scaled[..i], size, tables, rate).bits)
        invariant Mac.Valid(mac.State())
        invariant Gauge() == BitRate.Run(g0, Beats(h0, scaled[..i], size, tables, idle))
      {
        BeatSample(g0, h0, scaled, i, size, tables, idle);
        ScaledAt(samples, shift, i);
        assert scaled[..i + 1] == scaled[..i] + [scaled[i]];
        HeardSample(p0, h0, scaled, i, size, tables, rate, m0);
        DemodulateSample(Sar(samples[i], shift), mac, idle);
        assert h0 + scaled[..i] + [scaled[i]] == h0 + scaled[..i + 1];
        i := i + 1;
      }
      assert scaled[..|samples|] == scaled;
    }
  }

  lemma TickKeeps(p: Phase, s: bool, r: Rate)
    requires p.InRange() && r.Sane()
    ensures Tick(p, s, r).last == s
  {
  }

  lemma RateInRange(baud: nat, sample: nat)
    requires 0 < baud <= sample <= baud * PERIOD
    ensures 0 < baud * PERIOD / sample <= PERIOD
  {
    var q := baud * PERIOD / sample;
    assert sample * q <= baud * PERIOD < sample * q + sample;
    assert baud * PERIOD <= sample * PERIOD;
    MulLess(sample, 0, q + 1);
    MulLess(sample, q, PERIOD + 1);
  }

  lemma ShiftNonNegative(size: nat, shift: int)
    requires size >= 2 && ScalesFor(size, shift)
    ensures shift >= 0
  {
  }

  lemma HeardNothing(p: Phase, h: seq<int>, scaled: seq<int>, size: nat, t: Tables, r: Rate, m: Mac.Framer)
    requires p.InRange() && r.Sane() && t.Sized(size) && Mac.Valid(m)
    ensures var k := Heard(p, h, scaled[..0], size, t, r); k.now == p && Mac.MacRun(m, k.bits) == m
  {
  }

  lemma NoBeats(g: BitRate.Gauge, h: seq<int>, scaled: seq<int>, size: nat, t: Tables, idle: bool)
    requires t.Sized(size)
    ensures BitRate.Run(g, Beats(h, scaled[..0], size, t, idle)) == g
  {
  }

  lemma BeatSample(g: BitRate.Gauge, h: seq<int>, scaled: seq<int>, i: nat, size: nat, t: Tables, idle: bool)
    requires t.Sized(size) && i < |scaled|
    ensures BitRate.Run(g, Beats(h, scaled[..i + 1], size, t, idle))
      == BitRate.Step(BitRate.Run(g, Beats(h, scaled[..i], size, t, idle)), BeatAt(h + scaled[..i + 1], size, t, idle))
  {
    hide BeatAt, BitRate.Step;
    var bs := Beats(h, scaled[..i + 1], size, t, idle);
    assert bs[..i] == Beats(h, scaled[..i], size, t, idle) by {
      forall j | 0 <= j < i ensures bs[j] == Beats(h, scaled[..i], size, t, idle)[j] {
        assert scaled[..i + 1][..j + 1] == scaled[..i][..j + 1];
      }
    }
    assert scaled[..i + 1][..i + 1] == scaled[..i + 1];
  }

  /** One more sample: one more decision, one clock tick, and a bit exactly when the clock wraps. */
  lemma HeardSample(p: Phase, h: seq<int>, scaled: seq<int>, i: nat, size: nat, t: Tables, r: Rate, m: Mac.Framer)
    requires p.InRange() && r.Sane() && t.Sized(size) && Mac.Valid(m) && i < |scaled|
    ensures var s := Slice(h + scaled[..i + 1], size, t);
      var k, k' := Heard(p, h, scaled[..i], size, t, r), Heard(p, h, scaled[..i + 1], size, t, r);
      && k'.now == Tick(k.now, s, r)
      && Mac.MacRun(m, k'.bits)
         == if Wraps(k.now, s, r) then Mac.MacStep(Mac.MacRun(m, k.bits), s) else Mac.MacRun(m, k.bits)
  {
    hide Slice, Tick, Wraps, Correction, Mac.MacStep, Mac.Valid;
    var a, b := scaled[..i], scaled[..i + 1];
    assert b[..|b| - 1] == a;
    var s := Slice(h + b, size, t);
    var ss := Slices(h, b, size, t);
    assert ss[..|ss| - 1] == Slices(h, a, size, t) && ss[|ss| - 1] == s;
    var k := Heard(p, h, a, size, t, r);
    Mac.MacRunConcat(m, k.bits, [s]);
    assert Mac.MacRun(Mac.MacRun(m, k.bits), [s]) == Mac.MacStep(Mac.MacRun(m, k.bits), s) by {
      assert [s][1..] == [];
    }
  }

  /** With 12-bit input, every window ever correlated keeps the arithmetic inside 32 bits. */
  lemma EveryDecisionFits(raw: seq<int>, size: nat, t: Tables, shift: nat)
    requires t.Sized(size) && size < 8192 && ScalesFor(size, shift)
    requires forall i :: 0 <= i < |raw| ==> -2048 <= raw[i] < 2048
    requires Coefficients(t.hiI) && Coefficients(t.hiQ) && Coefficients(t.loI) && Coefficients(t.loQ)
    ensures -INT32_MAX <= Discriminant(Window(size, Scaled(raw, shift)), t) <= INT32_MAX
  {
    hide Discriminant, Coefficients, Pow2, Energy;
    var w := Window(size, Scaled(raw, shift));
    Pow2Positive(shift);
    forall i | 0 <= i < |w| ensures ScaledValue(w[i], shift) {
      var j := |raw| + i - size;
      assert ScaledValue(w[i], shift) by {
        if j < 0 {
          assert w[i] == Sar(0, shift);
        } else {
          assert w[i] == Sar(raw[j], shift);
        }
      }
    }
    DiscriminantFits(w, t, shift);
  }

  // ---- what one decision means ----

  /** The window is the newest `size` samples. */
  lemma WindowIsNewest(size: nat, history: seq<int>)
    requires |history| >= size
    ensures Window(size, history) == history[|history| - size..]
  {
  }

  /**
   With one tone in the window and the other silent, the slice is that tone's bit; the bit-rate switch counts a
   zero for the low tone only, so that silence is neither a one to the slicer nor a zero to the switch.
   */
  lemma ToneIsBit(history: seq<int>, size: nat, t: Tables, idle: bool)
    requires t.Sized(size)
    ensures var w := Window(size, history);
      var hi, lo := !Silent(w, t.hiI, t.hiQ), !Silent(w, t.loI, t.loQ);
      var slice, beat := Slice(history, size, t), BeatAt(history, size, t, idle);
      && (hi && !lo ==> slice && !beat.zero)
      && (lo && !hi ==> !slice && beat.zero)
      && (!lo && !hi ==> !slice && !beat.zero)
      && beat.idle == idle
  {
    hide Silent, Discriminant, Window;
    ToneDecides(Window(size, history), t);
  }

  lemma {:induction false} SlicesAt(h: seq<int>, scaled: seq<int>, size: nat, t: Tables, i: nat)
    requires t.Sized(size) && i < |scaled|
    ensures Slices(h, scaled, size, t)[i] == Slice(h + scaled[..i + 1], size, t)
    decreases |scaled|
  {
    hide Slice;
    var n := |scaled| - 1;
    if i < n {
      SlicesAt(h, scaled[..n], size, t, i);
      assert scaled[..n][..i + 1] == scaled[..i + 1];
    } else {
      assert scaled[..i + 1] == scaled;
    }
  }

  lemma NewestWindow(h: seq<int>, scaled: seq<int>, size: nat, i: nat)
    requires i < |scaled| && size <= |h| + i + 1
    ensures Window(size, h + scaled[..i + 1]) == (h + scaled)[|h| + i + 1 - size..|h| + i + 1]
  {
    var upto := h + scaled[..i + 1];
    WindowIsNewest(size, upto);
    assert (h + scaled)[..|h| + i + 1] == upto;
    hide Window;
    assert (h + scaled)[|h| + i + 1 - size..|h| + i + 1] == (h + scaled)[..|h| + i + 1][|h| + i + 1 - size..];
  }

  lemma BeatsAt(h: seq<int>, scaled: seq<int>, size: nat, t: Tables, idle: bool, i: nat)
    requires t.Sized(size) && i < |scaled|
    ensures Beats(h, scaled, size, t, idle)[i].zero <==> Discriminant(Window(size, h + scaled[..i + 1]), t) < 0
    ensures Beats(h, scaled, size, t, idle)[i].idle == idle
  {
    hide Discriminant, Window;
  }

  /** Every decision is taken on the newest `size` samples up to and including its own. */
  lemma DecisionAt(h: seq<int>, scaled: seq<int>, size: nat, t: Tables, idle: bool, i: nat)
    requires t.Sized(size) && i < |scaled| && size <= |h| + i + 1
    ensures var newest := (h + scaled)[|h| + i + 1 - size..|h| + i + 1];
      && (Slices(h, scaled, size, t)[i] <==> Discriminant(newest, t) > 0)
      && (Beats(h, scaled, size, t, idle)[i].zero <==> Discriminant(newest, t) < 0)
  {
    hide Discriminant, Window, Slices, Beats;
    SlicesAt(h, scaled, size, t, i);
    BeatsAt(h, scaled, size, t, idle, i);
    NewestWindow(h, scaled, size, i);
  }

  // ---- samples delivered in pieces ----

  lemma SlicesConcat(h: seq<int>, a: seq<int>, b: seq<int>, size: nat, t: Tables)
    requires t.Sized(size)
    ensures Slices(h, a + b, size, t) == Slices(h, a, size, t) + Slices(h + a, b, size, t)
  {
    hide Slice, Slices;
    var whole, parts := Slices(h, a + b, size, t), Slices(h, a, size, t) + Slices(h + a, b, size, t);
    forall i | 0 <= i < |whole| ensures whole[i] == parts[i] {
      SlicesAt(h, a + b, size, t, i);
      if i < |a| {
        SlicesAt(h, a, size, t, i);
        assert (a + b)[..i + 1] == a[..i + 1];
      } else {
        SlicesAt(h + a, b, size, t, i - |a|);
        assert h + (a + b)[..i + 1] == h + a + b[..i - |a| + 1];
      }
    }
  }

  lemma {:induction false} TrackConcat(p: Phase, s: seq<bool>, s': seq<bool>, r: Rate)
    requires p.InRange() && r.Sane()
    ensures var k := Track(p, s, r);
      && Track(p, s + s', r).now == Track(k.now, s', r).now
      && Track(p, s + s', r).bits == k.bits + Track(k.now, s', r).bits
    decreases |s'|
  {
    hide Tick, Wraps, Correction;
    if s' == [] {
      assert s + s' == s;
    } else {
      var n := |s'| - 1;
      TrackConcat(p, s, s'[..n], r);
      assert (s + s')[..|s + s'| - 1] == s + s'[..n];
    }
  }

  /** Demodulating in pieces is demodulating the whole. */
  lemma HeardConcat(p: Phase, h: seq<int>, a: seq<int>, b: seq<int>, size: nat, t: Tables, r: Rate)
    requires p.InRange() && r.Sane() && t.Sized(size)
    ensures var k := Heard(p, h, a, size, t, r);
      && Heard(p, h, a + b, size, t, r).now == Heard(k.now, h + a, b, size, t, r).now
      && Heard(p, h, a + b, size, t, r).bits == k.bits + Heard(k.now, h + a, b, size, t, r).bits
  {
    hide Track, Slices;
    SlicesConcat(h, a, b, size, t);
    TrackConcat(p, Slices(h, a, size, t), Slices(h + a, b, size, t), r);
  }

  /** The bit-rate switch, too, sees the whole when it sees the pieces. */
  lemma BeatsConcat(h: seq<int>, a: seq<int>, b: seq<int>, size: nat, t: Tables, idle: bool)
    requires t.Sized(size)
    ensures Beats(h, a + b, size, t, idle) == Beats(h, a, size, t, idle) + Beats(h + a, b, size, t, idle)
  {
    hide BeatAt;
    var whole, parts := Beats(h, a + b, size, t, idle), Beats(h, a, size, t, idle) + Beats(h + a, b, size, t, idle);
    forall i | 0 <= i < |whole| ensures whole[i] == parts[i] {
      if i < |a| {
        assert (a + b)[..i + 1] == a[..i + 1];
      } else {
        assert h + (a + b)[..i + 1] == h + a + b[..i - |a| + 1];
      }
    }
  }
}
