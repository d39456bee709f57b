/**
 The baud phase-locked loop: a phase accumulator advanced by `incr` per sample and nudged by `adj`
 towards mid-scale at every transition of the sliced signal; a bit is emitted at each wrap.
 */
module Pll {

  const PERIOD := 0x10000
  const HALF := 0x8000

  datatype Rate = Rate(incr: nat, adj: nat) {
    ghost predicate Sane() {
      0 < incr <= PERIOD && adj <= HALF
    }
  }

  datatype Phase = Phase(pll: int, last: bool) {
    ghost predicate InRange() {
      0 <= pll < PERIOD
    }
  }

  function Correction(p: Phase, s: bool, r: Rate): int {
    if p.last == s then 0 else if p.pll < HALF then r.adj else 0 - r.adj
  }

  function Wraps(p: Phase, s: bool, r: Rate): bool {
    p.pll + Correction(p, s, r) + r.incr >= PERIOD
  }

  function Tick(p: Phase, s: bool, r: Rate): (q: Phase)
    requires p.InRange() && r.Sane()
    ensures q.InRange()
  {
    Phase(p.pll + Correction(p, s, r) + r.incr - (if Wraps(p, s, r) then PERIOD else 0), s)
  }

  /** The loop after some samples, with every bit emitted and every correction counted. */
  datatype Trace = Trace(now: Phase, bits: seq<bool>, ups: nat, downs: nat)

  function Track(p: Phase, ss: seq<bool>, r: Rate): (t: Trace)
    requires p.InRange() && r.Sane()
    ensures t.now.InRange()
  {
    if ss == [] then Trace(p, [], 0, 0)
    else
      var s := ss[|ss| - 1];
      var t := Track(p, ss[..|ss| - 1], r);
      var c := Correction(t.now, s, r);
      var moved := t.now.last != s;
      Trace(Tick(t.now, s, r), if Wraps(t.now, s, r) then t.bits + [s] else t.bits,
            if moved && t.now.pll < HALF then t.ups + 1 else t.ups,
            if moved && t.now.pll >= HALF then t.downs + 1 else t.downs)
  }

  /** Total phase advanced since the start, wraps undone. */
  function Unwrapped(t: Trace): int {
    t.now.pll + PERIOD * |t.bits|
  }

  // ---- ledger ----

  function Times(n: nat, a: int): int {
    n * a
  }

  lemma TimesNext(n: nat, a: int)
    ensures Times(n + 1, a) == Times(n, a) + a
  {
  }

  lemma TimesSum(n: nat, a: int, b: int)
    ensures Times(n, a + b) == Times(n, a) + Times(n, b)
  {
  }

  lemma TimesMonotone(m: nat, n: nat, a: nat)
    requires m <= n
    ensures 0 <= Times(m, a) <= Times(n, a)
  {
    assert Times(n, a) - Times(m, a) == (n - m) * a;
  }

  /** Nothing is lost: phase and emitted bits account for every increment and every correction. */
  lemma {:induction false} Ledger(p: Phase, ss: seq<bool>, r: Rate)
    requires p.InRange() && r.Sane()
    ensures var t := Track(p, ss, r);
      Unwrapped(t) == p.pll + Times(|ss|, r.incr) + Times(t.ups, r.adj) - Times(t.downs, r.adj)
    ensures Track(p, ss, r).ups + Track(p, ss, r).downs <= |ss|
  {
    if ss == [] {
      assert Times(0, r.incr) == 0 && Times(0, r.adj) == 0;
    } else {
      hide Times;
      var n := |ss| - 1;
      Ledger(p, ss[..n], r);
      var t := Track(p, ss[..n], r);
      TimesNext(n, r.incr);
      TimesNext(t.ups, r.adj);
      TimesNext(t.downs, r.adj);
    }
  }

  /** Both bit-rate bounds, for any signal however noisy. */
  lemma BitCountBounds(p: Phase, ss: seq<bool>, r: Rate)
    requires p.InRange() && r.Sane()
    ensures var n := |Track(p, ss, r).bits|;
      && PERIOD * n <= p.pll + Times(|ss|, r.incr + r.adj)
      && PERIOD * (n + 1) > p.pll + Times(|ss|, r.incr - r.adj)
  {
    hide Times, Track;
    Ledger(p, ss, r);
    var t := Track(p, ss, r);
    TimesMonotone(t.ups, |ss|, r.adj);
    TimesMonotone(t.downs, |ss|, r.adj);
    TimesSum(|ss|, r.incr, r.adj);
    TimesSum(|ss|, r.incr - r.adj, r.adj);
  }

  lemma {:induction false} SteadyTrack(p: Phase, n: nat, r: Rate)
    requires p.InRange() && r.Sane()
    ensures var t := Track(p, seq(n, _ => p.last), r);
      t.now.last == p.last && t.ups == 0 && t.downs == 0 && forall i :: 0 <= i < |t.bits| ==> t.bits[i] == p.last
  {
    if n > 0 {
      assert seq(n, _ => p.last)[..n - 1] == seq(n - 1, _ => p.last);
      SteadyTrack(p, n - 1, r);
    }
  }

  /** On a steady signal the loop free-runs: exactly the whole periods elapsed, all of the signal's value. */
  lemma SteadySignal(p: Phase, n: nat, r: Rate)
    requires p.InRange() && r.Sane()
    ensures Track(p, seq(n, _ => p.last), r).bits == seq(SteadyCount(p, n, r), _ => p.last)
  {
    hide Track;
    var ss := seq(n, _ => p.last);
    SteadyTrack(p, n, r);
    Ledger(p, ss, r);
    var t := Track(p, ss, r);
    assert Times(0, r.adj) == 0;
    hide Times;
    assert PERIOD * |t.bits| <= p.pll + Times(n, r.incr) < PERIOD * (|t.bits| + 1);
    assert |t.bits| == SteadyCount(p, n, r);
  }

  function SteadyCount(p: Phase, n: nat, r: Rate): nat
    requires p.InRange()
  {
    (p.pll + n * r.incr) / PERIOD
  }

  // ---- lock and bit recovery ----

  /** Ideal time at which the signal changes from bit `k` to bit `k + 1`, in phase units. */
  function Boundary(k: int): int {
    HALF + PERIOD * k
  }

  /** A sample at ideal phase `q` may show bit `k`: neither it nor its successor is more than `d` outside the bit. */
  predicate Shows(k: int, q: int, r: Rate, d: nat) {
    Boundary(k - 1) - d <= q && q + r.incr <= Boundary(k) + d
  }

  function At(q: int, i: nat, r: Rate): int {
    q + Times(i, r.incr)
  }

  /** `ss`, sampled from ideal phase `q` on, carries the bits `x` with every transition within `d` of its place. */
  ghost predicate Carries(x: seq<bool>, ss: seq<bool>, ks: seq<nat>, q: int, r: Rate, d: nat) {
    && |ks| == |ss|
    && forall i :: 0 <= i < |ss| ==> ks[i] < |x| && ss[i] == x[ks[i]] && Shows(ks[i], At(q, i, r), r, d)
  }

  function Abs(x: int): nat {
    if x < 0 then -x else x
  }

  function Max(x: int, y: int): int {
    if x < y then y else x
  }

  /** A change of value happens within `d` of a boundary, in either direction. */
  lemma ChangeNearBoundary(k: int, k': int, q: int, r: Rate, d: nat) returns (b: int)
    requires k != k' && Shows(k, q - r.incr, r, d) && Shows(k', q, r, d)
    ensures Abs(q - Boundary(b)) <= d
  {
    b := if k < k' then k else k - 1;
  }

  /**
   One sample.  `off` is how far the loop is ahead of the ideal phase.  As long as it cannot slip, the
   correction pulls it in, and a bit emitted now is the bit being sent.
   */
  lemma LockStep(p: Phase, n: nat, off: int, q: int, k: int, k': int, s: bool, r: Rate, d: nat)
    requires p.InRange() && r.Sane() && 2 * d + r.adj < HALF && Abs(off) + d < HALF
    requires p.pll + PERIOD * n == q + off
    requires Shows(k, q - r.incr, r, d) && Shows(k', q, r, d) && (p.last != s ==> k != k')
    ensures var off' := off + Correction(p, s, r);
      && Abs(off') <= Max(if p.last != s then Abs(off) - r.adj else Abs(off), d + r.adj)
      && (p.last == s ==> off' == off)
      && Abs(off') + d < HALF
      && (Wraps(p, s, r) ==> n + 1 == k')
  {
    var c := Correction(p, s, r);
    if p.last != s {
      var b := ChangeNearBoundary(k, k', q, r, d);
      assert n == b;
      assert p.pll - HALF == off + (q - Boundary(b));
    }
  }

  /**
   Every bit emitted so far is the next bit sent; the loop, now `off` ahead of the ideal phase, has come
   `adj` closer with every transition seen, down to the floor; and bit `k` is being shown.
   */
  ghost predicate OnTrack(x: seq<bool>, t: Trace, start: nat, off: int, k: nat, r: Rate, d: nat) {
    && |t.bits| < |x| && t.bits == x[1..1 + |t.bits|]
    && Abs(off) <= Max(start - Times(t.ups + t.downs, r.adj), d + r.adj)
    && Abs(off) + d < HALF
    && k < |x| && t.now.last == x[k]
  }

  /** How one sample changes the trace. */
  ghost predicate Extends(t: Trace, u: Trace, s: bool, r: Rate)
    requires t.now.InRange() && r.Sane()
  {
    && u.now == Tick(t.now, s, r)
    && u.bits == (if Wraps(t.now, s, r) then t.bits + [s] else t.bits)
    && u.ups + u.downs == (if t.now.last != s then t.ups + t.downs + 1 else t.ups + t.downs)
  }

  lemma OnTrackNext(
    x: seq<bool>, t: Trace, u: Trace, start: nat, off: int, k: nat, k': nat, q: int, s: bool, r: Rate, d: nat)
    requires t.now.InRange() && r.Sane() && 2 * d + r.adj < HALF
    requires OnTrack(x, t, start, off, k, r, d) && Extends(t, u, s, r)
    requires Unwrapped(t) == q + off && Shows(k, q - r.incr, r, d) && Shows(k', q, r, d)
    requires k' < |x| && s == x[k']
    ensures OnTrack(x, u, start, Unwrapped(u) - (q + r.incr), k', r, d)
  {
    var off' := off + Correction(t.now, s, r);
    assert t.now.pll + PERIOD * |t.bits| == q + off;
    UnwrappedNext(t, u, s, r);
    hide Times, Shows, Max, Wraps, Correction, Abs, Tick, Unwrapped;
    LockStep(t.now, |t.bits|, off, q, k, k', s, r, d);
    Assemble(x, t, u, start, off, off', k', s, r, d);
  }

  lemma Assemble(x: seq<bool>, t: Trace, u: Trace, start: nat, off: int, off': int, k': nat, s: bool, r: Rate, d: nat)
    requires t.now.InRange() && r.Sane() && Extends(t, u, s, r) && u.now.last == s && k' < |x| && s == x[k']
    requires |t.bits| < |x| && t.bits == x[1..1 + |t.bits|] && (Wraps(t.now, s, r) ==> |t.bits| + 1 == k')
    requires Abs(off) <= Max(start - Times(t.ups + t.downs, r.adj), d + r.adj)
    requires Abs(off') <= Max(if t.now.last != s then Abs(off) - r.adj else Abs(off), d + r.adj)
    requires Abs(off') + d < HALF
    ensures OnTrack(x, u, start, off', k', r, d)
  {
    hide Times, Max, Wraps, Abs, Tick;
    OffsetBound(start, t.ups + t.downs, r.adj, d + r.adj, Abs(off), Abs(off'), t.now.last != s);
    BitsNext(x, t, u, s, r, k');
  }

  lemma UnwrappedNext(t: Trace, u: Trace, s: bool, r: Rate)
    requires t.now.InRange() && r.Sane() && Extends(t, u, s, r)
    ensures Unwrapped(u) == Unwrapped(t) + Correction(t.now, s, r) + r.incr && u.now.last == s
  {
    hide Correction;
  }

  lemma BitsNext(x: seq<bool>, t: Trace, u: Trace, s: bool, r: Rate, k: nat)
    requires t.now.InRange() && r.Sane() && Extends(t, u, s, r)
    requires |t.bits| < |x| && t.bits == x[1..1 + |t.bits|] && k < |x| && s == x[k]
    requires Wraps(t.now, s, r) ==> |t.bits| + 1 == k
    ensures |u.bits| < |x| && u.bits == x[1..1 + |u.bits|]
  {
    hide Wraps, Tick;
    if Wraps(t.now, s, r) {
      assert x[1..1 + |t.bits|] + [x[|t.bits| + 1]] == x[1..1 + |u.bits|];
    }
  }

  lemma OffsetBound(start: int, moves: nat, adj: nat, floor: int, off: int, off': int, moved: bool)
    requires adj <= floor && off <= Max(start - Times(moves, adj), floor)
    requires off' <= Max(if moved then off - adj else off, floor)
    ensures off' <= Max(start - Times(if moved then moves + 1 else moves, adj), floor)
  {
    TimesNext(moves, adj);
    hide Times;
  }

  /**
   Lock and exact bit recovery.  If every transition of the signal lies within `d` of its ideal place
   and the loop starts less than a slip away, every emitted bit is the next transmitted bit, and each
   transition seen brings the loop `adj` closer until it stays within `d + adj`.
   */
  lemma {:induction false} BitRecovery(
    x: seq<bool>, k0: nat, p: Phase, ss: seq<bool>, ks: seq<nat>, q: int, r: Rate, d: nat)
    requires p.InRange() && r.Sane() && 2 * d + r.adj < HALF && Abs(p.pll - q) + d < HALF
    requires k0 < |x| && p.last == x[k0] && Shows(k0, q - r.incr, r, d)
    requires Carries(x, ss, ks, q, r, d)
    ensures var t := Track(p, ss, r);
      OnTrack(x, t, Abs(p.pll - q), Unwrapped(t) - At(q, |ss|, r), if ss == [] then k0 else ks[|ss| - 1], r, d)
  {
    hide Carries, OnTrack, Unwrapped, Abs, Max, Times, Shows, Track, At;
    if ss == [] {
      StartsOnTrack(x, k0, p, q, r, d);
    } else {
      var n := |ss| - 1;
      CarriesLast(x, ss, ks, q, r, d);
      CarriesPrefix(x, ss, ks, q, r, d);
      BitRecovery(x, k0, p, ss[..n], ks[..n], q, r, d);
      PreviousShows(x, k0, ss, ks, q, r, d);
      RecoverNext(x, p, ss, Abs(p.pll - q), q, if n == 0 then k0 else ks[n - 1], ks[n], r, d);
    }
  }

  lemma StartsOnTrack(x: seq<bool>, k0: nat, p: Phase, q: int, r: Rate, d: nat)
    requires p.InRange() && r.Sane() && Abs(p.pll - q) + d < HALF && k0 < |x| && p.last == x[k0]
    ensures OnTrack(x, Track(p, [], r), Abs(p.pll - q), Unwrapped(Track(p, [], r)) - At(q, 0, r), k0, r, d)
  {
    assert Times(0, r.incr) == 0 && Times(0, r.adj) == 0;
  }

  lemma CarriesPrefix(x: seq<bool>, ss: seq<bool>, ks: seq<nat>, q: int, r: Rate, d: nat)
    requires ss != [] && Carries(x, ss, ks, q, r, d)
    ensures Carries(x, ss[..|ss| - 1], ks[..|ss| - 1], q, r, d)
  {
    hide Shows, At;
  }

  lemma RecoverNext(x: seq<bool>, p: Phase, ss: seq<bool>, start: nat, q: int, k: nat, k': nat, r: Rate, d: nat)
    requires p.InRange() && r.Sane() && 2 * d + r.adj < HALF && ss != [] && k' < |x| && ss[|ss| - 1] == x[k']
    requires var n := |ss| - 1; Shows(k, At(q, n, r) - r.incr, r, d) && Shows(k', At(q, n, r), r, d)
    requires var n := |ss| - 1; var t := Track(p, ss[..n], r);
      OnTrack(x, t, start, Unwrapped(t) - At(q, n, r), k, r, d)
    ensures var t := Track(p, ss, r);
      OnTrack(x, t, start, Unwrapped(t) - At(q, |ss|, r), k', r, d)
  {
    hide Track, Times, Shows, OnTrack, Extends, At, Unwrapped;
    var n := |ss| - 1;
    var t, u := Track(p, ss[..n], r), Track(p, ss, r);
    TrackNext(p, ss, r);
    AtNext(q, n, r);
    OnTrackNext(x, t, u, start, Unwrapped(t) - At(q, n, r), k, k', At(q, n, r), ss[n], r, d);
  }

  lemma TrackNext(p: Phase, ss: seq<bool>, r: Rate)
    requires p.InRange() && r.Sane() && ss != []
    ensures Extends(Track(p, ss[..|ss| - 1], r), Track(p, ss, r), ss[|ss| - 1], r)
  {
    hide Tick, Wraps;
  }

  lemma CarriesLast(x: seq<bool>, ss: seq<bool>, ks: seq<nat>, q: int, r: Rate, d: nat)
    requires ss != [] && Carries(x, ss, ks, q, r, d)
    ensures |ks| == |ss|
    ensures var n := |ss| - 1; ks[n] < |x| && ss[n] == x[ks[n]] && Shows(ks[n], At(q, n, r), r, d)
  {
  }

  /** The sample before the last one shows its bit, the start included. */
  lemma PreviousShows(x: seq<bool>, k0: nat, ss: seq<bool>, ks: seq<nat>, q: int, r: Rate, d: nat)
    requires ss != [] && Shows(k0, q - r.incr, r, d) && Carries(x, ss, ks, q, r, d)
    ensures var n := |ss| - 1; Shows(if n == 0 then k0 else ks[n - 1], At(q, n, r) - r.incr, r, d)
  {
    var n := |ss| - 1;
    assert Times(0, r.incr) == 0;
    hide Shows, Times;
    if n > 0 {
      AtNext(q, n - 1, r);
    }
  }

  lemma AtNext(q: int, i: nat, r: Rate)
    ensures At(q, i + 1, r) == At(q, i, r) + r.incr
  {
    TimesNext(i, r.incr);
  }

  /** Enough transitions lock the loop, and from then on it stays within `d + adj`. */
  lemma LockAcquired(x: seq<bool>, k0: nat, p: Phase, ss: seq<bool>, ks: seq<nat>, q: int, r: Rate, d: nat)
    requires p.InRange() && r.Sane() && 2 * d + r.adj < HALF && Abs(p.pll - q) + d < HALF
    requires k0 < |x| && p.last == x[k0] && Shows(k0, q - r.incr, r, d)
    requires Carries(x, ss, ks, q, r, d)
    requires var t := Track(p, ss, r); Abs(p.pll - q) <= d + r.adj + Times(t.ups + t.downs, r.adj)
    ensures Abs(Unwrapped(Track(p, ss, r)) - At(q, |ss|, r)) <= d + r.adj
  {
    hide Track, Times, Shows, Carries, At, Unwrapped;
    BitRecovery(x, k0, p, ss, ks, q, r, d);
  }

  // ---- the rate in use ----

  const BAUD_RATE := 8000
  const SAMPLE_RATE := 74957
  const BAUD_INCR: nat := BAUD_RATE * 0x10000 / SAMPLE_RATE
  const CHIBI: Rate := Rate(BAUD_INCR, BAUD_INCR / 4)

  /** With the shipped rates the loop tolerates almost half a bit of jitter. */
  lemma ShippedRate()
    ensures CHIBI == Rate(6994, 1748) && CHIBI.Sane()
    ensures forall d: nat :: d <= 15509 <==> 2 * d + CHIBI.adj < HALF
  {
  }
}
