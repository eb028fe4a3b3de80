/** Interrupt-time measurement and timestamp extension of ucosii/uC-CPU/cpu_core.c.

    Time is an unbounded tick count; reading the timer truncates it to the timer's width. The
    environment supplies the tick at which each call reads the timer.
  */
module CpuTime {
  import opened Arithmetic

  // ================================================ interrupts-disabled measurement

  /** Values of the 32-bit timer type CPU_TS_TMR. */
  const TMR: nat := 0x1_0000_0000
  /** The nesting counter is a 16-bit word. */
  const NEST_MAX: nat := 0xFFFF

  /** The measurement variables as one value. */
  datatype Meas = Meas(nest: nat, start: nat, maxCur: nat, max: nat)

  datatype Event = Start(at: nat) | Stop(at: nat) | ZeroMaxCur

  function NestUp(x: nat): nat { if x == NEST_MAX then 0 else x + 1 }

  function NestDown(x: nat): nat { if x == 0 then NEST_MAX else x - 1 }

  /** Up and down are each other's inverse, at the ends of the counter's range too. */
  lemma NestingReturns(x: nat)
    requires x <= NEST_MAX
    ensures NestUp(x) <= NEST_MAX && NestDown(NestUp(x)) == x && NestDown(x) <= NEST_MAX && NestUp(NestDown(x)) == x
  {
  }

  function Step(m: Meas, e: Event): Meas {
    match e
    case Start(t) =>
      m.(nest := NestUp(m.nest), start := if m.nest == 0 then t % TMR else m.start)
    case Stop(t) =>
      var nest := NestDown(m.nest);
      if nest != 0 then m.(nest := nest) else
        var d := Length(m.start, t);
        m.(nest := 0, maxCur := Max(m.maxCur, d), max := Max(m.max, d))
    case ZeroMaxCur => m.(maxCur := 0)
  }

  class IntDisMeas {
    var measCtr: nat
    var nestCtr: nat
    var startCnts: nat
    var stopCnts: nat
    var maxCurCnts: nat
    var maxCnts: nat
    var ovrhdCnts: nat

    ghost predicate Valid()
      reads this
    {
      nestCtr <= NEST_MAX && startCnts < TMR && maxCurCnts < TMR && maxCnts < TMR && ovrhdCnts < TMR
    }

    ghost function State(): Meas
      reads this
    {
      Meas(nestCtr, startCnts, maxCurCnts, maxCnts)
    }

    constructor ()
      ensures Valid() && State() == Meas(0, 0, 0, 0) && ovrhdCnts == 0
    {
      measCtr, nestCtr, startCnts, stopCnts, maxCurCnts, maxCnts, ovrhdCnts := 0, 0, 0, 0, 0, 0, 0;
    }

    /** `CPU_IntDisMeasStart`, reading the timer at tick `now`. */
    method MeasStart(now: nat)
      requires Valid()
      modifies `measCtr, `nestCtr, `startCnts
      ensures Valid() && State() == Step(old(State()), Start(now))
    {
      measCtr := NestUp(measCtr);
      if nestCtr == 0 {
        startCnts := now % TMR;
      }
      nestCtr := NestUp(nestCtr);
    }

    /** `CPU_IntDisMeasStop`. */
    method MeasStop(now: nat)
      requires Valid()
      modifies `nestCtr, `stopCnts, `maxCurCnts, `maxCnts
      ensures Valid() && State() == Step(old(State()), Stop(now))
    {
      nestCtr := NestDown(nestCtr);
      if nestCtr == 0 {
        stopCnts := now % TMR;
        var disabled := (stopCnts - startCnts) % TMR;
        StartIsReduced(startCnts, now);
        if maxCurCnts < disabled {
          maxCurCnts := disabled;
        }
        if maxCnts < disabled {
          maxCnts := disabled;
        }
      }
    }

    /** `CPU_IntDisMeasMaxCalc`: overhead taken off, never below zero. */
    method MaxCalc(tot: nat) returns (m: nat)
      requires Valid()
      ensures m == Max(0, if tot > ovrhdCnts then tot - ovrhdCnts else 0)
      ensures m + ovrhdCnts == Max(tot, ovrhdCnts)
    {
      m := tot;
      if m > ovrhdCnts {
        m := m - ovrhdCnts;
      } else {
        m := 0;
      }
    }

    method MaxCurGet() returns (m: nat)
      requires Valid()
      ensures m + ovrhdCnts == Max(maxCurCnts, ovrhdCnts)
    {
      m := MaxCalc(maxCurCnts);
    }

    method MaxGet() returns (m: nat)
      requires Valid()
      ensures m + ovrhdCnts == Max(maxCnts, ovrhdCnts)
    {
      m := MaxCalc(maxCnts);
    }

    /** Critical sections of interrupts. */
    method Interrupts(evs: seq<Event>)
      requires Valid() && forall k :: 0 <= k < |evs| ==> !evs[k].ZeroMaxCur?
      modifies `measCtr, `nestCtr, `startCnts, `stopCnts, `maxCurCnts, `maxCnts
      ensures Valid() && State() == Steps(old(State()), evs, |evs|)
    {
      for k := 0 to |evs|
        invariant Valid() && State() == Steps(old(State()), evs, k)
      {
        match evs[k]
        case Start(now) => MeasStart(now);
        case Stop(now) => MeasStop(now);
      }
    }

    /** `CPU_IntDisMeasMaxCurReset`: between are the events of interrupts after its read and before its clear. */
    method MaxCurReset(between: seq<Event>) returns (m: nat)
      requires Valid() && forall k :: 0 <= k < |between| ==> !between[k].ZeroMaxCur?
      modifies `measCtr, `nestCtr, `startCnts, `stopCnts, `maxCurCnts, `maxCnts
      ensures Valid() && State() == Step(Steps(old(State()), between, |between|), ZeroMaxCur)
      ensures m + ovrhdCnts == Max(old(maxCurCnts), ovrhdCnts)
    {
      m := MaxCurGet();
      Interrupts(between);
      maxCurCnts := 0;
    }

    /** `CPU_IntDisMeasInit`: `ticks[2k]`, `ticks[2k+1]` are the two timer reads of the k-th empty section.
        The overhead is the rounded mean of the measured lengths (summed on 32-bit words). */
    method Init(nbr: nat, ticks: seq<nat>)
      requires 0 < nbr < 0x1_0000 && |ticks| == 2 * nbr
      modifies this
      ensures Valid() && State() == Meas(0, startCnts, 0, 0)
      ensures ovrhdCnts == RoundedMean(SumOfLengths(ticks, nbr) % TMR, nbr)
      ensures NearestOrWrapped(SumOfLengths(ticks, nbr), nbr, ovrhdCnts)
    {
      measCtr, nestCtr, startCnts, stopCnts, maxCurCnts, maxCnts, ovrhdCnts := 0, 0, 0, 0, 0, 0, 0;
      var tot := 0;
      var i := 0;
      while i < nbr
        invariant i <= nbr && Valid() && nestCtr == 0 && ovrhdCnts == 0
        invariant tot == SumOfLengths(ticks, i) % TMR
      {
        maxCurCnts := 0;
        MeasStart(ticks[2 * i]);
        MeasStop(ticks[2 * i + 1]);
        LengthFromRead(ticks[2 * i], ticks[2 * i + 1]);
        assert maxCurCnts == Length(ticks[2 * i], ticks[2 * i + 1]);
        NextSum(ticks, i);
        tot := (tot + maxCurCnts) % TMR;
        i := i + 1;
      }
      ovrhdCnts := RoundedMean(tot, nbr);
      OverheadIsNearest(SumOfLengths(ticks, nbr), nbr, ovrhdCnts);
      maxCurCnts := 0;
      maxCnts := 0;
    }
  }

  /** The wrap-safe length of a section between two ticks. */
  function Length(from: nat, to: nat): (d: nat)
    ensures d < TMR
  {
    (to % TMR - from % TMR) % TMR
  }

  lemma StartIsReduced(start: nat, to: nat)
    requires start < TMR
    ensures Length(start, to) == (to % TMR - start) % TMR
  {
    DivModUnique(TMR, start, 0, start);
  }

  lemma LengthFromRead(from: nat, to: nat)
    ensures Length(from % TMR, to) == Length(from, to)
  {
    ModIdempotent(TMR, from);
  }

  /** Shorter than one timer wrap, a section's length is exact. */
  lemma LengthIsExact(from: nat, to: nat)
    requires from <= to
    ensures Length(from, to) == (to - from) % TMR
    ensures to - from < TMR ==> Length(from, to) == to - from
  {
    var q := to / TMR - from / TMR;
    assert to - from == TMR * q + (to % TMR - from % TMR);
    AddMultiple(TMR, to % TMR - from % TMR, q);
  }

  /** The lengths of the first `n` empty sections, added up. */
  function SumOfLengths(ticks: seq<nat>, n: nat): nat
    requires 2 * n <= |ticks|
  {
    if n == 0 then 0 else SumOfLengths(ticks, n - 1) + Length(ticks[2 * n - 2], ticks[2 * n - 1])
  }

  lemma NextSum(ticks: seq<nat>, n: nat)
    requires 2 * n + 2 <= |ticks|
    ensures (SumOfLengths(ticks, n) % TMR + Length(ticks[2 * n], ticks[2 * n + 1])) % TMR
         == SumOfLengths(ticks, n + 1) % TMR
  {
    ModIdempotent(TMR, SumOfLengths(ticks, n));
    AddCongruent(TMR, SumOfLengths(ticks, n) % TMR, SumOfLengths(ticks, n),
                 Length(ticks[2 * n], ticks[2 * n + 1]));
  }

  /** The mean of `nbr` lengths totalling `tot`, rounded to the nearest count. */
  function RoundedMean(tot: nat, nbr: nat): (m: nat)
    requires tot < TMR && 0 < nbr < 0x1_0000
    ensures m < TMR
  {
    QuotientIsSmaller((tot + nbr / 2) % TMR, nbr);
    (tot + nbr / 2) % TMR / nbr
  }

  predicate IsNearestMean(tot: nat, nbr: nat, m: nat) {
    2 * (m * nbr) <= 2 * tot + nbr && 2 * tot <= 2 * (m * nbr) + nbr
  }

  /** It is the whole number nearest to the mean: off by half a count at most. */
  lemma MeanIsNearest(tot: nat, nbr: nat)
    requires 0 < nbr < 0x1_0000 && tot + nbr / 2 < TMR
    ensures IsNearestMean(tot, nbr, RoundedMean(tot, nbr))
  {
    var x := tot + nbr / 2;
    var m := x / nbr;
    assert x % TMR == x;
    assert x == nbr * m + x % nbr;
    assert m * nbr == nbr * m;
  }

  /** If all of the empty sections take the same time, that is the overhead. */
  lemma {:induction false} EqualSections(ticks: seq<nat>, n: nat, d: nat)
    requires 2 * n <= |ticks| && forall k :: 0 <= k < n ==> Length(ticks[2 * k], ticks[2 * k + 1]) == d
    ensures SumOfLengths(ticks, n) == n * d
  {
    if n > 0 {
      EqualSections(ticks, n - 1, d);
      assert ticks[2 * n - 2] == ticks[2 * (n - 1)];
      assert n * d == (n - 1) * d + d;
    }
  }

  lemma {:induction false} OverheadOfEqual(ticks: seq<nat>, nbr: nat, d: nat)
    requires 0 < nbr < 0x1_0000 && 2 * nbr <= |ticks| && nbr * d + nbr / 2 < TMR
    requires forall k :: 0 <= k < nbr ==> Length(ticks[2 * k], ticks[2 * k + 1]) == d
    ensures RoundedMean(SumOfLengths(ticks, nbr) % TMR, nbr) == d
  {
    EqualSections(ticks, nbr, d);
    var tot := nbr * d;
    DivModUnique(TMR, tot, 0, tot);
    DivModUnique(TMR, tot + nbr / 2, 0, tot + nbr / 2);
    DivModUnique(nbr, tot + nbr / 2, d, nbr / 2);
  }

  /** The sum may wrap around. */
  ghost predicate NearestOrWrapped(sum: nat, nbr: nat, m: nat) {
    sum + nbr / 2 < TMR ==> IsNearestMean(sum, nbr, m)
  }

  lemma OverheadIsNearest(sum: nat, nbr: nat, m: nat)
    requires 0 < nbr < 0x1_0000 && m == RoundedMean(sum % TMR, nbr)
    ensures NearestOrWrapped(sum, nbr, m)
  {
    if sum + nbr / 2 < TMR {
      DivModUnique(TMR, sum, 0, sum);
      MeanIsNearest(sum, nbr);
    }
  }

  // ------------------------------------------------ every well-nested run

  /** The variables after the first `n` events. */
  function Steps(m: Meas, evs: seq<Event>, n: nat): Meas
    requires n <= |evs|
  {
    if n == 0 then m else Step(Steps(m, evs, n - 1), evs[n - 1])
  }

  /** From the state that initialisation leaves: no section open, no maximum, and some old start value. */
  function Run(start: nat, evs: seq<Event>, n: nat): Meas
    requires n <= |evs|
  {
    Steps(Meas(0, start, 0, 0), evs, n)
  }

  /** Starts less stops among the first `n` events. */
  function Depth(evs: seq<Event>, n: nat): int
    requires n <= |evs|
  {
    if n == 0 then 0 else
      Depth(evs, n - 1) + (match evs[n - 1] case Start(_) => 1 case Stop(_) => -1 case ZeroMaxCur => 0)
  }

  ghost predicate WellNested(evs: seq<Event>) {
    forall k :: 0 <= k <= |evs| ==> 0 <= Depth(evs, k) <= NEST_MAX
  }

  /** Event `i` entered an outermost section that is still open after `n` events. */
  ghost predicate OpenAt(evs: seq<Event>, i: nat, n: nat) {
    && i < n <= |evs| && evs[i].Start? && Depth(evs, i) == 0
    && forall k :: i < k <= n ==> Depth(evs, k) > 0
  }

  /** Events `i` and `j` enter and leave one outermost section. */
  ghost predicate Section(evs: seq<Event>, i: nat, j: nat) {
    OpenAt(evs, i, j) && j < |evs| && evs[j].Stop? && Depth(evs, j + 1) == 0
  }

  ghost function SectionLength(evs: seq<Event>, i: nat, j: nat): nat
    requires Section(evs, i, j)
  {
    Length(evs[i].at, evs[j].at)
  }

  /** `m` is the greatest length among the sections that end at one of the events since .. n-1, and 0
      when there is none. */
  ghost predicate IsMaxBetween(evs: seq<Event>, since: nat, n: nat, m: nat) {
    && (forall i: nat, j: nat :: Section(evs, i, j) && since <= j < n ==> SectionLength(evs, i, j) <= m)
    && (m == 0 || exists i: nat, j: nat :: Section(evs, i, j) && since <= j < n && SectionLength(evs, i, j) == m)
  }

  /** One past the last clear of the resettable maximum among the first `n` events. */
  function LastClear(evs: seq<Event>, n: nat): (c: nat)
    requires n <= |evs|
    ensures c <= n
  {
    if n == 0 then 0 else if evs[n - 1].ZeroMaxCur? then n else LastClear(evs, n - 1)
  }

  lemma OpenIsUnique(evs: seq<Event>, i: nat, o: nat, n: nat)
    requires OpenAt(evs, i, n) && OpenAt(evs, o, n)
    ensures i == o
  {
  }

  /** No section ends at event n: the maximum stands. */
  lemma MaxUnchanged(evs: seq<Event>, since: nat, n: nat, m: nat)
    requires n < |evs| && IsMaxBetween(evs, since, n, m)
    requires !evs[n].Stop? || Depth(evs, n + 1) != 0
    ensures IsMaxBetween(evs, since, n + 1, m)
  {
    forall i: nat, j: nat | Section(evs, i, j) && since <= j < n + 1 ensures SectionLength(evs, i, j) <= m {
      assert j != n;
    }
  }

  /** The section (o, n) ends at event n: the maximum takes it in. */
  lemma MaxUpdated(evs: seq<Event>, since: nat, n: nat, m: nat, o: nat)
    requires since <= n && IsMaxBetween(evs, since, n, m) && Section(evs, o, n)
    ensures IsMaxBetween(evs, since, n + 1, Max(m, SectionLength(evs, o, n)))
  {
    var d := SectionLength(evs, o, n);
    forall i: nat, j: nat | Section(evs, i, j) && since <= j < n + 1
      ensures SectionLength(evs, i, j) <= Max(m, d)
    {
      if j == n {
        OpenIsUnique(evs, i, o, n);
      }
    }
  }

  ghost predicate Tracks(evs: seq<Event>, n: nat, m: Meas)
    requires n <= |evs|
  {
    && m.nest == Depth(evs, n)
    && (m.nest > 0 ==> exists o: nat :: OpenAt(evs, o, n) && m.start == evs[o].at % TMR)
    && IsMaxBetween(evs, 0, n, m.max)
    && IsMaxBetween(evs, LastClear(evs, n), n, m.maxCur)
    && m.maxCur <= m.max
  }

  /** Over every well-nested run after initialisation, the counter is the nesting depth and the two maxima
      are the greatest wrap-safe lengths of the completed outermost sections: all of them, and those
      since the last clear. */
  lemma {:induction false} MeasurementIsMaximum(start: nat, evs: seq<Event>, n: nat)
    requires WellNested(evs) && n <= |evs|
    ensures Tracks(evs, n, Run(start, evs, n))
  {
    if n > 0 {
      MeasurementIsMaximum(start, evs, n - 1);
      assert 0 <= Depth(evs, n - 1) <= NEST_MAX && 0 <= Depth(evs, n) <= NEST_MAX;
      StepTracks(evs, n - 1, Run(start, evs, n - 1));
    }
  }

  lemma StepTracks(evs: seq<Event>, n: nat, m: Meas)
    requires n < |evs| && 0 <= Depth(evs, n) <= NEST_MAX && 0 <= Depth(evs, n + 1) <= NEST_MAX
    requires Tracks(evs, n, m)
    ensures Tracks(evs, n + 1, Step(m, evs[n]))
  {
    match evs[n]
    case Start(t) => StartTracks(evs, n, m);
    case Stop(t) => StopTracks(evs, n, m);
    case ZeroMaxCur => ZeroTracks(evs, n, m);
  }

  lemma StillOpen(evs: seq<Event>, o: nat, n: nat)
    requires n < |evs| && OpenAt(evs, o, n) && Depth(evs, n + 1) > 0
    ensures OpenAt(evs, o, n + 1)
  {
  }

  lemma StartTracks(evs: seq<Event>, n: nat, m: Meas)
    requires n < |evs| && evs[n].Start? && 0 <= Depth(evs, n) && Depth(evs, n + 1) <= NEST_MAX
    requires Tracks(evs, n, m)
    ensures Tracks(evs, n + 1, Step(m, evs[n]))
  {
    MaxUnchanged(evs, 0, n, m.max);
    MaxUnchanged(evs, LastClear(evs, n), n, m.maxCur);
    if m.nest == 0 {
      assert OpenAt(evs, n, n + 1);
    } else {
      var o: nat :| OpenAt(evs, o, n) && m.start == evs[o].at % TMR;
      StillOpen(evs, o, n);
    }
  }

  lemma StopTracks(evs: seq<Event>, n: nat, m: Meas)
    requires n < |evs| && evs[n].Stop? && 0 <= Depth(evs, n + 1) && Depth(evs, n) <= NEST_MAX
    requires Tracks(evs, n, m)
    ensures Tracks(evs, n + 1, Step(m, evs[n]))
  {
    var o: nat :| OpenAt(evs, o, n) && m.start == evs[o].at % TMR;
    if Depth(evs, n + 1) > 0 {
      MaxUnchanged(evs, 0, n, m.max);
      MaxUnchanged(evs, LastClear(evs, n), n, m.maxCur);
      StillOpen(evs, o, n);
    } else {
      LengthFromRead(evs[o].at, evs[n].at);
      MaxUpdated(evs, 0, n, m.max, o);
      MaxUpdated(evs, LastClear(evs, n), n, m.maxCur, o);
    }
  }

  lemma ZeroTracks(evs: seq<Event>, n: nat, m: Meas)
    requires n < |evs| && evs[n].ZeroMaxCur?
    requires Tracks(evs, n, m)
    ensures Tracks(evs, n + 1, Step(m, evs[n]))
  {
    MaxUnchanged(evs, 0, n, m.max);
    if m.nest > 0 {
      var o: nat :| OpenAt(evs, o, n) && m.start == evs[o].at % TMR;
      StillOpen(evs, o, n);
    }
  }

  lemma {:induction false} SameClear(evs: seq<Event>, r: nat, c: nat)
    requires r <= c <= |evs| && forall k :: r <= k < c ==> !evs[k].ZeroMaxCur?
    ensures LastClear(evs, r) == LastClear(evs, c)
  {
    if r < c {
      SameClear(evs, r, c - 1);
    }
  }

  /** A reset that reads after r events and clears at event c loses a maximum, which is then in neither this
      reading nor the next, exactly when a longer outermost section is completed in between. */
  lemma {:induction false} ResetLosesExactly(start: nat, evs: seq<Event>, r: nat, c: nat)
    requires WellNested(evs) && r <= c < |evs| && evs[c].ZeroMaxCur?
    requires forall k :: r <= k < c ==> !evs[k].ZeroMaxCur?
    ensures var read := Run(start, evs, r).maxCur;
            Run(start, evs, c).maxCur > read <==>
              exists i: nat, j: nat :: Section(evs, i, j) && r <= j < c && SectionLength(evs, i, j) > read
    ensures Run(start, evs, c + 1).maxCur == 0
  {
    MeasurementIsMaximum(start, evs, r);
    MeasurementIsMaximum(start, evs, c);
    SameClear(evs, r, c);
    LongerSince(evs, LastClear(evs, r), r, c, Run(start, evs, r).maxCur, Run(start, evs, c).maxCur);
  }

  /** The greatest length grows exactly when a longer section ends later. */
  lemma LongerSince(evs: seq<Event>, since: nat, r: nat, c: nat, read: nat, now: nat)
    requires since <= r <= c && IsMaxBetween(evs, since, r, read) && IsMaxBetween(evs, since, c, now)
    ensures now > read <==> exists i: nat, j: nat :: Section(evs, i, j) && r <= j < c && SectionLength(evs, i, j) > read
  {
    if now > read {
      var i: nat, j: nat :| Section(evs, i, j) && since <= j < c && SectionLength(evs, i, j) == now;
      assert !(since <= j < r);
    }
  }

  // ================================================ timestamp extension

  /** A timestamp of `bits` bits kept by a timer of `tmrBits` bits (`CPU_TS_Get32`, `CPU_TS_Get64`). */
  class Timestamp {
    const bits: nat
    const tmrBits: nat
    var accum: nat
    var tmrPrev: nat

    ghost predicate Valid()
      reads this
    {
      tmrBits <= bits && accum < Pow2(bits) && tmrPrev < Pow2(tmrBits)
    }

    /** `CPU_TS_Init`, reading the timer at tick `now`. */
    constructor (bits: nat, tmrBits: nat, now: int)
      requires tmrBits <= bits
      ensures Valid() && this.bits == bits && this.tmrBits == tmrBits
      ensures accum == 0 && tmrPrev == now % Pow2(tmrBits)
    {
      this.bits, this.tmrBits := bits, tmrBits;
      accum := 0;
      tmrPrev := now % Pow2(tmrBits);
    }

    /** Reads the timer at tick `now`. `ticks` is the schedule of all reads, the initial one first, of
        which `n` have been made. */
    method Get(now: int, ghost ticks: seq<int>, ghost n: nat) returns (ts: nat)
      requires Valid() && 0 < n < |ticks| && ticks[n] == now
      requires tmrPrev == ticks[n - 1] % Pow2(tmrBits)
      requires accum == Accumulated(ticks, tmrBits, n) % Pow2(bits)
      modifies this
      ensures Valid() && ts == accum == Accumulated(ticks, tmrBits, n + 1) % Pow2(bits)
      ensures tmrPrev == ticks[n] % Pow2(tmrBits)
    {
      var cur := now % Pow2(tmrBits);
      var delta := (cur - tmrPrev) % Pow2(tmrBits);
      ghost var before := Accumulated(ticks, tmrBits, n);
      ModIdempotent(Pow2(bits), before);
      AddCongruent(Pow2(bits), accum, before, delta);
      accum := (accum + delta) % Pow2(bits);
      tmrPrev := cur;
      ts := accum;
    }
  }

  /** The timer deltas between the first `n` reads, added up. */
  ghost function Accumulated(ticks: seq<int>, tmrBits: nat, n: nat): nat
    requires n <= |ticks|
  {
    if n < 2 then 0 else
      Accumulated(ticks, tmrBits, n - 1)
      + (ticks[n - 1] % Pow2(tmrBits) - ticks[n - 2] % Pow2(tmrBits)) % Pow2(tmrBits)
  }

  ghost predicate Increasing(ticks: seq<int>) {
    forall j, k :: 0 <= j <= k < |ticks| ==> ticks[j] <= ticks[k]
  }

  /** Whole timer wraps that fit between successive reads. */
  ghost function MissedWraps(ticks: seq<int>, tmrBits: nat, n: nat): int
    requires n <= |ticks|
  {
    if n < 2 then 0 else
      MissedWraps(ticks, tmrBits, n - 1) + (ticks[n - 1] - ticks[n - 2]) / Pow2(tmrBits)
  }

  lemma DeltaPlusWraps(w: nat, a: int, b: int)
    requires w > 0
    ensures (b % w - a % w) % w + w * ((b - a) / w) == b - a
  {
    var q := b / w - a / w;
    assert w * q == w * (b / w) - w * (a / w);
    assert b - a == (b % w - a % w) + w * q;
    AddMultiple(w, b % w - a % w, q);
  }

  /** The deltas account for all elapsed ticks except the missed wraps. */
  lemma {:induction false} AccumulatedPlusMissed(ticks: seq<int>, tmrBits: nat, n: nat)
    requires 0 < n <= |ticks|
    ensures Accumulated(ticks, tmrBits, n) + Pow2(tmrBits) * MissedWraps(ticks, tmrBits, n)
         == ticks[n - 1] - ticks[0]
  {
    if n >= 2 {
      AccumulatedPlusMissed(ticks, tmrBits, n - 1);
      var w := Pow2(tmrBits);
      DeltaPlusWraps(w, ticks[n - 2], ticks[n - 1]);
      Distribute(w, 1, MissedWraps(ticks, tmrBits, n - 1), (ticks[n - 1] - ticks[n - 2]) / w);
    }
  }

  /** The timestamp is the true elapsed time modulo 2^bits exactly when the timer wraps missed between
      reads happen to make up a whole number of timestamp wraps. */
  lemma TimestampIsElapsed(ticks: seq<int>, bits: nat, tmrBits: nat, n: nat)
    requires 0 < n <= |ticks| && tmrBits <= bits
    ensures Accumulated(ticks, tmrBits, n) % Pow2(bits) == (ticks[n - 1] - ticks[0]) % Pow2(bits)
       <==> MissedWraps(ticks, tmrBits, n) % Pow2(bits - tmrBits) == 0
  {
    AccumulatedPlusMissed(ticks, tmrBits, n);
    var w, k, miss := Pow2(tmrBits), Pow2(bits - tmrBits), MissedWraps(ticks, tmrBits, n);
    Pow2Splits(tmrBits, bits - tmrBits);
    SameRemainder(Pow2(bits), ticks[n - 1] - ticks[0], Accumulated(ticks, tmrBits, n));
    DividesMod(k, miss);
    DividesScaled(w, k, miss);
  }

  lemma DividesScaled(w: int, k: int, x: int)
    requires w > 0
    ensures Divides(w * k, w * x) <==> Divides(k, x)
  {
    if Divides(w * k, w * x) {
      var q :| w * x == w * k * q;
      assert w * k * q == w * (k * q);
      CancelFactor(w, x, k * q);
      DividesBy(k, x, q);
    }
    if Divides(k, x) {
      var q :| x == k * q;
      assert w * (k * q) == w * k * q;
      DividesBy(w * k, w * x, q);
    }
  }

  lemma CancelFactor(w: int, x: int, y: int)
    requires w > 0 && w * x == w * y
    ensures x == y
  {
    assert w * (x - y) == 0;
    SmallMultiple(w, x - y);
  }

  /** Reads in order and closer together than one timer wrap miss nothing, so the timestamp is exact. */
  lemma {:induction false} CloseReadsAreExact(ticks: seq<int>, bits: nat, tmrBits: nat, n: nat)
    requires 0 < n <= |ticks| && tmrBits <= bits && Increasing(ticks)
    requires forall k :: 0 < k < n ==> ticks[k] - ticks[k - 1] < Pow2(tmrBits)
    ensures MissedWraps(ticks, tmrBits, n) == 0
    ensures Accumulated(ticks, tmrBits, n) == ticks[n - 1] - ticks[0]
  {
    if n >= 2 {
      CloseReadsAreExact(ticks, bits, tmrBits, n - 1);
      DivModUnique(Pow2(tmrBits), ticks[n - 1] - ticks[n - 2], 0, ticks[n - 1] - ticks[n - 2]);
    }
    AccumulatedPlusMissed(ticks, tmrBits, n);
  }
}
