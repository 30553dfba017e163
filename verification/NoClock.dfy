/**
 The clock that does not tick: edge times computed by modular arithmetic, checked here
 against a clock that ticks through every instant.

 Times are whole ticks of the time resolution.  An edge offset at or above the period, which
 the constructor and the period setter let through, means its remainder to the ticking clock.
*/
module NoClock {
  import opened Common
  import opened Kernel

  datatype Clock = Clock(
    period: Time, posedge: Time, negedge: Time, sample: Time, setedge: Time, shift: Time,
    now: Time, frequencySet: Time, freqCount: nat, baseCount: nat)

  /** The two edges never coincide. */
  predicate TwoEdges(c: Clock) {
    c.period > 0 && c.posedge % c.period != c.negedge % c.period
  }

  /** Both edges lie within the first period. */
  predicate Early(c: Clock) {
    c.posedge < c.period && c.negedge < c.period
  }

  function At(c: Clock, n: Time): Clock { c.(now := n) }

  /** How far the clock is into its period. */
  function PhaseOf(c: Clock): (r: Time)
    requires c.period > 0
    ensures r < c.period
  {
    (c.now + c.shift) % c.period
  }

  // ---------------------------------------------------------------- the source's expressions

  function Delay(now: Time, period: Time, offset: Time, shift: Time): Time
    requires period > 0
  {
    var remainder := (now + shift) % period;
    if remainder == offset then 0
    else if remainder < offset then offset - remainder
    else period + offset - remainder
  }

  function Until(c: Clock, offset: Time, cycles: nat): Time
    requires c.period > 0
  {
    cycles * c.period + Delay(c.now, c.period, offset, c.shift)
  }

  function Next(c: Clock, offset: Time, cycles: nat): Time
    requires c.period > 0
  {
    var t := Delay(c.now, c.period, offset, c.shift);
    (cycles + if t == 0 then 1 else 0) * c.period + t
  }

  predicate Read(c: Clock)
    requires c.period > 0
  {
    Until(c, c.negedge, 0) < Until(c, c.posedge, 0)
  }

  function UntilAnyedge(c: Clock, cycles: nat): Time
    requires c.period > 0
  {
    cycles * c.period + if Read(c) then Until(c, c.negedge, 0) else Until(c, c.posedge, 0)
  }

  function NextAnyedge(c: Clock, cycles: nat): Time
    requires c.period > 0
  {
    cycles * c.period + if Read(c) then Next(c, c.negedge, 0) else Next(c, c.posedge, 0)
  }

  /** The code tests the sample offset here. */
  predicate AtSetedgeTime(c: Clock)
    requires c.period > 0
  {
    Until(c, c.sample, 0) == 0
  }

  function Clocks(c: Clock): nat
    requires c.period > 0 && c.frequencySet <= c.now + c.shift
  {
    (c.now + c.shift - c.frequencySet) / c.period
  }

  function Cycles(c: Clock): nat
    requires c.period > 0 && c.frequencySet <= c.now + c.shift
  {
    c.baseCount + Clocks(c)
  }

  // ---------------------------------------------------------------- the ticking clock

  /** The ticking clock is on the edge with this offset at time t. */
  predicate OnEdge(t: int, period: Time, offset: Time, shift: Time)
    requires period > 0
  {
    (t + shift) % period == offset % period
  }

  /** Edges seen by ticking through a, a + 1, ..., a + n - 1. */
  function EdgesIn(a: int, n: nat, period: Time, offset: Time, shift: Time): nat
    requires period > 0
  {
    if n == 0 then 0
    else EdgesIn(a, n - 1, period, offset, shift) + if OnEdge(a + n - 1, period, offset, shift) then 1 else 0
  }

  lemma ModUnique(a: int, p: int, q: int, r: int)
    requires p > 0 && 0 <= r < p && a == p * q + r
    ensures a % p == r && a / p == q
  {
    if a / p < q {
      TimesMonotone(p, a / p + 1, q);
    } else if q < a / p {
      TimesMonotone(p, q + 1, a / p);
    }
  }

  lemma Small(a: int, p: int)
    requires 0 <= a < p
    ensures a % p == a && a / p == 0
  {
    assert p * 0 == 0;
    ModUnique(a, p, 0, a);
  }

  /** Advancing by less than two periods from phase r. */
  lemma Phase(m: int, e: int, p: int)
    requires p > 0 && 0 <= m % p + e < 2 * p
    ensures (m + e) % p == if m % p + e < p then m % p + e else m % p + e - p
  {
    var q, r := m / p, m % p;
    assert m == p * q + r;
    if r + e < p {
      ModUnique(m + e, p, q, r + e);
    } else {
      assert p * (q + 1) == p * q + p;
      ModUnique(m + e, p, q + 1, r + e - p);
    }
  }

  lemma WholePeriod(m: int, p: int)
    requires p > 0
    ensures (m + p) % p == m % p
  {
    Phase(m, p, p);
  }

  lemma AddPeriods(m: int, k: int, p: int)
    requires p > 0
    ensures (m + k * p) % p == m % p && (m + k * p) / p == m / p + k
  {
    assert p * (m / p + k) == p * (m / p) + k * p;
    ModUnique(m + k * p, p, m / p + k, m % p);
  }

  /** No second edge within a period of an edge. */
  lemma EdgesApart(t: int, u: int, period: Time, offset: Time, shift: Time)
    requires period > 0 && OnEdge(t, period, offset, shift) && t < u < t + period
    ensures !OnEdge(u, period, offset, shift)
  {
    Phase(t + shift, u - t, period);
  }

  lemma DelayLands(now: Time, period: Time, offset: Time, shift: Time)
    requires period > 0
    ensures OnEdge(now + Delay(now, period, offset, shift), period, offset, shift)
  {
    var m, d := now + shift, Delay(now, period, offset, shift);
    var k := m / period + if m % period > offset then 1 else 0;
    assert m == period * (m / period) + m % period;
    assert period * (m / period + 1) == period * (m / period) + period;
    assert m + d == offset + k * period;
    AddPeriods(offset, k, period);
  }

  /** The delay ends on the edge, and skips none exactly when the offset is less than a period ahead of the phase. */
  lemma DelayExactly(now: Time, period: Time, offset: Time, shift: Time)
    requires period > 0
    ensures var d := Delay(now, period, offset, shift);
            OnEdge(now + d, period, offset, shift) &&
            ((forall t :: now <= t < now + d ==> !OnEdge(t, period, offset, shift))
             <==> offset < period + (now + shift) % period)
  {
    var d := Delay(now, period, offset, shift);
    DelayLands(now, period, offset, shift);
    if d < period {
      forall t | now <= t < now + d ensures !OnEdge(t, period, offset, shift) {
        if OnEdge(t, period, offset, shift) {
          EdgesApart(t, now + d, period, offset, shift);
        }
      }
    } else {
      WholePeriod(now + d - period + shift, period);
      assert OnEdge(now + d - period, period, offset, shift);
    }
  }

  /** The usual case: an offset below the period. */
  lemma DelayIsWait(now: Time, period: Time, offset: Time, shift: Time)
    requires offset < period
    ensures var d := Delay(now, period, offset, shift);
            d < period && OnEdge(now + d, period, offset, shift) &&
            forall t :: now <= t < now + d ==> !OnEdge(t, period, offset, shift)
  {
    DelayExactly(now, period, offset, shift);
  }

  lemma DelaySplit(now: Time, period: Time, offset: Time, shift: Time) returns (j: nat)
    requires period > 0
    ensures Delay(now, period, offset, shift) == Delay(now, period, offset % period, shift) + j * period
  {
    var r, whole := (now + shift) % period, period * (offset / period);
    assert offset == whole + offset % period;
    if offset < period {
      Small(offset, period);
      j := 0;
    } else if offset % period < r {
      j := offset / period - 1;
      assert j * period == whole - period;
    } else {
      j := offset / period;
    }
  }

  lemma DelayRemainder(now: Time, period: Time, offset: Time, shift: Time)
    requires period > 0
    ensures Delay(now, period, offset, shift) % period == Delay(now, period, offset % period, shift)
  {
    var e := Delay(now, period, offset % period, shift);
    var j := DelaySplit(now, period, offset, shift);
    AddPeriods(e, j, period);
    Small(e, period);
  }

  lemma ReducedEdge(period: Time, offset: Time, shift: Time)
    requires period > 0
    ensures forall t :: OnEdge(t, period, offset % period, shift) <==> OnEdge(t, period, offset, shift)
  {
    Small(offset % period, period);
  }

  /** The delay is the wait to the nearest edge and then some whole periods. */
  lemma DelayRest(now: Time, period: Time, offset: Time, shift: Time)
    requires period > 0
    ensures var e := Delay(now, period, offset, shift) % period;
            e == Delay(now, period, offset % period, shift) && OnEdge(now + e, period, offset, shift) &&
            forall t :: now <= t < now + e ==> !OnEdge(t, period, offset, shift)
  {
    DelayRemainder(now, period, offset, shift);
    DelayIsWait(now, period, offset % period, shift);
    ReducedEdge(period, offset, shift);
  }

  // ---------------------------------------------------------------- counting edges

  lemma {:induction false} EdgesSplit(a: int, n: nat, k: nat, period: Time, offset: Time, shift: Time)
    requires period > 0
    ensures EdgesIn(a, n + k, period, offset, shift)
            == EdgesIn(a, n, period, offset, shift) + EdgesIn(a + n, k, period, offset, shift)
  {
    if k > 0 {
      EdgesSplit(a, n, k - 1, period, offset, shift);
    }
  }

  lemma {:induction false} NoEdges(a: int, n: nat, period: Time, offset: Time, shift: Time)
    requires period > 0 && forall t :: a <= t < a + n ==> !OnEdge(t, period, offset, shift)
    ensures EdgesIn(a, n, period, offset, shift) == 0
  {
    if n > 0 {
      NoEdges(a, n - 1, period, offset, shift);
    }
  }

  /** From an edge, k periods hold exactly k edges and end on an edge. */
  lemma {:induction false} EdgesFromEdge(a: int, k: nat, period: Time, offset: Time, shift: Time)
    requires period > 0 && OnEdge(a, period, offset, shift)
    ensures k * period >= 0 && EdgesIn(a, k * period, period, offset, shift) == k
    ensures OnEdge(a + k * period, period, offset, shift)
    decreases k
  {
    if k == 0 {
      assert k * period == 0;
    } else {
      assert k * period == period + (k - 1) * period;
      WholePeriod(a + shift, period);
      EdgesFromEdge(a + period, k - 1, period, offset, shift);
      EdgesSplit(a, period, (k - 1) * period, period, offset, shift);
      EdgesSplit(a, 1, period - 1, period, offset, shift);
      forall t | a + 1 <= t < a + period ensures !OnEdge(t, period, offset, shift) {
        EdgesApart(a, t, period, offset, shift);
      }
      NoEdges(a + 1, period - 1, period, offset, shift);
      assert EdgesIn(a, 1, period, offset, shift) == 1;
    }
  }

  /**
   `until_...(k)`: an edge at the end of the wait, and from now to then as many edges as whole
   periods: k, and those the delay skips.  They are k exactly when the offset is less than a
   period ahead of the phase.
  */
  lemma UntilCountsEdges(c: Clock, offset: Time, k: nat)
    requires c.period > 0
    ensures var d := Until(c, offset, k);
            OnEdge(c.now + d, c.period, offset, c.shift) &&
            EdgesIn(c.now, d, c.period, offset, c.shift) == k + Delay(c.now, c.period, offset, c.shift) / c.period &&
            (EdgesIn(c.now, d, c.period, offset, c.shift) == k <==> offset < c.period + PhaseOf(c))
  {
    DelayPasses(c.now, c.period, offset, c.shift, k, Until(c, offset, k));
    NoWholePeriod(Delay(c.now, c.period, offset, c.shift), c.period);
  }

  lemma DelayPasses(now: Time, p: Time, offset: Time, shift: Time, k: nat, total: nat)
    requires p > 0 && total == k * p + Delay(now, p, offset, shift)
    ensures OnEdge(now + total, p, offset, shift)
    ensures EdgesIn(now, total, p, offset, shift) == k + Delay(now, p, offset, shift) / p
  {
    var q, e := DelayParts(now, p, offset, shift);
    Distribute(k, q, p);
    WaitCountsEdges(now, e, k + q, total, p, offset, shift);
  }

  /** The whole periods and the rest of a delay. */
  lemma DelayParts(now: Time, p: Time, offset: Time, shift: Time) returns (q: nat, e: nat)
    requires p > 0
    ensures q == Delay(now, p, offset, shift) / p && Delay(now, p, offset, shift) == q * p + e
    ensures OnEdge(now + e, p, offset, shift) && forall t :: now <= t < now + e ==> !OnEdge(t, p, offset, shift)
  {
    var d := Delay(now, p, offset, shift);
    q, e := d / p, d % p;
    assert d == p * (d / p) + d % p;
    DelayRest(now, p, offset, shift);
  }

  lemma Distribute(k: nat, q: nat, p: nat)
    ensures (k + q) * p == k * p + q * p
  {
  }

  lemma NoWholePeriod(d: nat, p: nat)
    requires p > 0
    ensures d / p == 0 <==> d < p
    ensures d % p == 0 ==> (d / p == 1 <==> d == p)
  {
    assert d == p * (d / p) + d % p;
    if d < p {
      Small(d, p);
    }
    if d / p == 0 {
      assert p * 0 == 0;
    }
    if d / p == 1 {
      assert p * 1 == p;
    }
  }

  lemma WaitCountsEdges(now: int, d: nat, k: nat, total: nat, period: Time, offset: Time, shift: Time)
    requires period > 0 && total == k * period + d && OnEdge(now + d, period, offset, shift)
    requires forall t :: now <= t < now + d ==> !OnEdge(t, period, offset, shift)
    ensures EdgesIn(now, total, period, offset, shift) == k && OnEdge(now + total, period, offset, shift)
  {
    NoEdges(now, d, period, offset, shift);
    EdgesFromEdge(now + d, k, period, offset, shift);
    EdgesSplit(now, d, k * period, period, offset, shift);
  }

  /**
   `next_...(k)`: never zero, an edge at the end of the wait, and k edges strictly in between
   exactly when the offset is at most a period ahead of the phase.
  */
  lemma NextCountsEdges(c: Clock, offset: Time, k: nat)
    requires c.period > 0
    ensures var d := Next(c, offset, k);
            d > 0 && OnEdge(c.now + d, c.period, offset, c.shift) &&
            EdgesIn(c.now + 1, d - 1, c.period, offset, c.shift) == k + SkippedByNext(c, offset) &&
            (SkippedByNext(c, offset) == 0 <==> offset <= c.period + PhaseOf(c))
  {
    var d := Delay(c.now, c.period, offset, c.shift);
    UntilCountsEdges(c, offset, k + if d == 0 then 1 else 0);
    NextIsUntil(c, offset, k);
    SkipFirst(c.now, Next(c, offset, k), c.period, offset, c.shift);
    NextSkips(c, offset);
  }

  lemma NextSkips(c: Clock, offset: Time)
    requires c.period > 0
    ensures var d := Delay(c.now, c.period, offset, c.shift);
            SkippedByNext(c, offset) + (if OnEdge(c.now, c.period, offset, c.shift) then 1 else 0)
            == d / c.period + if d == 0 then 1 else 0
    ensures SkippedByNext(c, offset) == 0 <==> offset <= c.period + PhaseOf(c)
  {
    OnEdgeNow(c, offset);
    NoWholePeriod(Delay(c.now, c.period, offset, c.shift), c.period);
  }

  /** The edges strictly after now that `next_...` passes over. */
  function SkippedByNext(c: Clock, offset: Time): (n: nat)
    requires c.period > 0
  {
    var d := Delay(c.now, c.period, offset, c.shift);
    OnEdgeNow(c, offset);
    NoWholePeriod(d, c.period);
    if d == 0 then 0
    else d / c.period - if OnEdge(c.now, c.period, offset, c.shift) then 1 else 0
  }

  lemma NextIsUntil(c: Clock, offset: Time, k: nat)
    requires c.period > 0
    ensures Next(c, offset, k) > 0
    ensures Next(c, offset, k) == Until(c, offset, k + if Delay(c.now, c.period, offset, c.shift) == 0 then 1 else 0)
  {
    assert (k + 1) * c.period == k * c.period + c.period;
  }

  lemma SkipFirst(a: int, n: nat, period: Time, offset: Time, shift: Time)
    requires period > 0 && n > 0
    ensures EdgesIn(a, n, period, offset, shift)
            == EdgesIn(a + 1, n - 1, period, offset, shift) + if OnEdge(a, period, offset, shift) then 1 else 0
  {
    EdgesSplit(a, 1, n - 1, period, offset, shift);
    assert EdgesIn(a, 0, period, offset, shift) == 0;
  }

  /** The `at_...` tests: zero exactly on an edge, if the offset is below the period. */
  lemma OnEdgeNow(c: Clock, offset: Time)
    requires c.period > 0
    ensures Until(c, offset, 0) == Delay(c.now, c.period, offset, c.shift)
    ensures Until(c, offset, 0) == 0 <==> OnEdge(c.now, c.period, offset, c.shift) && offset < c.period
    ensures OnEdge(c.now, c.period, offset, c.shift) <==> Delay(c.now, c.period, offset, c.shift) % c.period == 0
  {
    assert 0 * c.period == 0;
    var p := c.period;
    DelayRest(c.now, p, offset, c.shift);
    Small(offset % p, p);
    if offset < p {
      Small(offset, p);
    }
    if PhaseOf(c) == offset {
      Small(0, p);
    }
  }

  // ---------------------------------------------------------------- level and both edges

  /** An edge one period before the end of the wait: the most recent one exactly when the wait skips none. */
  lemma LastEdge(c: Clock, offset: Time)
    requires c.period > 0
    ensures var t := c.now + Until(c, offset, 0) - c.period;
            OnEdge(t, c.period, offset, c.shift) &&
            (t < c.now && (forall u :: t < u < c.now ==> !OnEdge(u, c.period, offset, c.shift))
             <==> offset < c.period + PhaseOf(c))
  {
    OnEdgeNow(c, offset);
    DelayLands(c.now, c.period, offset, c.shift);
    var next := c.now + Until(c, offset, 0);
    WholePeriod(next - c.period + c.shift, c.period);
    if next < c.now + c.period {
      forall u | next - c.period < u < c.now ensures !OnEdge(u, c.period, offset, c.shift) {
        EdgesApart(next - c.period, u, c.period, offset, c.shift);
      }
    }
  }

  /** A rising edge before now with no falling edge since. */
  ghost predicate High(c: Clock)
    requires c.period > 0
  {
    exists t :: t < c.now && OnEdge(t, c.period, c.posedge, c.shift) &&
                forall u :: t < u < c.now ==> !OnEdge(u, c.period, c.negedge, c.shift)
  }

  lemma EarlyReadIsLevel(c: Clock)
    requires TwoEdges(c) && Early(c)
    ensures Read(c) <==> High(c)
  {
    LastEdge(c, c.posedge);
    LastEdge(c, c.negedge);
    var rise, fall := c.now + Until(c, c.posedge, 0) - c.period, c.now + Until(c, c.negedge, 0) - c.period;
    assert rise != fall;
    if High(c) {
      var t :| t < c.now && OnEdge(t, c.period, c.posedge, c.shift) &&
               forall u :: t < u < c.now ==> !OnEdge(u, c.period, c.negedge, c.shift);
      assert t <= rise;
    }
  }

  /** The clock with its offsets brought below the period. */
  function Reduced(c: Clock): (r: Clock)
    requires c.period > 0
    ensures Early(r)
  {
    c.(posedge := c.posedge % c.period, negedge := c.negedge % c.period)
  }

  /** The level depends on the edges only. */
  lemma SameLevel(c: Clock, r: Clock)
    requires c.period > 0 && r.period == c.period && r.shift == c.shift && r.now == c.now
    requires forall t :: OnEdge(t, c.period, r.posedge, c.shift) <==> OnEdge(t, c.period, c.posedge, c.shift)
    requires forall t :: OnEdge(t, c.period, r.negedge, c.shift) <==> OnEdge(t, c.period, c.negedge, c.shift)
    ensures High(c) <==> High(r)
  {
    if High(c) {
      var t :| t < c.now && OnEdge(t, c.period, c.posedge, c.shift) &&
               forall u :: t < u < c.now ==> !OnEdge(u, c.period, c.negedge, c.shift);
      assert OnEdge(t, c.period, r.posedge, c.shift);
    }
    if High(r) {
      var t :| t < c.now && OnEdge(t, c.period, r.posedge, c.shift) &&
               forall u :: t < u < c.now ==> !OnEdge(u, c.period, r.negedge, c.shift);
      assert OnEdge(t, c.period, c.posedge, c.shift);
    }
  }

  /** The level of the ticking clock is what `read()` gives with the reduced offsets. */
  lemma LevelIs(c: Clock)
    requires TwoEdges(c)
    ensures High(c) <==> Read(Reduced(c))
  {
    var p := c.period;
    Small(c.posedge % p, p);
    Small(c.negedge % p, p);
    EarlyReadIsLevel(Reduced(c));
    ReducedEdge(p, c.posedge, c.shift);
    ReducedEdge(p, c.negedge, c.shift);
    SameLevel(c, Reduced(c));
  }

  /** `read()` is the level of the ticking clock just before now, at every time, exactly for edges below the period. */
  lemma ReadIsLevelExactly(c: Clock)
    requires TwoEdges(c)
    ensures (forall n: Time :: Read(At(c, n)) <==> High(At(c, n))) <==> Early(c)
  {
    if Early(c) {
      forall n: Time ensures Read(At(c, n)) <==> High(At(c, n)) {
        EarlyReadIsLevel(At(c, n));
      }
    } else {
      var n := ReadFails(c);
      assert Read(At(c, n)) != High(At(c, n));
    }
  }

  lemma ReadIs(c: Clock)
    requires c.period > 0
    ensures Read(c) <==> Delay(c.now, c.period, c.negedge, c.shift) < Delay(c.now, c.period, c.posedge, c.shift)
  {
    assert 0 * c.period == 0;
  }

  /** A time at which a late edge makes `read()` wrong: the time of the edge that is taken to be later than it is. */
  lemma ReadFails(c: Clock) returns (n: Time)
    requires TwoEdges(c) && !Early(c)
    ensures Read(At(c, n)) != High(At(c, n))
  {
    var p := c.period;
    var late := if c.posedge >= p && (c.negedge < p || c.negedge < c.posedge) then c.posedge else c.negedge;
    n := LateTime(p, late, c.shift);
    ReadIs(At(c, n));
    ReadIs(Reduced(At(c, n)));
    LevelIs(At(c, n));
  }

  /** When an edge of this offset is due but taken to be still ahead. */
  lemma LateTime(p: Time, late: Time, shift: Time) returns (n: Time)
    requires 0 < p <= late
    ensures Delay(n, p, late, shift) >= p && Delay(n, p, late % p, shift) == 0
    ensures forall other: Time ::
              Delay(n, p, other, shift) < p || (Delay(n, p, late, shift) - Delay(n, p, other, shift) == late - other)
  {
    n := Delay(0, p, late % p, shift);
    Small(late % p, p);
    DelayLands(0, p, late % p, shift);
    LateDelay(n, p, late, shift);
  }

  lemma LateDelay(n: Time, p: Time, late: Time, shift: Time)
    requires 0 < p <= late && (n + shift) % p == late % p
    ensures Delay(n, p, late, shift) == late - late % p >= p
    ensures Delay(n, p, late % p, shift) == 0
  {
    assert late == p * (late / p) + late % p;
    NoWholePeriod(late, p);
    TimesMonotone(p, 1, late / p);
  }

  /** Period 10, offset 8 and half duty: at time 0 the level is high and `read()` says low. */
  lemma LateEdge()
    ensures var c := Clock(10, 8, 13, 0, 0, 0, 0, 0, 0, 0); TwoEdges(c) && !Early(c) && High(c) && !Read(c)
  {
    var c := Clock(10, 8, 13, 0, 0, 0, 0, 0, 0, 0);
    LevelIs(c);
  }

  predicate OnAnyEdge(c: Clock, t: int)
    requires c.period > 0
  {
    OnEdge(t, c.period, c.posedge, c.shift) || OnEdge(t, c.period, c.negedge, c.shift)
  }

  /** The offset of the edge that comes next, now included, and of the other one. */
  function NextOffset(c: Clock): Time
    requires c.period > 0
  {
    if Read(Reduced(c)) then c.negedge else c.posedge
  }

  function OtherOffset(c: Clock): Time
    requires c.period > 0
  {
    if Read(Reduced(c)) then c.posedge else c.negedge
  }

  /** The waits to the next edge and to the other one. */
  ghost predicate Nearest(c: Clock, x: Time, y: Time, dx: Time, dy: Time)
    requires c.period > 0
  {
    && dx < dy < c.period
    && dx == Delay(c.now, c.period, x, c.shift) % c.period && dy == Delay(c.now, c.period, y, c.shift) % c.period
    && OnEdge(c.now + dx, c.period, x, c.shift) && OnEdge(c.now + dy, c.period, y, c.shift)
    && (forall t :: c.now <= t < c.now + dx ==> !OnEdge(t, c.period, x, c.shift))
    && (forall t :: c.now <= t < c.now + dy ==> !OnEdge(t, c.period, y, c.shift))
  }

  lemma NearestEdges(c: Clock) returns (dx: Time, dy: Time)
    requires TwoEdges(c)
    ensures Nearest(c, NextOffset(c), OtherOffset(c), dx, dy)
  {
    var p, x, y := c.period, NextOffset(c), OtherOffset(c);
    DelayRest(c.now, p, x, c.shift);
    DelayRest(c.now, p, y, c.shift);
    dx, dy := Delay(c.now, p, x, c.shift) % p, Delay(c.now, p, y, c.shift) % p;
    assert 0 * p == 0;
  }

  lemma UntilAnyedgeIs(c: Clock, k: nat)
    requires c.period > 0
    ensures var x := Delay(c.now, c.period, NextOffset(c), c.shift);
            var y := Delay(c.now, c.period, OtherOffset(c), c.shift);
            UntilAnyedge(c, 0) == (if x <= y then x else y)
    ensures k * c.period >= 0 && UntilAnyedge(c, k) == UntilAnyedge(c, 0) + k * c.period
  {
    assert 0 * c.period == 0;
  }

  /** Waiting less than the remainder of the delay is never waiting for the delay. */
  lemma AtLeastRest(d: nat, p: nat)
    requires p > 0
    ensures d >= d % p && (d < p ==> d == d % p)
  {
    assert d == p * (d / p) + d % p;
    TimesMonotone(p, 0, d / p);
    if d < p {
      Small(d, p);
    }
  }

  /** `until_anyedge(0)` ends on an edge, the nearest one exactly when that edge is less than a period ahead. */
  lemma UntilAnyedgeIsNearest(c: Clock)
    requires TwoEdges(c)
    ensures var d := UntilAnyedge(c, 0);
            OnAnyEdge(c, c.now + d) &&
            ((forall t :: c.now <= t < c.now + d ==> !OnAnyEdge(c, t)) <==> NextOffset(c) < c.period + PhaseOf(c))
  {
    var dx, dy := NearestEdges(c);
    var x, y := Delay(c.now, c.period, NextOffset(c), c.shift), Delay(c.now, c.period, OtherOffset(c), c.shift);
    UntilAnyedgeIs(c, 0);
    DelayLands(c.now, c.period, NextOffset(c), c.shift);
    DelayLands(c.now, c.period, OtherOffset(c), c.shift);
    AtLeastRest(x, c.period);
    AtLeastRest(y, c.period);
    if x >= c.period {
      assert OnAnyEdge(c, c.now + dx);
    }
  }

  ghost predicate NearestAfter(c: Clock, d: Time)
    requires c.period > 0
  {
    d > 0 && OnAnyEdge(c, c.now + d) && forall t :: c.now < t < c.now + d ==> !OnAnyEdge(c, t)
  }

  lemma NextAnyedgeIs(c: Clock, k: nat)
    requires c.period > 0
    ensures var d := NextAnyedge(c, k);
            d > 0 && k * c.period >= 0 && d == NextAnyedge(c, 0) + k * c.period &&
            NextAnyedge(c, 0) == if UntilAnyedge(c, 0) == 0 then c.period else UntilAnyedge(c, 0)
  {
    assert 0 * c.period == 0 && 1 * c.period == c.period;
  }

  /** Whether the edges are such that `next_anyedge` finds the next one. */
  predicate NextAnyedgeRight(c: Clock)
    requires c.period > 0
  {
    if OnAnyEdge(c, c.now) then NextOffset(c) >= c.period && OtherOffset(c) < c.period + PhaseOf(c)
    else NextOffset(c) < c.period + PhaseOf(c)
  }

  /**
   `next_anyedge(0)` finds the next edge exactly under that condition.  With both edges below the
   period the condition is that the clock is not on an edge: on one it skips the other.
  */
  lemma NextAnyedgeExactly(c: Clock)
    requires TwoEdges(c)
    ensures NearestAfter(c, NextAnyedge(c, 0)) <==> NextAnyedgeRight(c)
    ensures Early(c) ==> (NextAnyedgeRight(c) <==> !OnAnyEdge(c, c.now))
  {
    NextAnyedgeIs(c, 0);
    UntilAnyedgeIsNearest(c);
    OnEdgeNow(c, NextOffset(c));
    OnEdgeNow(c, OtherOffset(c));
    UntilAnyedgeIs(c, 0);
    if OnAnyEdge(c, c.now) {
      NextOnEdge(c);
    } else {
      assert UntilAnyedge(c, 0) > 0;
    }
  }

  lemma NextOnEdge(c: Clock)
    requires TwoEdges(c) && OnAnyEdge(c, c.now)
    ensures NearestAfter(c, NextAnyedge(c, 0)) <==> NextOffset(c) >= c.period && OtherOffset(c) < c.period + PhaseOf(c)
  {
    var dx, dy := NearestEdges(c);
    var p := c.period;
    var x, y := Delay(c.now, p, NextOffset(c), c.shift), Delay(c.now, p, OtherOffset(c), c.shift);
    assert dx == 0;
    OnEdgeNow(c, NextOffset(c));
    OnEdgeNow(c, OtherOffset(c));
    AtLeastRest(x, p);
    AtLeastRest(y, p);
    UntilAnyedgeIs(c, 0);
    NextAnyedgeIs(c, 0);
    DelayLands(c.now, p, NextOffset(c), c.shift);
    DelayLands(c.now, p, OtherOffset(c), c.shift);
    WholePeriod(c.now + c.shift, p);
    assert OnAnyEdge(c, c.now + dy);
    if x >= p && y < p {
      forall t | c.now < t < c.now + dy ensures !OnAnyEdge(c, t) {
        EdgesApart(c.now, t, p, NextOffset(c), c.shift);
      }
    }
  }

  /** Edges of both kinds seen by ticking through a, a + 1, ..., a + n - 1. */
  function BothIn(c: Clock, a: int, n: nat): nat
    requires c.period > 0
  {
    EdgesIn(a, n, c.period, c.posedge, c.shift) + EdgesIn(a, n, c.period, c.negedge, c.shift)
  }

  /** Any stretch of one period holds one edge, wherever it begins. */
  lemma OnePeriod(a: Time, period: Time, offset: Time, shift: Time)
    requires period > 0
    ensures EdgesIn(a, period, period, offset, shift) == 1
  {
    var d := Delay(a, period, offset, shift) % period;
    DelayRest(a, period, offset, shift);
    forall t | a + d < t < a + period ensures !OnEdge(t, period, offset, shift) {
      EdgesApart(a + d, t, period, offset, shift);
    }
    NoEdges(a, d, period, offset, shift);
    NoEdges(a + d + 1, period - d - 1, period, offset, shift);
    EdgesSplit(a, d, period - d, period, offset, shift);
    SkipFirst(a + d, period - d, period, offset, shift);
  }

  lemma {:induction false} WholePeriods(a: Time, k: nat, period: Time, offset: Time, shift: Time)
    requires period > 0
    ensures k * period >= 0 && EdgesIn(a, k * period, period, offset, shift) == k
    decreases k
  {
    if k == 0 {
      assert k * period == 0;
    } else {
      assert k * period == period + (k - 1) * period;
      OnePeriod(a, period, offset, shift);
      WholePeriods(a + period, k - 1, period, offset, shift);
      EdgesSplit(a, period, (k - 1) * period, period, offset, shift);
    }
  }

  lemma BothInPeriods(c: Clock, a: Time, k: nat)
    requires c.period > 0
    ensures k * c.period >= 0 && BothIn(c, a, k * c.period) == 2 * k
    ensures OnAnyEdge(c, a) ==> OnAnyEdge(c, a + k * c.period)
  {
    WholePeriods(a, k, c.period, c.posedge, c.shift);
    WholePeriods(a, k, c.period, c.negedge, c.shift);
    AddPeriods(a + c.shift, k, c.period);
  }

  lemma BothSkipFirst(c: Clock, a: int, n: nat)
    requires TwoEdges(c) && n > 0
    ensures BothIn(c, a, n) == BothIn(c, a + 1, n - 1) + if OnAnyEdge(c, a) then 1 else 0
  {
    SkipFirst(a, n, c.period, c.posedge, c.shift);
    SkipFirst(a, n, c.period, c.negedge, c.shift);
  }

  lemma BothSplit(c: Clock, a: int, n: nat, k: nat)
    requires c.period > 0
    ensures BothIn(c, a, n + k) == BothIn(c, a, n) + BothIn(c, a + n, k)
  {
    EdgesSplit(a, n, k, c.period, c.posedge, c.shift);
    EdgesSplit(a, n, k, c.period, c.negedge, c.shift);
  }

  lemma {:induction false} BothNone(c: Clock, a: int, n: nat)
    requires c.period > 0
    ensures BothIn(c, a, n) == 0 <==> forall t :: a <= t < a + n ==> !OnAnyEdge(c, t)
  {
    if n > 0 {
      BothNone(c, a, n - 1);
      assert OnAnyEdge(c, a + n - 1) <==> BothIn(c, a, n) > BothIn(c, a, n - 1);
    }
  }

  /**
   `until_anyedge(k)`: an edge at the end of the wait, and k edges of each kind from now to then
   exactly when the next edge is less than a period ahead.
  */
  lemma UntilAnyedgeCounts(c: Clock, k: nat)
    requires TwoEdges(c)
    ensures var d := UntilAnyedge(c, k);
            OnAnyEdge(c, c.now + d) && (BothIn(c, c.now, d) == 2 * k <==> NextOffset(c) < c.period + PhaseOf(c))
  {
    var d := UntilAnyedge(c, 0);
    UntilAnyedgeIsNearest(c);
    BothInPeriods(c, c.now + d, k);
    BothNone(c, c.now, d);
    BothSplit(c, c.now, d, k * c.period);
    UntilAnyedgeIs(c, k);
  }

  /**
   `next_anyedge(k)`: never zero, an edge at the end of the wait, and strictly in between k edges of
   each kind exactly when it finds the next one for a count of zero.  With both edges below the
   period it passes one more when the clock is on an edge now.
  */
  lemma NextAnyedgeCounts(c: Clock, k: nat)
    requires TwoEdges(c)
    ensures var d := NextAnyedge(c, k);
            d > 0 && OnAnyEdge(c, c.now + d) && (BothIn(c, c.now + 1, d - 1) == 2 * k <==> NextAnyedgeRight(c)) &&
            (Early(c) ==> BothIn(c, c.now + 1, d - 1) == 2 * k + if OnAnyEdge(c, c.now) then 1 else 0)
  {
    var d := NextAnyedge(c, 0);
    NextAnyedgeIs(c, k);
    NextAnyedgeLands(c);
    NextAnyedgeExactly(c);
    BothInPeriods(c, c.now + d, k);
    BothSplit(c, c.now + 1, d - 1, k * c.period);
    BothNone(c, c.now + 1, d - 1);
    if Early(c) && OnAnyEdge(c, c.now) {
      SkipsOne(c);
    }
  }

  lemma NextAnyedgeLands(c: Clock)
    requires TwoEdges(c)
    ensures OnAnyEdge(c, c.now + NextAnyedge(c, 0))
  {
    NextAnyedgeIs(c, 0);
    UntilAnyedgeIsNearest(c);
    WholePeriod(c.now + c.shift, c.period);
  }

  lemma SkipsOne(c: Clock)
    requires TwoEdges(c) && Early(c) && OnAnyEdge(c, c.now)
    ensures NextAnyedge(c, 0) == c.period && BothIn(c, c.now + 1, c.period - 1) == 1
  {
    NextAnyedgeIs(c, 0);
    AtAnyedgeExactly(c);
    BothInPeriods(c, c.now, 1);
    assert 1 * c.period == c.period;
    BothSkipFirst(c, c.now, c.period);
  }

  /** `at_anyedge_time` is true exactly on an edge whose offset is below the period. */
  lemma AtAnyedgeExactly(c: Clock)
    requires c.period > 0
    ensures UntilAnyedge(c, 0) == 0 <==>
            (OnEdge(c.now, c.period, c.posedge, c.shift) && c.posedge < c.period)
            || (OnEdge(c.now, c.period, c.negedge, c.shift) && c.negedge < c.period)
  {
    UntilAnyedgeIs(c, 0);
    OnEdgeNow(c, c.posedge);
    OnEdgeNow(c, c.negedge);
  }

  /** `at_setedge_time` is right at every time exactly when the sample offset is the set edge's within the period. */
  lemma AtSetedgeExactly(c: Clock)
    requires c.period > 0
    ensures (forall n: Time :: AtSetedgeTime(At(c, n)) <==> OnEdge(n, c.period, c.setedge, c.shift))
            <==> c.sample == c.setedge % c.period
  {
    var p := c.period;
    forall n: Time ensures AtSetedgeTime(At(c, n)) <==> (n + c.shift) % p == c.sample {
      assert 0 * p == 0;
    }
    var n := Delay(0, p, c.setedge % p, c.shift);
    Small(c.setedge % p, p);
    DelayLands(0, p, c.setedge % p, c.shift);
    assert OnEdge(n, p, c.setedge, c.shift);
    assert AtSetedgeTime(At(c, n)) <==> c.sample == c.setedge % p;
  }

  // ---------------------------------------------------------------- counting cycles

  datatype Op = Advance(d: Time) | SetPeriod(period: Time)

  predicate Counts(c: Clock) {
    c.period > 0 && c.frequencySet <= c.now
  }

  function Step(c: Clock, op: Op): (r: Clock)
    requires Counts(c)
    ensures Counts(r)
  {
    match op
    case Advance(d) => c.(now := c.now + d)
    case SetPeriod(period) =>
      if period == 0 then c
      else c.(freqCount := c.freqCount + 1, baseCount := c.baseCount + Cycles(c),
              period := period, frequencySet := c.now)
  }

  function Run(c: Clock, ops: seq<Op>): (r: Clock)
    requires Counts(c)
    ensures Counts(r)
    decreases |ops|
  {
    if ops == [] then c else Run(Step(c, ops[0]), ops[1..])
  }

  /** A run moves time, the period and the counters, and counts each change once; the edges stay where they are. */
  lemma {:induction false} RunKeepsEdges(c: Clock, ops: seq<Op>)
    requires Counts(c)
    ensures var r := Run(c, ops);
            r.posedge == c.posedge && r.negedge == c.negedge && r.sample == c.sample && r.setedge == c.setedge &&
            r.shift == c.shift && r.freqCount == c.freqCount + ChangesIn(ops) && r.period == LastPeriod(c.period, ops)
    decreases |ops|
  {
    if ops != [] {
      RunKeepsEdges(Step(c, ops[0]), ops[1..]);
    }
  }

  function ChangesIn(ops: seq<Op>): nat {
    if ops == [] then 0 else (if ops[0].SetPeriod? && ops[0].period > 0 then 1 else 0) + ChangesIn(ops[1..])
  }

  /** The last period set, zero being refused. */
  function LastPeriod(period: Time, ops: seq<Op>): Time
    decreases |ops|
  {
    if ops == [] then period
    else LastPeriod(if ops[0].SetPeriod? && ops[0].period > 0 then ops[0].period else period, ops[1..])
  }

  lemma DivMonotone(a: nat, b: nat, p: nat)
    requires a <= b && p > 0
    ensures a / p <= b / p
  {
    if a / p > b / p {
      TimesMonotone(p, b / p + 1, a / p);
    }
  }

  lemma TimesMonotone(p: nat, x: int, y: int)
    requires x <= y
    ensures p * x <= p * y
  {
  }

  /** The cycle count never goes back, whatever happens to the period. */
  lemma {:induction false} CyclesNeverDecrease(c: Clock, ops: seq<Op>)
    requires Counts(c)
    ensures Cycles(c) <= Cycles(Run(c, ops))
    decreases |ops|
  {
    if ops != [] {
      if ops[0].Advance? {
        DivMonotone(c.now + c.shift - c.frequencySet, c.now + ops[0].d + c.shift - c.frequencySet, c.period);
      }
      CyclesNeverDecrease(Step(c, ops[0]), ops[1..]);
    }
  }

  /** Changing the period leaves the count as it was exactly when nothing was counted up to an earlier change. */
  lemma PeriodChangeExactly(c: Clock, period: Time)
    requires Counts(c) && period > 0
    ensures Cycles(Step(c, SetPeriod(period))) == Cycles(c) <==> c.baseCount == 0 && c.shift < period
  {
    var q, r := c.shift / period, c.shift % period;
    assert c.shift == period * q + r;
    assert q == 0 <==> c.shift < period;
  }

  /**
   The cycles of a ticking clock over a run: every stretch between period changes is ticked through
   at its own period, counted from the change; the shift lengthens the first stretch only.
  */
  function Ticked(now: Time, anchor: Time, period: Time, lead: Time, ops: seq<Op>): nat
    requires period > 0 && anchor <= now
    decreases |ops|
  {
    if ops == [] then EdgesIn(anchor + 1, now + lead - anchor, period, anchor, 0)
    else match ops[0]
      case Advance(d) => Ticked(now + d, anchor, period, lead, ops[1..])
      case SetPeriod(p) =>
        if p == 0 then Ticked(now, anchor, period, lead, ops[1..])
        else EdgesIn(anchor + 1, now + lead - anchor, period, anchor, 0) + Ticked(now, now, p, 0, ops[1..])
  }

  predicate Changes(op: Op) { op.SetPeriod? && op.period > 0 }

  /** The base as each period change finds it, which the change adds once more. */
  function CountedTwice(c: Clock, ops: seq<Op>): nat
    requires Counts(c)
    decreases |ops|
  {
    if ops == [] then 0
    else (if Changes(ops[0]) then c.baseCount else 0) + CountedTwice(Step(c, ops[0]), ops[1..])
  }

  /** What the shift adds to a stretch beyond the lead it is due. */
  function ShiftExcess(c: Clock, lead: Time): nat
    requires Counts(c) && lead <= c.shift
  {
    var n := c.now - c.frequencySet;
    DivMonotone(n + lead, n + c.shift, c.period);
    (n + c.shift) / c.period - (n + lead) / c.period
  }

  /** The shift counted again: in every stretch after the first. */
  function ShiftCountedAgain(c: Clock, lead: Time, ops: seq<Op>): nat
    requires Counts(c) && lead <= c.shift
    decreases |ops|
  {
    if ops == [] then ShiftExcess(c, lead)
    else if Changes(ops[0]) then ShiftExcess(c, lead) + ShiftCountedAgain(Step(c, ops[0]), 0, ops[1..])
    else ShiftCountedAgain(Step(c, ops[0]), lead, ops[1..])
  }

  /** Ticking from an anchor counts whole periods. */
  lemma {:induction false} TicksAreDivision(a: Time, n: nat, p: Time, anchor: Time)
    requires p > 0 && a % p == anchor % p
    ensures EdgesIn(a + 1, n, p, anchor, 0) == n / p
    decreases n
  {
    if n < p {
      Small(n, p);
      forall t | a < t < a + 1 + n ensures !OnEdge(t, p, anchor, 0) {
        EdgesApart(a, t, p, anchor, 0);
      }
      NoEdges(a + 1, n, p, anchor, 0);
    } else {
      WholePeriod(a, p);
      OnePeriod(a + 1, p, anchor, 0);
      EdgesSplit(a + 1, p, n - p, p, anchor, 0);
      TicksAreDivision(a + p, n - p, p, anchor);
      assert n == n - p + 1 * p;
      AddPeriods(n - p, 1, p);
    }
  }

  /**
   Over every run the reported count is that of the ticking clock, plus the base as found by each
   period change, plus the shift counted again after each change.
  */
  lemma {:induction false} CyclesExactly(c: Clock, lead: Time, ops: seq<Op>)
    requires Counts(c) && lead <= c.shift
    ensures Cycles(Run(c, ops)) ==
            c.baseCount + Ticked(c.now, c.frequencySet, c.period, lead, ops)
            + CountedTwice(c, ops) + ShiftCountedAgain(c, lead, ops)
    decreases |ops|
  {
    TicksAreDivision(c.frequencySet, c.now + lead - c.frequencySet, c.period, c.frequencySet);
    if ops != [] {
      CyclesExactly(Step(c, ops[0]), if Changes(ops[0]) then 0 else lead, ops[1..]);
    }
  }

  /**
   A clock that has not changed yet counts like the ticking one exactly when no change finds a base
   and no later stretch gains from the shift; so always before the first change, and up to the
   second one if there is no shift.
  */
  lemma CyclesRightExactly(c: Clock, ops: seq<Op>)
    requires Counts(c) && c.baseCount == 0
    ensures Cycles(Run(c, ops)) == Ticked(c.now, c.frequencySet, c.period, c.shift, ops)
            <==> CountedTwice(c, ops) == 0 && ShiftCountedAgain(c, c.shift, ops) == 0
    ensures (forall i :: 0 <= i < |ops| ==> !Changes(ops[i]))
            || (c.shift == 0 && forall i, j :: 0 <= i < j < |ops| ==> !(Changes(ops[i]) && Changes(ops[j])))
            ==> CountedTwice(c, ops) == 0 && ShiftCountedAgain(c, c.shift, ops) == 0
  {
    CyclesExactly(c, c.shift, ops);
    if forall i :: 0 <= i < |ops| ==> !Changes(ops[i]) {
      OneChange(c, ops);
      NoShiftAgain(c, ops);
    } else if c.shift == 0 && forall i, j :: 0 <= i < j < |ops| ==> !(Changes(ops[i]) && Changes(ops[j])) {
      OneChange(c, ops);
      NoShiftAgain(c, ops);
    }
  }

  lemma {:induction false} NoShiftAgain(c: Clock, ops: seq<Op>)
    requires Counts(c) && (c.shift == 0 || forall i :: 0 <= i < |ops| ==> !Changes(ops[i]))
    ensures ShiftCountedAgain(c, c.shift, ops) == 0
    decreases |ops|
  {
    if ops != [] {
      var rest := ops[1..];
      assert forall i :: 0 <= i < |rest| ==> rest[i] == ops[i + 1];
      NoShiftAgain(Step(c, ops[0]), rest);
    }
  }

  lemma {:induction false} OneChange(c: Clock, ops: seq<Op>)
    requires Counts(c) && forall i, j :: 0 <= i < j < |ops| ==> !(Changes(ops[i]) && Changes(ops[j]))
    requires c.baseCount == 0 || forall i :: 0 <= i < |ops| ==> !Changes(ops[i])
    ensures CountedTwice(c, ops) == 0
    decreases |ops|
  {
    if ops != [] {
      var rest := ops[1..];
      assert forall i :: 0 <= i < |rest| ==> rest[i] == ops[i + 1];
      OneChange(Step(c, ops[0]), rest);
    }
  }

  // ---------------------------------------------------------------- the clock

  /** What the constructor accepts. */
  predicate Accepted(period: Time, duty: real, offset: Time, sample: Time, setedge: Time) {
    period > 0 && 0.0 < duty < 1.0 && offset < period && sample < period && setedge < period
  }

  /** A duty cycle of a period, rounded to whole ticks. */
  function Active(period: Time, duty: real): (w: int)
    requires 0.0 < duty < 1.0
    ensures 0 <= w <= period
    ensures duty * period as real - 0.5 < w as real <= duty * period as real + 0.5
  {
    ActiveBelow(period as real, duty);
    (duty * period as real + 0.5).Floor
  }

  lemma ActiveBelow(p: real, duty: real)
    requires p >= 0.0 && 0.0 < duty < 1.0
    ensures 0.0 <= duty * p <= p
  {
    assert p - duty * p == (1.0 - duty) * p;
  }

  function Constructed(
    now: Time, period: Time, duty: real, offset: Time, sample: Time, setedge: Time, positive: bool): Clock
    requires Accepted(period, duty, offset, sample, setedge)
  {
    var other := offset + Active(period, duty);
    Clock(period, if positive then offset else other, if positive then other else offset,
          sample, setedge, 0, now, now, 0, 0)
  }

  /**
   A clock the constructor accepts has two edges unless the duty cycle rounds to nothing or to the
   whole period, and then it reads right at every time exactly when the second edge falls within
   the period, which the constructor does not check.
  */
  lemma ConstructedReadsExactly(
    now: Time, period: Time, duty: real, offset: Time, sample: Time, setedge: Time, positive: bool)
    requires Accepted(period, duty, offset, sample, setedge)
    ensures var c, w := Constructed(now, period, duty, offset, sample, setedge, positive), Active(period, duty);
            (TwoEdges(c) <==> 0 < w < period) &&
            (TwoEdges(c) ==>
               ((forall n: Time :: Read(At(c, n)) <==> High(At(c, n))) <==> offset + w < period))
  {
    var c, w := Constructed(now, period, duty, offset, sample, setedge, positive), Active(period, duty);
    Small(offset, period);
    Phase(offset, w, period);
    if TwoEdges(c) {
      ReadIsLevelExactly(c);
    }
  }

  /**
   Where both edges fall within the period, an accepted clock is high at time t exactly when t lies
   in the active part of its period, or, with negative polarity, in the rest of it.
  */
  lemma ConstructedLevel(
    now: Time, period: Time, duty: real, offset: Time, sample: Time, setedge: Time, positive: bool, t: Time)
    requires Accepted(period, duty, offset, sample, setedge)
    requires 0 < Active(period, duty) && offset + Active(period, duty) < period
    ensures var c := Constructed(now, period, duty, offset, sample, setedge, positive);
            High(At(c, t)) <==> ((offset < t % period <= offset + Active(period, duty)) == positive)
  {
    var c := At(Constructed(now, period, duty, offset, sample, setedge, positive), t);
    Small(c.posedge, period);
    Small(c.negedge, period);
    EarlyReadIsLevel(c);
    ReadIs(c);
  }

  class ClockModule {
    var tPeriod: Time
    var tPosedge: Time
    var tNegedge: Time
    var tSample: Time
    var tSetedge: Time
    var tShift: Time
    var frequencySet: Time
    var freqCount: nat
    var baseCount: nat

    /** The fields as the enhanced constructor sets them before its checks. */
    constructor (now: Time, period: Time, offset: Time, other: Time, sample: Time, setedge: Time, positive: bool)
      ensures AsClock(now) == Clock(period, if positive then offset else other, if positive then other else offset,
                                    sample, setedge, 0, now, now, 0, 0)
    {
      tPeriod := period;
      tPosedge := if positive then offset else other;
      tNegedge := if positive then other else offset;
      tSample, tSetedge, tShift := sample, setedge, 0;
      frequencySet, freqCount, baseCount := now, 0, 0;
    }

    /** The enhanced constructor: no clock where a check is fatal. */
    static method Create(
      now: Time, period: Time, duty: real, offset: Time, sample: Time, setedge: Time, positive: bool)
      returns (clock: ClockModule?)
      ensures clock != null <==>
              period > 0 && 0.0 < duty < 1.0 && offset < period && sample < period && setedge < period
      ensures clock != null ==>
                clock.tPeriod == period && clock.tSample == sample && clock.tSetedge == setedge &&
                clock.tShift == 0 && clock.freqCount == clock.baseCount == 0 && clock.frequencySet == now
      ensures clock != null ==> fresh(clock) && clock.Valid(now) &&
                                clock.AsClock(now) == Constructed(now, period, duty, offset, sample, setedge, positive)
    {
      if period <= 0 {
        return null;
      }
      if duty <= 0.0 || 1.0 <= duty {
        return null;
      }
      if offset >= period {
        return null;
      }
      if sample >= period {
        return null;
      }
      if setedge >= period {
        return null;
      }
      clock := new ClockModule(now, period, offset, offset + Active(period, duty), sample, setedge, positive);
    }

    function AsClock(now: Time): Clock
      reads this
    {
      Clock(tPeriod, tPosedge, tNegedge, tSample, tSetedge, tShift, now, frequencySet, freqCount, baseCount)
    }

    predicate Valid(now: Time)
      reads this
    {
      Counts(AsClock(now))
    }

    method SetTimeShift(now: Time, shift: Time)
      requires Valid(now)
      modifies this`tShift
      ensures Valid(now) && AsClock(now) == old(AsClock(now)).(shift := shift)
    {
      tShift := shift;
    }

    /** A zero period is fatal and leaves the clock as it was. */
    method SetPeriodTime(now: Time, period: Time) returns (ok: bool)
      requires Valid(now)
      modifies this
      ensures ok <==> period > 0
      ensures Valid(now) && AsClock(now) == Step(old(AsClock(now)), SetPeriod(period))
    {
      ok := period > 0;
      if !ok {
        return;
      }
      freqCount := freqCount + 1;
      baseCount := baseCount + Cycles(AsClock(now));
      tPeriod := period;
      frequencySet := now;
    }

    method SetSampleTime(now: Time, sample: Time) returns (ok: bool)
      requires Valid(now)
      modifies this`tSample
      ensures ok <==> sample < tPeriod
      ensures Valid(now) && AsClock(now) == if ok then old(AsClock(now)).(sample := sample) else old(AsClock(now))
    {
      ok := sample < tPeriod;
      if ok {
        tSample := sample;
      }
    }
  }
}
