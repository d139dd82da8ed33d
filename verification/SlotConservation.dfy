/** Work conservation over the slot protocol: a run that starts while there is room for it gets its share,
    capacity that ended runs returned included. */
module SlotConservation {
  import opened WorkerBudget
  import opened SlotSweep
  import opened SlotProtocol
  import opened SlotRoom

  // ---- Sweeps that started with room ----

  /** Run q is in a sweep, with a claim numbered `first` or later, and has not reached its cap. */
  ghost predicate Wanting(s: State, q: nat, first: nat) {
    && Has(s, q, {Sweeping}) && first <= s.runs[q].claim < |s.claims|
    && Remaining(s.runs[q], s.claims[s.runs[q].claim]) > 0
  }

  ghost predicate ReadyUpTo(capacity: nat, s: State, c: nat) {
    forall j: nat | j <= c && j <= capacity :: RoomFrom(capacity, s, j)
  }

  /** Up to where such a sweep stands there is room in every upper part of the range. About older sweeps, and
      about the part of the range ahead, nothing is said. */
  ghost predicate Ready(capacity: nat, s: State, first: nat) {
    forall q: nat | Wanting(s, q, first) :: ReadyUpTo(capacity, s, |s.claims[s.runs[q].claim].seen|)
  }

  /** The claims from number `first` on that swept to their end took their caps. */
  ghost predicate Served(s: State, first: nat) {
    forall j: nat | first <= j < |s.claims| && s.claims[j].status.Finished? ::
      |Taken(s.claims[j].seen)| == Max(0, s.claims[j].cap)
  }

  /** A sweep that starts finds room for all that is then wanted. */
  ghost predicate FitsAtStart(capacity: nat, s: State, e: Event) {
    e.StartClaim? && Step(capacity, s, e) != s ==> Demand(Step(capacity, s, e)) <= capacity
  }

  /** A probe by r at c below its cap keeps whatever room there was up to c, and carries it on to c + 1. */
  lemma ProbeKeepsReady(capacity: nat, s: State, r: nat, c: nat, k: nat)
    requires Inv(capacity, s) && StandsAt(s, r, c) && ReadyUpTo(capacity, s, k)
    requires c < capacity && |s.runs[r].held| < s.claims[s.runs[r].claim].cap
    ensures ReadyUpTo(capacity, ProbeSlot(capacity, s, r), k)
    ensures k == c ==> ReadyUpTo(capacity, ProbeSlot(capacity, s, r), c + 1)
  {
    var t := ProbeSlot(capacity, s, r);
    PassingProbe(capacity, s, r, c);
    forall j: nat | (j <= k || (k == c && j <= c + 1)) && j <= capacity ensures RoomFrom(capacity, t, j) {
      if j == c + 1 {
        assert RoomFrom(capacity, s, c);
      } else {
        OtherParts(capacity, s, r, c, j);
        assert RoomFrom(capacity, s, j);
      }
    }
  }

  lemma EndingKeepsReady(capacity: nat, s: State, r: nat, c: nat, k: nat)
    requires Inv(capacity, s) && StandsAt(s, r, c) && ReadyUpTo(capacity, s, k)
    requires c >= capacity || |s.runs[r].held| >= s.claims[s.runs[r].claim].cap
    ensures ReadyUpTo(capacity, ProbeSlot(capacity, s, r), k)
  {
    forall j: nat | j <= k && j <= capacity ensures RoomFrom(capacity, ProbeSlot(capacity, s, r), j) {
      EndingProbe(capacity, s, r, c, j);
      assert RoomFrom(capacity, s, j);
    }
  }

  /** Any other event keeps the room there was; and one that starts a sweep, room for all that is wanted. */
  lemma OtherEventKeepsReady(capacity: nat, s: State, e: Event, k: nat)
    requires Inv(capacity, s) && !e.Probe? && FitsAtStart(capacity, s, e) && ReadyUpTo(capacity, s, k)
    ensures ReadyUpTo(capacity, Step(capacity, s, e), k)
  {
    forall j: nat | j <= k && j <= capacity ensures RoomFrom(capacity, Step(capacity, s, e), j) {
      assert RoomFrom(capacity, s, j);
      if e.StartClaim? && j == 0 {
        assert Load(Step(capacity, s, e), 0) == Demand(Step(capacity, s, e));
      } else {
        OtherEventLoad(capacity, s, e, j);
      }
    }
  }

  /** What a probe leaves of the sweep of q: q is still wanting only if it was, and its log is as long as it
      was, or one longer if q is the prober. */
  lemma WantingBeforeProbe(capacity: nat, s: State, r: nat, q: nat, first: nat)
    requires Inv(capacity, s) && Has(s, r, {Sweeping}) && s.runs[r].claim < |s.claims|
    requires Wanting(ProbeSlot(capacity, s, r), q, first)
    ensures var t, c := ProbeSlot(capacity, s, r), |s.claims[s.runs[r].claim].seen|;
            && Wanting(s, q, first) && t.runs[q].claim == s.runs[q].claim
            && |t.claims[t.runs[q].claim].seen| == (if q == r then c + 1 else |s.claims[s.runs[q].claim].seen|)
            && (q == r ==> c < capacity && |s.runs[r].held| < s.claims[s.runs[r].claim].cap)
  {
    assert RunOk(s, r) && RunOk(s, q);
  }

  lemma ProbeStaysReady(capacity: nat, s: State, r: nat, first: nat)
    requires Inv(capacity, s) && Ready(capacity, s, first) && Has(s, r, {Sweeping}) && s.runs[r].claim < |s.claims|
    ensures Ready(capacity, ProbeSlot(capacity, s, r), first)
  {
    var t, c := ProbeSlot(capacity, s, r), |s.claims[s.runs[r].claim].seen|;
    SweepingStands(capacity, s, r);
    forall q: nat | Wanting(t, q, first) ensures ReadyUpTo(capacity, t, |t.claims[t.runs[q].claim].seen|) {
      WantingBeforeProbe(capacity, s, r, q, first);
      var k := |s.claims[s.runs[q].claim].seen|;
      if c < capacity && |s.runs[r].held| < s.claims[s.runs[r].claim].cap {
        ProbeKeepsReady(capacity, s, r, c, k);
      } else {
        EndingKeepsReady(capacity, s, r, c, k);
      }
    }
  }

  /** A run that is wanting after any other event was so before, on the same log, or has just started. */
  lemma WantingBeforeOther(capacity: nat, s: State, e: Event, q: nat, first: nat)
    requires Inv(capacity, s) && !e.Probe? && Wanting(Step(capacity, s, e), q, first)
    ensures var t := Step(capacity, s, e);
            || (Wanting(s, q, first) && |t.claims[t.runs[q].claim].seen| == |s.claims[s.runs[q].claim].seen|)
            || (e.StartClaim? && t != s && |t.claims[t.runs[q].claim].seen| == 0)
  {
    if q < |s.runs| { assert RunOk(s, q); }
  }

  lemma StepStaysReady(capacity: nat, s: State, e: Event, first: nat)
    requires Inv(capacity, s) && Ready(capacity, s, first) && FitsAtStart(capacity, s, e)
    ensures Ready(capacity, Step(capacity, s, e), first)
  {
    var t := Step(capacity, s, e);
    if e.Probe? {
      if Has(s, e.run, {Sweeping}) {
        assert RunOk(s, e.run);
        ProbeStaysReady(capacity, s, e.run, first);
      }
    } else {
      forall q: nat | Wanting(t, q, first) ensures ReadyUpTo(capacity, t, |t.claims[t.runs[q].claim].seen|) {
        WantingBeforeOther(capacity, s, e, q, first);
        if Wanting(s, q, first) && |t.claims[t.runs[q].claim].seen| == |s.claims[s.runs[q].claim].seen| {
          OtherEventKeepsReady(capacity, s, e, |s.claims[s.runs[q].claim].seen|);
        } else {
          assert Load(t, 0) == Demand(t);
        }
      }
    }
  }

  // ---- Conservation ----

  lemma OneMoreEvent(capacity: nat, past: seq<Event>, more: seq<Event>)
    requires more != []
    ensures After(capacity, past + more) ==
            Step(capacity, After(capacity, past + more[..|more| - 1]), more[|more| - 1])
  {
    assert (past + more)[..|past + more| - 1] == past + more[..|more| - 1];
  }

  lemma SummandIsBounded(n: nat, w: nat -> nat, q: nat)
    requires q < n
    ensures w(q) <= Sum(n, w)
  {
  }

  lemma WeightWithinLoad(s: State, q: nat, j: nat)
    requires q < |s.runs|
    ensures Weight(s, q, j) <= Load(s, j)
  {
    SummandIsBounded(|s.runs|, Weights(s, j), q);
    assert Weights(s, j)(q) == Weight(s, q, j);
  }

  /** A sweep that ends has its cap: at the end of the range there is no room to want anything. */
  lemma EndedSweepIsServed(capacity: nat, s: State, r: nat, first: nat)
    requires Inv(capacity, s) && Ready(capacity, s, first) && Has(s, r, {Sweeping}) && s.runs[r].claim >= first
    ensures s.runs[r].claim < |s.claims|
    ensures var c := s.claims[s.runs[r].claim];
            |c.seen| >= capacity || |s.runs[r].held| >= c.cap ==> |Taken(c.seen)| == Max(0, c.cap)
  {
    assert RunOk(s, r);
    var c := s.claims[s.runs[r].claim];
    assert ClaimOk(capacity, s, s.runs[r].claim);
    WeightWithinLoad(s, r, capacity);
    assert Wanting(s, r, first) && |c.seen| >= capacity ==> RoomFrom(capacity, s, capacity);
  }

  lemma StepServes(capacity: nat, s: State, e: Event, first: nat)
    requires Inv(capacity, s) && Ready(capacity, s, first) && Served(s, first)
    ensures Served(Step(capacity, s, e), first)
  {
    if e.Probe? && Has(s, e.run, {Sweeping}) {
      assert RunOk(s, e.run);
      if s.runs[e.run].claim >= first { EndedSweepIsServed(capacity, s, e.run, first); }
    }
  }

  ghost predicate AllFitAtStart(capacity: nat, past: seq<Event>, more: seq<Event>) {
    more == [] || (&& AllFitAtStart(capacity, past, more[..|more| - 1])
                   && FitsAtStart(capacity, After(capacity, past + more[..|more| - 1]), more[|more| - 1]))
  }

  lemma {:induction false} ServedWhenAllFit(capacity: nat, past: seq<Event>, more: seq<Event>)
    requires AllFitAtStart(capacity, past, more)
    ensures var first, s := |After(capacity, past).claims|, After(capacity, past + more);
            Ready(capacity, s, first) && Served(s, first)
  {
    var first := |After(capacity, past).claims|;
    if more == [] {
      assert past + more == past;
    } else {
      var front := more[..|more| - 1];
      ServedWhenAllFit(capacity, past, front);
      OneMoreEvent(capacity, past, more);
      Reachable(capacity, past + front);
      StepStaysReady(capacity, After(capacity, past + front), more[|more| - 1], first);
      StepServes(capacity, After(capacity, past + front), more[|more| - 1], first);
    }
  }

  /** After past, the demand stays within the range throughout more. */
  ghost predicate NeverOverbooked(capacity: nat, past: seq<Event>, more: seq<Event>) {
    && Demand(After(capacity, past + more)) <= capacity
    && (more == [] || NeverOverbooked(capacity, past, more[..|more| - 1]))
  }

  lemma {:induction false} NeverOverbookedFits(capacity: nat, past: seq<Event>, more: seq<Event>)
    requires NeverOverbooked(capacity, past, more)
    ensures AllFitAtStart(capacity, past, more)
  {
    if more == [] {
    } else {
      NeverOverbookedFits(capacity, past, more[..|more| - 1]);
      OneMoreEvent(capacity, past, more);
    }
  }

  /** As long as the demand does not exceed the range, every claim started meanwhile that sweeps to its end
      takes its cap. */
  lemma ServedUnlessOverbooked(capacity: nat, past: seq<Event>, more: seq<Event>)
    requires NeverOverbooked(capacity, past, more)
    ensures Served(After(capacity, past + more), |After(capacity, past).claims|)
  {
    NeverOverbookedFits(capacity, past, more);
    ServedWhenAllFit(capacity, past, more);
  }

  /** Whenever a run starts to sweep after past, the slots then held, what other sweeps may still take and
      its own cap fit the range together. What ended runs have given back is not counted. */
  ghost predicate RoomAtStarts(capacity: nat, past: seq<Event>, more: seq<Event>) {
    more == [] || (&& RoomAtStarts(capacity, past, more[..|more| - 1])
                   && StartsWithRoom(capacity, After(capacity, past + more[..|more| - 1]), more[|more| - 1]))
  }

  ghost predicate StartsWithRoom(capacity: nat, s: State, e: Event) {
    e.StartClaim? && Step(capacity, s, e) != s ==> Demand(s) + Max(0, e.cap) <= capacity
  }

  lemma {:induction false} RoomAtStartsFits(capacity: nat, past: seq<Event>, more: seq<Event>)
    requires RoomAtStarts(capacity, past, more)
    ensures AllFitAtStart(capacity, past, more)
  {
    if more == [] {
    } else {
      var front := more[..|more| - 1];
      RoomAtStartsFits(capacity, past, front);
      Reachable(capacity, past + front);
      StepDemand(capacity, After(capacity, past + front), more[|more| - 1]);
    }
  }

  /** Work conservation. After any history, overbooked or not, and with any older sweeps still under way: as
      long as runs start only when there is room for their caps, every claim they make that sweeps to its end
      takes exactly its own cap, whatever the interleaving, and however often slots are held, given back and
      taken again. */
  lemma WorkConservation(capacity: nat, past: seq<Event>, more: seq<Event>, j: nat)
    requires RoomAtStarts(capacity, past, more)
    requires |After(capacity, past).claims| <= j < |After(capacity, past + more).claims|
    requires After(capacity, past + more).claims[j].status.Finished?
    ensures var c := After(capacity, past + more).claims[j]; |Taken(c.seen)| == Max(0, c.cap)
  {
    RoomAtStartsFits(capacity, past, more);
    ServedWhenAllFit(capacity, past, more);
  }

  // ---- Two coarser conditions ----

  /** The cap of a run that is sweeping, has been granted its workers, or is giving slots back. */
  function LiveCap(s: State, q: nat): nat {
    if Has(s, q, {Sweeping, Granted, Releasing}) && s.runs[q].claim < |s.claims|
    then Max(0, s.claims[s.runs[q].claim].cap)
    else 0
  }

  ghost function LiveCaps(s: State): nat {
    Sum(|s.runs|, q => LiveCap(s, q))
  }

  lemma DemandWithinLiveCaps(capacity: nat, s: State)
    requires Inv(capacity, s)
    ensures Demand(s) <= LiveCaps(s)
  {
    var caps := q => LiveCap(s, q);
    forall q: nat | q < |s.runs| ensures Weights(s, 0)(q) <= caps(q) {
      assert RunOk(s, q);
      AtLeastZeroIsAll(s.runs[q].held);
      if Has(s, q, {Sweeping, Granted, Releasing}) { assert ClaimOk(capacity, s, s.runs[q].claim); }
    }
    SumIsMonotone(|s.runs|, Weights(s, 0), caps);
  }

  /** At every moment of the history the caps of the runs then alive fit the range. */
  ghost predicate LiveCapsFit(capacity: nat, es: seq<Event>) {
    LiveCaps(After(capacity, es)) <= capacity && (es == [] || LiveCapsFit(capacity, es[..|es| - 1]))
  }

  lemma {:induction false} LiveCapsNeverOverbook(capacity: nat, es: seq<Event>)
    requires LiveCapsFit(capacity, es)
    ensures NeverOverbooked(capacity, [], es)
  {
    assert [] + es == es;
    Reachable(capacity, es);
    DemandWithinLiveCaps(capacity, After(capacity, es));
    if es == [] {
    } else {
      LiveCapsNeverOverbook(capacity, es[..|es| - 1]);
    }
  }

  /** Enough, in particular, that the caps of the runs alive at any one time fit the range. */
  lemma LiveCapsAreServed(capacity: nat, es: seq<Event>)
    requires LiveCapsFit(capacity, es)
    ensures Served(After(capacity, es), 0)
  {
    LiveCapsNeverOverbook(capacity, es);
    ServedUnlessOverbooked(capacity, [], es);
    assert [] + es == es;
  }

  function SumCaps(claims: seq<Claim>): nat {
    if claims == [] then 0 else SumCaps(claims[..|claims| - 1]) + Max(0, claims[|claims| - 1].cap)
  }

  lemma {:induction false} SameCapsSameSum(a: seq<Claim>, b: seq<Claim>)
    requires |a| == |b| && forall j | 0 <= j < |a| :: a[j].cap == b[j].cap
    ensures SumCaps(a) == SumCaps(b)
  {
    if a == [] {
    } else {
      SameCapsSameSum(a[..|a| - 1], b[..|b| - 1]);
    }
  }

  /** Caps are only ever added to the log, and at least as much as is added to the demand. */
  lemma StepSumsCaps(capacity: nat, s: State, e: Event)
    requires Inv(capacity, s)
    ensures var t := Step(capacity, s, e);
            SumCaps(s.claims) <= SumCaps(t.claims)
            && (e.StartClaim? && t != s ==> SumCaps(t.claims) == SumCaps(s.claims) + Max(0, e.cap))
  {
    var t := Step(capacity, s, e);
    if e.StartClaim? && t != s {
      assert t.claims == s.claims + [Claim(e.run, e.cap, [], Running)];
      assert t.claims[..|s.claims|] == s.claims;
    } else {
      assert |t.claims| == |s.claims|;
      SameCapsSameSum(s.claims, t.claims);
    }
  }

  lemma {:induction false} DemandWithinAllCaps(capacity: nat, es: seq<Event>)
    requires SumCaps(After(capacity, es).claims) <= capacity
    ensures Demand(After(capacity, es)) <= SumCaps(After(capacity, es).claims)
    ensures NeverOverbooked(capacity, [], es)
  {
    assert [] + es == es;
    if es == [] {
      assert Demand(INIT) == 0;
    } else {
      var s, e := After(capacity, es[..|es| - 1]), es[|es| - 1];
      Reachable(capacity, es[..|es| - 1]);
      StepSumsCaps(capacity, s, e);
      DemandWithinAllCaps(capacity, es[..|es| - 1]);
      StepDemand(capacity, s, e);
    }
  }

  /** And enough, more coarsely still, that the caps of all claims ever started do. */
  lemma AllCapsAreServed(capacity: nat, es: seq<Event>)
    requires SumCaps(After(capacity, es).claims) <= capacity
    ensures Served(After(capacity, es), 0)
  {
    DemandWithinAllCaps(capacity, es);
    ServedUnlessOverbooked(capacity, [], es);
    assert [] + es == es;
  }

  // ---- When nothing is given back ----

  ghost predicate NothingReturned(more: seq<Event>) {
    forall i | 0 <= i < |more| :: !more[i].Release? && !more[i].Exit?
  }

  /** Every slot that a claim numbered `first` or later has asked about is locked. */
  ghost predicate SeenAreLocked(s: State, first: nat) {
    forall j: nat, k: nat | first <= j < |s.claims| && k < |s.claims[j].seen| :: k in s.locks
  }

  lemma StepKeepsSeenLocked(capacity: nat, s: State, e: Event, first: nat)
    requires Inv(capacity, s) && SeenAreLocked(s, first) && !e.Release? && !e.Exit?
    ensures SeenAreLocked(Step(capacity, s, e), first)
  {
    var t := Step(capacity, s, e);
    assert s.locks.Keys <= t.locks.Keys;
    forall j: nat, k: nat | first <= j < |t.claims| && k < |t.claims[j].seen| ensures k in t.locks {
      if j < |s.claims| && k < |s.claims[j].seen| { assert k in s.locks; }
    }
  }

  lemma {:induction false} SeenStayLocked(capacity: nat, past: seq<Event>, more: seq<Event>)
    requires NothingReturned(more)
    ensures SeenAreLocked(After(capacity, past + more), |After(capacity, past).claims|)
  {
    if more == [] {
      assert past + more == past;
    } else {
      var front := more[..|more| - 1];
      SeenStayLocked(capacity, past, front);
      OneMoreEvent(capacity, past, more);
      Reachable(capacity, past + front);
      StepKeepsSeenLocked(capacity, After(capacity, past + front), more[|more| - 1], |After(capacity, past).claims|);
    }
  }

  /** Nothing is wasted: while no run gives slots back or ends, either every claim started meanwhile that has
      swept to its end took its cap, or the whole range is locked. */
  lemma FullOrServed(capacity: nat, past: seq<Event>, more: seq<Event>)
    requires NothingReturned(more)
    ensures var s := After(capacity, past + more);
            Served(s, |After(capacity, past).claims|) || forall k: nat | k < capacity :: k in s.locks
  {
    var s, first := After(capacity, past + more), |After(capacity, past).claims|;
    SeenStayLocked(capacity, past, more);
    Reachable(capacity, past + more);
    if !Served(s, first) {
      var j: nat :| first <= j < |s.claims| && s.claims[j].status.Finished?
                    && |Taken(s.claims[j].seen)| != Max(0, s.claims[j].cap);
      assert ClaimOk(capacity, s, j);
    }
  }
}
