/** How much of the slot range is spoken for: what runs hold and what sweeping runs may still take, counted from
    each index up; and what each step of any run does to it. */
module SlotRoom {
  import opened WorkerBudget
  import opened SlotSweep
  import opened SlotProtocol

  // ---- Sums over runs ----

  ghost function Sum(n: nat, w: nat -> nat): nat {
    if n == 0 then 0 else Sum(n - 1, w) + w(n - 1)
  }

  lemma {:induction false} SumIsMonotone(n: nat, w: nat -> nat, v: nat -> nat)
    requires forall q: nat | q < n :: w(q) <= v(q)
    ensures Sum(n, w) <= Sum(n, v)
  {
    if n == 0 {
    } else {
      SumIsMonotone(n - 1, w, v);
    }
  }

  /** One summand may differ by d; the others do not grow. */
  lemma {:induction false} SumChanges(n: nat, w: nat -> nat, v: nat -> nat, o: nat, d: int)
    requires o < n && w(o) <= v(o) + d
    requires forall q: nat | q < n && q != o :: w(q) <= v(q)
    ensures Sum(n, w) <= Sum(n, v) + d
  {
    if o == n - 1 {
      SumIsMonotone(n - 1, w, v);
    } else {
      SumChanges(n - 1, w, v, o, d);
    }
  }

  // ---- What runs hold and may still take ----

  /** How many of the slots are at or above j. */
  function AtLeast(held: seq<nat>, j: nat): nat {
    if held == [] then 0
    else AtLeast(held[..|held| - 1], j) + if held[|held| - 1] >= j then 1 else 0
  }

  lemma AtLeastOneMore(held: seq<nat>, k: nat, j: nat)
    ensures AtLeast(held + [k], j) == AtLeast(held, j) + if k >= j then 1 else 0
  {
    assert (held + [k])[..|held|] == held;
  }

  lemma {:induction false} AtLeastZeroIsAll(held: seq<nat>)
    ensures AtLeast(held, 0) == |held|
  {
    if held == [] {
    } else {
      AtLeastZeroIsAll(held[..|held| - 1]);
    }
  }

  lemma {:induction false} AtLeastFalls(held: seq<nat>, j: nat)
    ensures AtLeast(held, j + 1) <= AtLeast(held, j)
    ensures j in held ==> AtLeast(held, j + 1) < AtLeast(held, j)
  {
    if held == [] {
    } else {
      AtLeastFalls(held[..|held| - 1], j);
    }
  }

  ghost predicate AllBelow(held: seq<nat>, j: nat) {
    forall i | 0 <= i < |held| :: held[i] < j
  }

  lemma {:induction false} NoneAtLeast(held: seq<nat>, j: nat)
    requires AllBelow(held, j)
    ensures AtLeast(held, j) == 0
  {
    if held == [] {
    } else {
      NoneAtLeast(held[..|held| - 1], j);
    }
  }

  /** What a sweep may still take: its cap less what it has. */
  function Remaining(run: Run, claim: Claim): nat {
    if |run.held| < claim.cap then claim.cap - |run.held| else 0
  }

  /** The slots at or above j that run q holds or may still take. A sweep that has passed j counts for the
      slots it took; one that has not, for all that is left of its cap. */
  function Weight(s: State, q: nat, j: nat): nat {
    if q >= |s.runs| then 0
    else
      var run := s.runs[q];
      AtLeast(run.held, j)
      + if run.phase.Sweeping? && run.claim < |s.claims| && |s.claims[run.claim].seen| >= j
        then Remaining(run, s.claims[run.claim]) else 0
  }

  ghost function Weights(s: State, j: nat): nat -> nat {
    q => Weight(s, q, j)
  }

  ghost function Load(s: State, j: nat): nat {
    Sum(|s.runs|, Weights(s, j))
  }

  /** All slots held, and all that sweeping runs may still take. */
  ghost function Demand(s: State): nat {
    Load(s, 0)
  }

  /** The part of the range from j up has room for all that is wanted of it. */
  ghost predicate RoomFrom(capacity: nat, s: State, j: nat) {
    Load(s, j) + j <= capacity
  }

  lemma WeightFalls(s: State, q: nat, j: nat)
    ensures Weight(s, q, j + 1) <= Weight(s, q, j)
    ensures q < |s.runs| && j in s.runs[q].held ==> Weight(s, q, j + 1) < Weight(s, q, j)
  {
    if q < |s.runs| { AtLeastFalls(s.runs[q].held, j); }
  }

  // ---- A probe ----

  /** Run r is sweeping, its log and its list are in order, and it stands at slot c. */
  ghost predicate StandsAt(s: State, r: nat, c: nat) {
    && Has(s, r, {Sweeping}) && s.runs[r].claim < |s.claims|
    && s.claims[s.runs[r].claim].run == r
    && |s.claims[s.runs[r].claim].seen| == c
    && AllBelow(s.runs[r].held, c)
  }

  lemma SweepingStands(capacity: nat, s: State, r: nat)
    requires Inv(capacity, s) && Has(s, r, {Sweeping})
    ensures s.runs[r].claim < |s.claims| && StandsAt(s, r, |s.claims[s.runs[r].claim].seen|)
  {
    assert RunOk(s, r);
    var seen := s.claims[s.runs[r].claim].seen;
    var held := s.runs[r].held;
    forall i | 0 <= i < |held| ensures held[i] < |seen| {
      assert held[i] in Taken(seen);
      TakenHas(seen, held[i]);
    }
  }

  /** Other runs' weights do not change when r probes. */
  lemma ProbeSparesOthers(capacity: nat, s: State, r: nat, q: nat, j: nat)
    requires Inv(capacity, s) && Has(s, r, {Sweeping}) && q < |s.runs| && q != r
    ensures s.runs[r].claim < |s.claims| && Weight(ProbeSlot(capacity, s, r), q, j) == Weight(s, q, j)
  {
    assert RunOk(s, r) && RunOk(s, q);
  }

  /** A probe that ends the sweep gives up what was left of its cap. */
  lemma EndingProbe(capacity: nat, s: State, r: nat, c: nat, j: nat)
    requires Inv(capacity, s) && StandsAt(s, r, c)
    requires c >= capacity || |s.runs[r].held| >= s.claims[s.runs[r].claim].cap
    ensures Load(ProbeSlot(capacity, s, r), j) <= Load(s, j)
  {
    var t := ProbeSlot(capacity, s, r);
    forall q: nat | q < |s.runs| ensures Weights(t, j)(q) <= Weights(s, j)(q) {
      if q != r { ProbeSparesOthers(capacity, s, r, q, j); }
    }
    SumIsMonotone(|s.runs|, Weights(t, j), Weights(s, j));
  }

  /** The prober itself, at slot c: what it holds and may take stays the same from j <= c on, and loses
      slot c for the part above it if it took that. */
  lemma ProberWeight(capacity: nat, s: State, r: nat, c: nat, j: nat)
    requires Inv(capacity, s) && StandsAt(s, r, c)
    requires c < capacity && |s.runs[r].held| < s.claims[s.runs[r].claim].cap
    ensures var t := ProbeSlot(capacity, s, r);
            && (j != c + 1 ==> Weight(t, r, j) == Weight(s, r, j))
            && Weight(t, r, c + 1) == Weight(s, r, c) - if c in s.locks then 0 else 1
  {
    var held := s.runs[r].held;
    AtLeastOneMore(held, c, j);
    AtLeastOneMore(held, c, c + 1);
    NoneAtLeast(held, c);
    AtLeastFalls(held, c);
    if j > c { NoneAtLeast(held, j); }
  }

  lemma OtherParts(capacity: nat, s: State, r: nat, c: nat, j: nat)
    requires Inv(capacity, s) && StandsAt(s, r, c) && j != c + 1
    requires c < capacity && |s.runs[r].held| < s.claims[s.runs[r].claim].cap
    ensures Load(ProbeSlot(capacity, s, r), j) <= Load(s, j)
  {
    var t := ProbeSlot(capacity, s, r);
    ProberWeight(capacity, s, r, c, j);
    forall q: nat | q < |s.runs| ensures Weights(t, j)(q) <= Weights(s, j)(q) {
      if q != r { ProbeSparesOthers(capacity, s, r, q, j); }
    }
    SumIsMonotone(|s.runs|, Weights(t, j), Weights(s, j));
  }

  /** Passing slot c: whoever has it now, the prober or the owner it met, no longer counts it above c. */
  lemma PassingProbe(capacity: nat, s: State, r: nat, c: nat)
    requires Inv(capacity, s) && StandsAt(s, r, c)
    requires c < capacity && |s.runs[r].held| < s.claims[s.runs[r].claim].cap
    ensures Load(ProbeSlot(capacity, s, r), c + 1) + 1 <= Load(s, c)
  {
    var t := ProbeSlot(capacity, s, r);
    ProberWeight(capacity, s, r, c, c + 1);
    var o := if c in s.locks then s.locks[c] else r;
    if c in s.locks { assert c in s.runs[o].held; }
    forall q: nat | q < |s.runs|
      ensures Weights(t, c + 1)(q) <= Weights(s, c)(q) + if q == o then -1 else 0
    {
      WeightFalls(s, q, c);
      if q != r { ProbeSparesOthers(capacity, s, r, q, c + 1); }
    }
    SumChanges(|s.runs|, Weights(t, c + 1), Weights(s, c), o, -1);
  }

  lemma ProbeDemand(capacity: nat, s: State, r: nat)
    requires Inv(capacity, s) && Has(s, r, {Sweeping}) && s.runs[r].claim < |s.claims|
    ensures Demand(ProbeSlot(capacity, s, r)) <= Demand(s)
  {
    var c := |s.claims[s.runs[r].claim].seen|;
    SweepingStands(capacity, s, r);
    if c >= capacity || |s.runs[r].held| >= s.claims[s.runs[r].claim].cap {
      EndingProbe(capacity, s, r, c, 0);
    } else {
      OtherParts(capacity, s, r, c, 0);
    }
  }

  // ---- The other events ----

  lemma OtherEventWeight(capacity: nat, s: State, e: Event, q: nat, j: nat)
    requires Inv(capacity, s) && !e.Probe? && !e.Spawn?
    requires e.StartClaim? ==> e.run != q || j > 0
    ensures Weight(Step(capacity, s, e), q, j) <= Weight(s, q, j)
  {
    if q < |s.runs| {
      assert RunOk(s, q);
      if e.Release? && e.run == q && s.runs[q].held != [] {
        var held := s.runs[q].held;
        assert held == held[..|held| - 1] + [held[|held| - 1]];
      }
    }
  }

  lemma OtherEventLoad(capacity: nat, s: State, e: Event, j: nat)
    requires Inv(capacity, s) && !e.Probe? && (e.StartClaim? ==> j > 0)
    ensures Load(Step(capacity, s, e), j) <= Load(s, j)
  {
    var t := Step(capacity, s, e);
    if e.Spawn? {
      SumIsMonotone(|s.runs|, Weights(t, j), Weights(s, j));
      assert Weight(t, |s.runs|, j) == 0;
    } else {
      forall q: nat | q < |s.runs| ensures Weights(t, j)(q) <= Weights(s, j)(q) {
        OtherEventWeight(capacity, s, e, q, j);
      }
      SumIsMonotone(|s.runs|, Weights(t, j), Weights(s, j));
    }
  }

  /** Starting a sweep adds at most its cap to the demand; it is the only event that adds to it. */
  lemma StartAddsItsCap(capacity: nat, s: State, r: nat, cap: int)
    requires Inv(capacity, s)
    ensures Demand(Step(capacity, s, StartClaim(r, cap))) <= Demand(s) + Max(0, cap)
  {
    var t := Step(capacity, s, StartClaim(r, cap));
    forall q: nat | q < |s.runs| && q != r ensures Weights(t, 0)(q) <= Weights(s, 0)(q) {
      OtherEventWeight(capacity, s, StartClaim(r, cap), q, 0);
    }
    if r < |s.runs| {
      SumChanges(|s.runs|, Weights(t, 0), Weights(s, 0), r, Max(0, cap));
    } else {
      assert t == s;
    }
  }

  /** What a step may add to the demand. */
  lemma StepDemand(capacity: nat, s: State, e: Event)
    requires Inv(capacity, s)
    ensures Demand(Step(capacity, s, e)) <=
            Demand(s) + if e.StartClaim? && Step(capacity, s, e) != s then Max(0, e.cap) else 0
  {
    if e.StartClaim? {
      StartAddsItsCap(capacity, s, e.run, e.cap);
    } else if !e.Probe? {
      OtherEventLoad(capacity, s, e, 0);
    } else if Has(s, e.run, {Sweeping}) {
      assert RunOk(s, e.run);
      ProbeDemand(capacity, s, e.run);
    }
  }
}
