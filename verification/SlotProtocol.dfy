/** Any number of pytest runs contending for the slot files of one host, interleaved arbitrarily.
    A slot lock is the kernel's: exclusive, non-blocking to ask for, gone with its owner. */
module SlotProtocol {
  import opened WorkerBudget
  import opened SlotSweep

  datatype Phase = Idle | Sweeping | Granted | Releasing | Gone

  /** One process: where it is, the slots in its _held_slots list, and the number of its last claim. */
  datatype Run = Run(phase: Phase, held: seq<nat>, claim: nat)

  datatype Status = Running | Finished | CannotOpen

  /** The log of one sweep: who sweeps, its cap, and the answer each slot gave when it was probed. */
  datatype Claim = Claim(run: nat, cap: int, seen: seq<Answer>, status: Status)

  datatype State = State(locks: map<nat, nat>, runs: seq<Run>, claims: seq<Claim>)

  datatype Event =
    | Spawn                        // a process starts
    | StartClaim(run: nat, cap: int)
    | Probe(run: nat)              // one turn of the claim loop
    | ProbeNoFile(run: nat)        // the same turn, when the slot file cannot be opened
    | Release(run: nat)            // one turn of the release loop
    | Exit(run: nat)               // normal exit, kill or crash

  const INIT := State(map[], [], [])

  function ProbeSlot(capacity: nat, s: State, r: nat): State
    requires r < |s.runs| && s.runs[r].phase.Sweeping? && s.runs[r].claim < |s.claims|
  {
    var run := s.runs[r];
    var claim := s.claims[run.claim];
    var slot := |claim.seen|;
    if slot >= capacity || |run.held| >= claim.cap then
      s.(runs := s.runs[r := run.(phase := Granted)],
         claims := s.claims[run.claim := claim.(status := Finished)])
    else if slot in s.locks then
      s.(claims := s.claims[run.claim := claim.(seen := claim.seen + [Busy(s.locks[slot])])])
    else
      State(s.locks[slot := r],
            s.runs[r := run.(held := run.held + [slot])],
            s.claims[run.claim := claim.(seen := claim.seen + [Free])])
  }

  function OpenFails(capacity: nat, s: State, r: nat): State
    requires r < |s.runs| && s.runs[r].phase.Sweeping? && s.runs[r].claim < |s.claims|
  {
    var run := s.runs[r];
    var claim := s.claims[run.claim];
    if |claim.seen| >= capacity || |run.held| >= claim.cap then s
    else
      s.(runs := s.runs[r := run.(phase := Granted)],
         claims := s.claims[run.claim := claim.(status := CannotOpen)])
  }

  function ReleaseOne(s: State, r: nat): State
    requires r < |s.runs|
  {
    var run := s.runs[r];
    if run.held == [] then
      s.(runs := s.runs[r := run.(phase := Idle)])
    else
      var last := |run.held| - 1;
      s.(locks := s.locks - {run.held[last]},
         runs := s.runs[r := run.(phase := Releasing, held := run.held[..last])])
  }

  function Die(s: State, r: nat): State
    requires r < |s.runs|
  {
    s.(locks := map k | k in s.locks && s.locks[k] != r :: s.locks[k],
       runs := s.runs[r := Run(Gone, [], s.runs[r].claim)])
  }

  predicate Has(s: State, r: nat, phases: set<Phase>) {
    r < |s.runs| && s.runs[r].phase in phases
  }

  /** One step of the whole system. An event its run is in no position for changes nothing. */
  function Step(capacity: nat, s: State, e: Event): State {
    match e
    case Spawn => s.(runs := s.runs + [Run(Idle, [], 0)])
    case StartClaim(r, cap) =>
      if !Has(s, r, {Idle, Granted}) || s.runs[r].held != [] then s
      else s.(runs := s.runs[r := Run(Sweeping, [], |s.claims|)],
              claims := s.claims + [Claim(r, cap, [], Running)])
    case Probe(r) =>
      if !Has(s, r, {Sweeping}) || s.runs[r].claim >= |s.claims| then s else ProbeSlot(capacity, s, r)
    case ProbeNoFile(r) =>
      if !Has(s, r, {Sweeping}) || s.runs[r].claim >= |s.claims| then s else OpenFails(capacity, s, r)
    case Release(r) =>
      if !Has(s, r, {Granted, Releasing}) then s else ReleaseOne(s, r)
    case Exit(r) =>
      if !Has(s, r, {Idle, Sweeping, Granted, Releasing}) then s else Die(s, r)
  }

  /** The state after a history of events; the reachable states are its values. */
  function After(capacity: nat, es: seq<Event>): State {
    if es == [] then INIT else Step(capacity, After(capacity, es[..|es| - 1]), es[|es| - 1])
  }

  // ---- What every step keeps ----

  /** The kernel's table and the processes' lists agree. */
  ghost predicate Agree(capacity: nat, s: State) {
    && (forall k | k in s.locks :: k < capacity && s.locks[k] < |s.runs| && k in s.runs[s.locks[k]].held)
    && (forall r: nat, k | r < |s.runs| && k in s.runs[r].held :: k in s.locks && s.locks[k] == r)
  }

  ghost predicate RunOk(s: State, r: nat)
    requires r < |s.runs|
  {
    var run := s.runs[r];
    && (run.phase.Idle? || run.phase.Gone? ==> run.held == [])
    && (run.phase.Sweeping? || run.phase.Granted? || run.phase.Releasing? ==>
          && run.claim < |s.claims|
          && s.claims[run.claim].run == r
          && run.held <= Taken(s.claims[run.claim].seen)
          && (run.phase.Sweeping? ==> s.claims[run.claim].status.Running?)
          && (run.phase.Releasing? || run.held == Taken(s.claims[run.claim].seen)))
  }

  ghost predicate ClaimOk(capacity: nat, s: State, j: nat)
    requires j < |s.claims|
  {
    var c := s.claims[j];
    && c.run < |s.runs|
    && |c.seen| <= capacity
    && |Taken(c.seen)| <= Max(0, c.cap)
    && (forall k: nat | k < |c.seen| :: !c.seen[k].NoFile?)
    && (forall k: nat | k < |c.seen| :: |Taken(c.seen[..k])| < c.cap)
    && (c.status.Finished? ==> |c.seen| == capacity || |Taken(c.seen)| >= c.cap)
    && (c.status.CannotOpen? ==> |c.seen| < capacity && |Taken(c.seen)| < c.cap)
  }

  /** Claim j locked slot k at some time, and o ran it. */
  ghost predicate Took(s: State, j: nat, o: nat, k: nat) {
    j < |s.claims| && s.claims[j].run == o && k < |s.claims[j].seen| && s.claims[j].seen[k].Free?
  }

  /** Whoever made a slot busy had taken it in a claim of its own, and was another run. */
  ghost predicate BusyOk(s: State, j: nat)
    requires j < |s.claims|
  {
    var c := s.claims[j];
    forall k: nat | k < |c.seen| && c.seen[k].Busy? ::
      c.seen[k].owner != c.run && exists i: nat :: Took(s, i, c.seen[k].owner, k)
  }

  ghost predicate Inv(capacity: nat, s: State) {
    && Agree(capacity, s)
    && (forall r: nat | r < |s.runs| :: RunOk(s, r))
    && (forall j: nat | j < |s.claims| :: ClaimOk(capacity, s, j))
    && (forall j: nat | j < |s.claims| :: BusyOk(s, j))
  }

  /** Claims are only added and extended, so what was once taken stays on the log. */
  ghost predicate LogGrows(s: State, t: State) {
    && |s.claims| <= |t.claims|
    && forall j: nat | j < |s.claims| ::
         && s.claims[j].run == t.claims[j].run
         && s.claims[j].cap == t.claims[j].cap
         && s.claims[j].seen <= t.claims[j].seen
  }

  lemma TookStays(s: State, t: State, j: nat, o: nat, k: nat)
    requires LogGrows(s, t) && Took(s, j, o, k)
    ensures Took(t, j, o, k)
  {
    assert s.claims[j].seen <= t.claims[j].seen;
  }

  lemma StepKeepsLog(capacity: nat, s: State, e: Event)
    ensures LogGrows(s, Step(capacity, s, e))
  {
  }

  lemma ProbeKeepsAgree(capacity: nat, s: State, r: nat)
    requires Agree(capacity, s) && Has(s, r, {Sweeping}) && s.runs[r].claim < |s.claims|
    ensures Agree(capacity, ProbeSlot(capacity, s, r))
  {
    var t := ProbeSlot(capacity, s, r);
    forall q: nat, k | q < |t.runs| && k in t.runs[q].held ensures k in t.locks && t.locks[k] == q {
      if k in s.runs[q].held { assert k in s.locks && s.locks[k] == q; }
    }
    forall k | k in t.locks ensures k < capacity && t.locks[k] < |t.runs| && k in t.runs[t.locks[k]].held {
      if k in s.locks { assert k in s.runs[s.locks[k]].held; }
    }
  }

  lemma ProbeKeepsOwnRun(capacity: nat, s: State, r: nat)
    requires Has(s, r, {Sweeping}) && RunOk(s, r)
    ensures RunOk(ProbeSlot(capacity, s, r), r)
  {
    var claim := s.claims[s.runs[r].claim];
    var slot := |claim.seen|;
    TakenStep(claim.seen, if slot in s.locks then Busy(s.locks[slot]) else Free);
  }

  lemma ProbeKeepsRun(capacity: nat, s: State, r: nat, q: nat)
    requires Has(s, r, {Sweeping}) && RunOk(s, r) && q < |s.runs| && RunOk(s, q)
    ensures RunOk(ProbeSlot(capacity, s, r), q)
  {
    if q == r {
      ProbeKeepsOwnRun(capacity, s, r);
    } else {
      var t, j := ProbeSlot(capacity, s, r), s.runs[q].claim;
      assert t.runs[q] == s.runs[q];
      assert j < |s.claims| && s.claims[j].run == q ==> t.claims[j] == s.claims[j];
    }
  }

  lemma SeenExtends(seen: seq<Answer>, a: Answer)
    ensures forall k: nat | k <= |seen| :: (seen + [a])[..k] == seen[..k]
    ensures Taken(seen + [a]) == if a.Free? then Taken(seen) + [|seen|] else Taken(seen)
  {
    TakenStep(seen, a);
  }

  /** One more answer, asked for while the claim may go on, keeps the claim in order. */
  lemma AnswerKeepsClaim(capacity: nat, s: State, t: State, i: nat, a: Answer)
    requires i < |s.claims| && ClaimOk(capacity, s, i) && s.claims[i].status.Running? && !a.NoFile?
    requires |s.claims[i].seen| < capacity && |Taken(s.claims[i].seen)| < s.claims[i].cap
    requires i < |t.claims| && |s.runs| <= |t.runs|
    requires t.claims[i] == s.claims[i].(seen := s.claims[i].seen + [a])
    ensures ClaimOk(capacity, t, i)
  {
    var seen := s.claims[i].seen;
    SeenExtends(seen, a);
    assert seen[..|seen|] == seen;
  }

  lemma ProbeKeepsClaim(capacity: nat, s: State, r: nat, i: nat)
    requires Has(s, r, {Sweeping}) && RunOk(s, r) && i < |s.claims| && ClaimOk(capacity, s, i)
    ensures ClaimOk(capacity, ProbeSlot(capacity, s, r), i)
  {
    var claim := s.claims[s.runs[r].claim];
    var slot := |claim.seen|;
    if i == s.runs[r].claim && slot < capacity && |s.runs[r].held| < claim.cap {
      AnswerKeepsClaim(capacity, s, ProbeSlot(capacity, s, r), i, if slot in s.locks then Busy(s.locks[slot]) else Free);
    }
  }

  lemma ProbeKeepsBusy(capacity: nat, s: State, r: nat, i: nat)
    requires Inv(capacity, s) && Has(s, r, {Sweeping}) && s.runs[r].claim < |s.claims| && i < |s.claims|
    ensures BusyOk(ProbeSlot(capacity, s, r), i)
  {
    var t := ProbeSlot(capacity, s, r);
    var c := t.claims[i];
    assert RunOk(s, r);
    assert LogGrows(s, t);
    forall k: nat | k < |c.seen| && c.seen[k].Busy?
      ensures c.seen[k].owner != c.run && exists j: nat :: Took(t, j, c.seen[k].owner, k)
    {
      if k < |s.claims[i].seen| {
        assert BusyOk(s, i);
        var j: nat :| Took(s, j, s.claims[i].seen[k].owner, k);
        TookStays(s, t, j, c.seen[k].owner, k);
      } else {
        var o := s.locks[k];
        assert RunOk(s, o);
        var j := s.runs[o].claim;
        assert k in s.runs[o].held;
        TakenHas(s.claims[j].seen, k);
        assert k in Taken(s.claims[j].seen);
        assert Took(s, j, o, k);
        TookStays(s, t, j, o, k);
      }
    }
  }

  /** A step that leaves the log's answers alone keeps everything on it. */
  lemma SameAnswersKeepBusy(s: State, t: State, j: nat)
    requires LogGrows(s, t) && j < |s.claims| && BusyOk(s, j) && t.claims[j].seen == s.claims[j].seen
    ensures BusyOk(t, j)
  {
    var c := s.claims[j];
    forall k: nat | k < |c.seen| && c.seen[k].Busy? ensures exists i: nat :: Took(t, i, c.seen[k].owner, k) {
      var i: nat :| Took(s, i, c.seen[k].owner, k);
      TookStays(s, t, i, c.seen[k].owner, k);
    }
  }

  ghost predicate Increasing(xs: seq<nat>) {
    forall i, j | 0 <= i < j < |xs| :: xs[i] < xs[j]
  }

  lemma HeldIncreases(s: State, r: nat)
    requires r < |s.runs| && RunOk(s, r)
    ensures Increasing(s.runs[r].held)
  {
    var held := s.runs[r].held;
    forall i, j | 0 <= i < j < |held| ensures held[i] < held[j] {
      var seen := s.claims[s.runs[r].claim].seen;
      assert held[i] == Taken(seen)[i] && held[j] == Taken(seen)[j];
      TakenAscends(seen, i, j);
    }
  }

  lemma DeathKeepsAgree(capacity: nat, s: State, r: nat)
    requires Agree(capacity, s) && r < |s.runs|
    ensures Agree(capacity, Die(s, r))
  {
    var t := Die(s, r);
    forall q: nat, k | q < |t.runs| && k in t.runs[q].held ensures k in t.locks && t.locks[k] == q {
      assert k in s.runs[q].held && s.locks[k] == q;
    }
    forall k | k in t.locks ensures k < capacity && t.locks[k] < |t.runs| && k in t.runs[t.locks[k]].held {
      assert k in s.runs[s.locks[k]].held;
    }
  }

  lemma ReleaseKeepsAgree(capacity: nat, s: State, r: nat)
    requires Agree(capacity, s) && Has(s, r, {Granted, Releasing}) && RunOk(s, r)
    ensures Agree(capacity, ReleaseOne(s, r))
  {
    var t := ReleaseOne(s, r);
    var held := s.runs[r].held;
    if held != [] {
      var last := |held| - 1;
      assert held == held[..last] + [held[last]];
      HeldIncreases(s, r);
      forall q: nat, k | q < |t.runs| && k in t.runs[q].held ensures k in t.locks && t.locks[k] == q {
        assert k in s.runs[q].held && s.locks[k] == q;
        assert held[last] in s.runs[r].held;
      }
      forall k | k in t.locks ensures k < capacity && t.locks[k] < |t.runs| && k in t.runs[t.locks[k]].held {
        assert k in s.runs[s.locks[k]].held;
      }
    }
  }

  lemma SameHeldKeepsAgree(capacity: nat, s: State, t: State)
    requires Agree(capacity, s) && t.locks == s.locks && |s.runs| <= |t.runs|
    requires forall q: nat | q < |t.runs| :: t.runs[q].held == if q < |s.runs| then s.runs[q].held else []
    ensures Agree(capacity, t)
  {
    forall q: nat, k | q < |t.runs| && k in t.runs[q].held ensures k in t.locks && t.locks[k] == q {
      assert k in s.runs[q].held;
    }
    forall k | k in t.locks ensures k < capacity && t.locks[k] < |t.runs| && k in t.runs[t.locks[k]].held {
      assert k in s.runs[s.locks[k]].held;
    }
  }

  lemma QuietStepKeepsAgree(capacity: nat, s: State, e: Event)
    requires Agree(capacity, s) && (e.Spawn? || e.StartClaim? || e.ProbeNoFile?)
    ensures Agree(capacity, Step(capacity, s, e))
  {
    SameHeldKeepsAgree(capacity, s, Step(capacity, s, e));
  }

  lemma StepKeepsAgree(capacity: nat, s: State, e: Event)
    requires Inv(capacity, s)
    ensures Agree(capacity, Step(capacity, s, e))
  {
    match e {
      case Probe(r) => if Has(s, r, {Sweeping}) && s.runs[r].claim < |s.claims| { ProbeKeepsAgree(capacity, s, r); }
      case Release(r) => if Has(s, r, {Granted, Releasing}) { ReleaseKeepsAgree(capacity, s, r); }
      case Exit(r) => if Has(s, r, {Idle, Sweeping, Granted, Releasing}) { DeathKeepsAgree(capacity, s, r); }
      case _ => QuietStepKeepsAgree(capacity, s, e);
    }
  }

  lemma StepKeepsRun(capacity: nat, s: State, e: Event, q: nat)
    requires Inv(capacity, s) && q < |Step(capacity, s, e).runs|
    ensures RunOk(Step(capacity, s, e), q)
  {
    if q < |s.runs| {
      assert RunOk(s, q);
      match e {
        case Probe(r) =>
          if Has(s, r, {Sweeping}) {
            assert RunOk(s, r);
            ProbeKeepsRun(capacity, s, r, q);
          }
        case Release(r) =>
          if Has(s, r, {Granted, Releasing}) { assert RunOk(s, r); }
        case ProbeNoFile(r) =>
          if Has(s, r, {Sweeping}) { assert RunOk(s, r); }
        case _ =>
      }
    }
  }

  lemma StepKeepsClaim(capacity: nat, s: State, e: Event, i: nat)
    requires Inv(capacity, s) && i < |Step(capacity, s, e).claims|
    ensures ClaimOk(capacity, Step(capacity, s, e), i)
  {
    if i < |s.claims| {
      assert ClaimOk(capacity, s, i);
      if e.Probe? && Has(s, e.run, {Sweeping}) {
        assert RunOk(s, e.run);
        ProbeKeepsClaim(capacity, s, e.run, i);
      } else if e.ProbeNoFile? && Has(s, e.run, {Sweeping}) {
        assert RunOk(s, e.run);
      }
    }
  }

  lemma StepKeepsBusy(capacity: nat, s: State, e: Event, i: nat)
    requires Inv(capacity, s) && i < |Step(capacity, s, e).claims|
    ensures BusyOk(Step(capacity, s, e), i)
  {
    if i < |s.claims| {
      assert BusyOk(s, i);
      if e.Probe? && Has(s, e.run, {Sweeping}) {
        assert RunOk(s, e.run);
        ProbeKeepsBusy(capacity, s, e.run, i);
      } else {
        StepKeepsLog(capacity, s, e);
        SameAnswersKeepBusy(s, Step(capacity, s, e), i);
      }
    }
  }

  /** Every reachable state satisfies the invariant. */
  lemma {:induction false} Reachable(capacity: nat, es: seq<Event>)
    ensures Inv(capacity, After(capacity, es))
  {
    if es == [] {
    } else {
      var s := After(capacity, es[..|es| - 1]);
      var e := es[|es| - 1];
      Reachable(capacity, es[..|es| - 1]);
      var t := Step(capacity, s, e);
      StepKeepsAgree(capacity, s, e);
      forall q: nat | q < |t.runs| ensures RunOk(t, q) { StepKeepsRun(capacity, s, e, q); }
      forall i: nat | i < |t.claims| ensures ClaimOk(capacity, t, i) && BusyOk(t, i) {
        StepKeepsClaim(capacity, s, e, i);
        StepKeepsBusy(capacity, s, e, i);
      }
    }
  }

  // ---- Safety, in every reachable state of every interleaving ----

  /** No slot is held by two runs, nor twice by one; a run holds at most the cap it claimed with; and
      what runs believe they hold is what the kernel has locked for them. */
  lemma MutualExclusion(capacity: nat, es: seq<Event>, q: nat, r: nat, i: nat, j: nat)
    requires q < |After(capacity, es).runs| && i < |After(capacity, es).runs[q].held|
    requires r < |After(capacity, es).runs| && j < |After(capacity, es).runs[r].held|
    ensures var s := After(capacity, es);
            && (s.runs[q].held[i] == s.runs[r].held[j] ==> q == r && i == j)
            && s.runs[q].held[i] in s.locks && s.locks[s.runs[q].held[i]] == q
            && s.runs[q].held[i] < capacity
            && s.runs[q].claim < |s.claims|
            && |s.runs[q].held| <= s.claims[s.runs[q].claim].cap
  {
    var s := After(capacity, es);
    Reachable(capacity, es);
    HeldIsLocked(capacity, s, q, i);
    HeldIsLocked(capacity, s, r, j);
    HeldIncreases(s, q);
    assert i < j || j < i || i == j;
  }

  lemma HeldIsLocked(capacity: nat, s: State, q: nat, i: nat)
    requires Inv(capacity, s) && q < |s.runs| && i < |s.runs[q].held|
    ensures RunOk(s, q)
    ensures s.runs[q].held[i] in s.locks && s.locks[s.runs[q].held[i]] == q && s.runs[q].held[i] < capacity
    ensures s.runs[q].claim < |s.claims| && |s.runs[q].held| <= s.claims[s.runs[q].claim].cap
  {
    assert RunOk(s, q);
    assert ClaimOk(capacity, s, s.runs[q].claim);
    assert s.runs[q].held[i] in s.runs[q].held;
  }

  function SumHeld(runs: seq<Run>): nat {
    if runs == [] then 0 else SumHeld(runs[..|runs| - 1]) + |runs[|runs| - 1].held|
  }

  /** Workers a run has been told to start: its slots, or one if it found none. */
  function Workers(run: Run): nat {
    if run.phase.Granted? then Max(1, |run.held|) else 0
  }

  function SumWorkers(runs: seq<Run>): nat {
    if runs == [] then 0 else SumWorkers(runs[..|runs| - 1]) + Workers(runs[|runs| - 1])
  }

  function FloorRuns(runs: seq<Run>): nat {
    if runs == [] then 0
    else FloorRuns(runs[..|runs| - 1]) + if runs[|runs| - 1].phase.Granted? && runs[|runs| - 1].held == [] then 1 else 0
  }

  lemma {:induction false} WorkersAreSlotsOrFloor(runs: seq<Run>)
    ensures SumWorkers(runs) <= SumHeld(runs) + FloorRuns(runs)
  {
    if runs == [] {
    } else {
      WorkersAreSlotsOrFloor(runs[..|runs| - 1]);
    }
  }

  /** The slots the table gives to the first n runs. */
  ghost function OwnedBelow(s: State, n: nat): set<nat> {
    set k | k in s.locks && s.locks[k] < n
  }

  lemma DistinctCount(xs: seq<nat>, elems: set<nat>)
    requires Increasing(xs)
    requires forall x :: x in xs <==> x in elems
    ensures |xs| == |elems|
  {
    if xs == [] {
      assert elems == {};
    } else {
      var x := xs[|xs| - 1];
      assert xs == xs[..|xs| - 1] + [x];
      DistinctCount(xs[..|xs| - 1], elems - {x});
    }
  }

  ghost function OwnedBy(s: State, r: nat): set<nat> {
    set k | k in s.locks && s.locks[k] == r
  }

  lemma HeldIsOwned(capacity: nat, s: State, r: nat)
    requires Agree(capacity, s) && r < |s.runs|
    ensures forall k: nat :: k in s.runs[r].held <==> k in OwnedBy(s, r)
  {
    forall k: nat ensures k in s.runs[r].held <==> k in OwnedBy(s, r) {
      if k in OwnedBy(s, r) { assert k in s.runs[s.locks[k]].held; }
    }
  }

  lemma HeldCountsOwn(capacity: nat, s: State, r: nat)
    requires Agree(capacity, s) && r < |s.runs| && RunOk(s, r)
    ensures |s.runs[r].held| == |OwnedBy(s, r)|
  {
    HeldIncreases(s, r);
    HeldIsOwned(capacity, s, r);
    DistinctCount(s.runs[r].held, OwnedBy(s, r));
  }

  lemma OwnedOneMore(s: State, n: nat)
    ensures |OwnedBelow(s, n + 1)| == |OwnedBelow(s, n)| + |OwnedBy(s, n)|
  {
    assert OwnedBelow(s, n + 1) == OwnedBelow(s, n) + OwnedBy(s, n);
  }

  lemma {:induction false} HeldCountsLocks(capacity: nat, s: State, n: nat)
    requires Inv(capacity, s) && n <= |s.runs|
    ensures SumHeld(s.runs[..n]) == |OwnedBelow(s, n)|
  {
    if n == 0 {
      assert OwnedBelow(s, 0) == {};
    } else {
      HeldCountsLocks(capacity, s, n - 1);
      assert s.runs[..n][..n - 1] == s.runs[..n - 1];
      HeldCountsOwn(capacity, s, n - 1);
      OwnedOneMore(s, n - 1);
    }
  }

  lemma {:induction false} SubsetSize(a: set<nat>, b: set<nat>)
    requires a <= b
    ensures |a| <= |b|
    decreases a
  {
    if a == {} {
    } else {
      var x :| x in a;
      SubsetSize(a - {x}, b - {x});
    }
  }

  ghost function Range(n: nat): (r: set<nat>)
    ensures forall k: nat :: k in r <==> k < n
    ensures |r| == n
  {
    if n == 0 then {} else Range(n - 1) + {n - 1}
  }

  /** The slots all runs hold together are exactly the locked ones, never more than the capacity; and
      the workers granted exceed the capacity by at most one for each run at the zero-slot floor. */
  lemma NeverOversubscribed(capacity: nat, es: seq<Event>)
    ensures var s := After(capacity, es);
            && SumHeld(s.runs) == |s.locks| <= capacity
            && SumWorkers(s.runs) <= capacity + FloorRuns(s.runs)
  {
    var s := After(capacity, es);
    Reachable(capacity, es);
    HeldCountsLocks(capacity, s, |s.runs|);
    assert s.runs[..|s.runs|] == s.runs;
    assert OwnedBelow(s, |s.runs|) == s.locks.Keys;
    SubsetSize(s.locks.Keys, Range(capacity));
    WorkersAreSlotsOrFloor(s.runs);
  }

  /** With the shared range a host computes, all locked slots together fit every constant memory
      reading that is known, unless the range is the single-slot floor. */
  lemma LockedSlotsFitMemory(host: Host, es: seq<Event>)
    requires Capacity(host) > 1
    ensures var locked := |After(Capacity(host), es).locks|;
            && locked <= Cores(host)
            && (host.totalMib >= 1024 ==> locked * 2048 <= host.totalMib)
            && (host.cgroupMib > 0 ==> locked * 2048 <= host.cgroupMib)
  {
    NeverOversubscribed(Capacity(host), es);
    CapacityFitsStaticMemory(host, Capacity(host));
    var locked := |After(Capacity(host), es).locks|;
    if locked > 0 { CapacityFitsStaticMemory(host, locked); }
  }

  /** No lock is taken over and none is lost: a locked slot stays with its owner until the owner gives it back
      or ends, and a free one is locked only by a sweeping run, for itself. In particular a claim, whether a
      run's first or a repeated one, changes no lock. */
  lemma NoStealing(capacity: nat, es: seq<Event>, e: Event, k: nat)
    ensures var s, t := After(capacity, es), After(capacity, es + [e]);
            && (k in s.locks ==>
                  || (k in t.locks && t.locks[k] == s.locks[k])
                  || e == Release(s.locks[k]) || e == Exit(s.locks[k]))
            && (k !in s.locks && k in t.locks ==> e == Probe(t.locks[k]) && Has(s, t.locks[k], {Sweeping}))
  {
    var s := After(capacity, es);
    Reachable(capacity, es);
    assert (es + [e])[..|es|] == es;
    if e.Release? && Has(s, e.run, {Granted, Releasing}) && s.runs[e.run].held != [] {
      var held := s.runs[e.run].held;
      assert held[|held| - 1] in held;
    }
  }

  /** t has the locks of s except those of run r. */
  ghost predicate FreedOf(s: State, t: State, r: nat)
    requires r < |s.runs|
  {
    && (forall k :: k in t.locks <==> k in s.locks && k !in s.runs[r].held)
    && (forall k | k in t.locks :: t.locks[k] == s.locks[k] != r)
  }

  lemma OwnedIsHeld(capacity: nat, s: State, r: nat, k: nat)
    requires Agree(capacity, s) && r < |s.runs|
    ensures k in s.runs[r].held <==> k in s.locks && s.locks[k] == r
  {
    if k in s.locks { assert k in s.runs[s.locks[k]].held; }
  }

  lemma DeathFrees(capacity: nat, s: State, r: nat)
    requires Agree(capacity, s) && r < |s.runs|
    ensures FreedOf(s, Die(s, r), r)
    ensures s.runs[r].held == [] ==> FreedOf(s, s, r)
  {
    forall k: nat ensures k in s.runs[r].held <==> k in s.locks && s.locks[k] == r { OwnedIsHeld(capacity, s, r, k); }
  }

  /** A run that ends, however it ends, frees exactly its own slots. */
  lemma ExitReturnsCapacity(capacity: nat, es: seq<Event>, r: nat)
    requires r < |After(capacity, es).runs|
    ensures var s, t := After(capacity, es), After(capacity, es + [Exit(r)]);
            && r < |t.runs| && t.runs[r].phase.Gone?
            && FreedOf(s, t, r)
  {
    var s := After(capacity, es);
    Reachable(capacity, es);
    assert (es + [Exit(r)])[..|es|] == es;
    assert RunOk(s, r);
    DeathFrees(capacity, s, r);
  }

  // ---- Claims as sweeps ----

  /** Every claim, however its turns interleave with other runs, is the sweep of SlotSweep over the
      answers it met, and while the run keeps its slots they are that sweep's. */
  lemma EveryClaimIsASweep(capacity: nat, es: seq<Event>, j: nat, rest: seq<Answer>)
    requires j < |After(capacity, es).claims|
    requires |After(capacity, es).claims[j].seen| + |rest| >= capacity
    ensures var c := After(capacity, es).claims[j];
            && (c.status.Finished? ==> StopsAt(c.seen + rest, capacity, c.cap, |c.seen|))
            && (c.status.CannotOpen? ==> StopsAt(c.seen + [NoFile] + rest, capacity, c.cap, |c.seen|))
            && c.run < |After(capacity, es).runs|
            && (After(capacity, es).runs[c.run].phase.Granted? && After(capacity, es).runs[c.run].claim == j ==>
                  After(capacity, es).runs[c.run].held == Taken(c.seen))
  {
    var s := After(capacity, es);
    Reachable(capacity, es);
    assert ClaimOk(capacity, s, j);
    var c := s.claims[j];
    assert RunOk(s, c.run);
    assert forall k: nat | k <= |c.seen| :: (c.seen + rest)[..k] == c.seen[..k] == (c.seen + [NoFile] + rest)[..k];
    assert c.seen[..|c.seen|] == c.seen;
  }

  /** So the class and the protocol agree: whatever sweep WorkerSlots.Claim makes of the same answers, it ends
      where the claim did and takes the same slots. */
  lemma ClaimMatchesProtocol(capacity: nat, es: seq<Event>, j: nat, rest: seq<Answer>, n: nat)
    requires j < |After(capacity, es).claims| && After(capacity, es).claims[j].status.Finished?
    requires |After(capacity, es).claims[j].seen| + |rest| >= capacity
    requires var c := After(capacity, es).claims[j]; StopsAt(c.seen + rest, capacity, c.cap, n)
    ensures var c := After(capacity, es).claims[j]; n == |c.seen| && Taken((c.seen + rest)[..n]) == Taken(c.seen)
  {
    var c := After(capacity, es).claims[j];
    EveryClaimIsASweep(capacity, es, j, rest);
    StopIsUnique(c.seen + rest, capacity, c.cap, n, |c.seen|);
    assert (c.seen + rest)[..|c.seen|] == c.seen;
  }

  /** Run r probed slot k in its claim j, at some moment of the history when o had it locked. */
  ghost predicate SawLocked(capacity: nat, es: seq<Event>, r: nat, j: nat, k: nat, o: nat) {
    exists m: nat :: SawLockedAt(capacity, es, r, j, k, o, m)
  }

  ghost predicate SawLockedAt(capacity: nat, es: seq<Event>, r: nat, j: nat, k: nat, o: nat, m: nat) {
    && m < |es| && es[m] == Probe(r)
    && var s := After(capacity, es[..m]);
       && Has(s, r, {Sweeping}) && s.runs[r].claim == j < |s.claims| && |s.claims[j].seen| == k
       && k in s.locks && s.locks[k] == o
  }

  lemma SawLockedStays(capacity: nat, es: seq<Event>, e: Event, r: nat, j: nat, k: nat, o: nat)
    requires SawLocked(capacity, es, r, j, k, o)
    ensures SawLocked(capacity, es + [e], r, j, k, o)
  {
    var m: nat :| SawLockedAt(capacity, es, r, j, k, o, m);
    assert (es + [e])[..m] == es[..m];
    assert SawLockedAt(capacity, es + [e], r, j, k, o, m);
  }

  lemma NewAnswerWasLocked(capacity: nat, es: seq<Event>, e: Event, j: nat, k: nat)
    requires var s, t := After(capacity, es), Step(capacity, After(capacity, es), e);
             && j < |t.claims| && k < |t.claims[j].seen| && t.claims[j].seen[k].Busy?
             && !(j < |s.claims| && k < |s.claims[j].seen|)
    ensures var c := Step(capacity, After(capacity, es), e).claims[j];
            SawLocked(capacity, es + [e], c.run, j, k, c.seen[k].owner)
  {
    var s, c := After(capacity, es), Step(capacity, After(capacity, es), e).claims[j];
    Reachable(capacity, es);
    assert RunOk(s, e.run);
    assert (es + [e])[..|es|] == es;
    assert SawLockedAt(capacity, es + [e], c.run, j, k, c.seen[k].owner, |es|);
  }

  lemma {:induction false} BusyWasLocked(capacity: nat, es: seq<Event>, j: nat, k: nat)
    requires j < |After(capacity, es).claims| && k < |After(capacity, es).claims[j].seen|
    requires After(capacity, es).claims[j].seen[k].Busy?
    ensures var c := After(capacity, es).claims[j];
            SawLocked(capacity, es, c.run, j, k, c.seen[k].owner)
  {
    if es == [] {
      assert false;
    } else {
      var before, e := es[..|es| - 1], es[|es| - 1];
      var s, c := After(capacity, before), After(capacity, es).claims[j];
      assert es == before + [e];
      StepKeepsLog(capacity, s, e);
      if j < |s.claims| && k < |s.claims[j].seen| {
        assert s.claims[j].seen <= c.seen;
        BusyWasLocked(capacity, before, j, k);
        SawLockedStays(capacity, before, e, c.run, j, k, c.seen[k].owner);
      } else {
        NewAnswerWasLocked(capacity, before, e, j, k);
      }
    }
  }

  /** A claim that swept to its end below its cap lacks only slots that ANOTHER run had locked at the
      very moment they were probed. */
  lemma ShortfallIsContention(capacity: nat, es: seq<Event>, j: nat, k: nat)
    requires j < |After(capacity, es).claims| && k < capacity
    requires var c := After(capacity, es).claims[j];
             c.status.Finished? && |Taken(c.seen)| < c.cap && k !in Taken(c.seen)
    ensures var c := After(capacity, es).claims[j];
            exists o: nat :: o != c.run && SawLocked(capacity, es, c.run, j, k, o)
  {
    var s := After(capacity, es);
    var c := s.claims[j];
    Reachable(capacity, es);
    assert ClaimOk(capacity, s, j);
    TakenHas(c.seen, k);
    assert BusyOk(s, j);
    BusyWasLocked(capacity, es, j, k);
  }
}
