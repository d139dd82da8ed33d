/** That claims are served: a run that asks gets a sweep with the cap it asked for, and what the sweep yields;
    and that it gives back all it took. */
module SlotServed {
  import opened WorkerBudget
  import opened SlotSweep
  import opened SlotProtocol
  import opened SlotConservation

  /** Run r may start a claim: it is idle, or was granted workers without a slot. */
  ghost predicate MayClaim(s: State, r: nat) {
    Has(s, r, {Idle, Granted}) && s.runs[r].held == []
  }

  /** The number of turns that r gets. */
  function ProbesOf(more: seq<Event>, r: nat): nat {
    if more == [] then 0
    else ProbesOf(more[..|more| - 1], r) + if more[|more| - 1] == Probe(r) then 1 else 0
  }

  /** r neither ends nor fails to open a slot file. */
  ghost predicate Undisturbed(more: seq<Event>, r: nat) {
    forall i | 0 <= i < |more| :: more[i] != Exit(r) && more[i] != ProbeNoFile(r)
  }

  ghost predicate OnlyProbes(more: seq<Event>, r: nat) {
    forall i | 0 <= i < |more| :: more[i] == Probe(r) || (!more[i].Spawn? ==> more[i].run != r)
  }

  // ---- Events of other runs ----

  ghost predicate Concerns(e: Event, r: nat) {
    !e.Spawn? && e.run == r
  }

  lemma OthersSpare(capacity: nat, s: State, e: Event, r: nat, j: nat)
    requires Inv(capacity, s) && !Concerns(e, r) && r < |s.runs| && j < |s.claims| && s.claims[j].run == r
    ensures var t := Step(capacity, s, e);
            r < |t.runs| && t.runs[r] == s.runs[r] && j < |t.claims| && t.claims[j] == s.claims[j]
  {
    if !e.Spawn? && e.run < |s.runs| { assert RunOk(s, e.run); }
  }

  /** A finished claim stays as it is. */
  lemma FinishedStays(capacity: nat, s: State, e: Event, j: nat)
    requires Inv(capacity, s) && j < |s.claims| && s.claims[j].status.Finished?
    ensures var t := Step(capacity, s, e); j < |t.claims| && t.claims[j] == s.claims[j]
  {
    if !e.Spawn? && e.run < |s.runs| { assert RunOk(s, e.run); }
  }

  // ---- A claim on its way ----

  /** Claim j is r's, with this cap, and is finished, or r is sweeping on it and has had n answers at least. */
  ghost predicate UnderWay(s: State, r: nat, j: nat, cap: int, n: nat) {
    && r < |s.runs| && j < |s.claims| && s.claims[j].run == r && s.claims[j].cap == cap
    && (|| s.claims[j].status.Finished?
        || (s.runs[r].phase.Sweeping? && s.runs[r].claim == j && |s.claims[j].seen| >= n))
  }

  lemma ClaimStarts(capacity: nat, es: seq<Event>, r: nat, cap: int)
    requires MayClaim(After(capacity, es), r)
    ensures var s, t := After(capacity, es), After(capacity, es + [StartClaim(r, cap)]);
            UnderWay(t, r, |s.claims|, cap, 0) && t.locks == s.locks && t.runs[r] == Run(Sweeping, [], |s.claims|)
  {
    assert (es + [StartClaim(r, cap)])[..|es|] == es;
  }

  lemma StepUnderWay(capacity: nat, s: State, e: Event, r: nat, j: nat, cap: int, n: nat)
    requires Inv(capacity, s) && UnderWay(s, r, j, cap, n) && e != Exit(r) && e != ProbeNoFile(r)
    ensures UnderWay(Step(capacity, s, e), r, j, cap, n + if e == Probe(r) then 1 else 0)
  {
    if s.claims[j].status.Finished? {
      FinishedStays(capacity, s, e, j);
      if !Concerns(e, r) { OthersSpare(capacity, s, e, r, j); }
    } else if !Concerns(e, r) {
      OthersSpare(capacity, s, e, r, j);
    } else {
      assert RunOk(s, r);
    }
  }

  lemma {:induction false} ManyUnderWay(capacity: nat, es: seq<Event>, more: seq<Event>, r: nat, j: nat, cap: int)
    requires UnderWay(After(capacity, es), r, j, cap, 0) && Undisturbed(more, r)
    ensures UnderWay(After(capacity, es + more), r, j, cap, ProbesOf(more, r))
  {
    if more == [] {
      assert es + more == es;
    } else {
      var front, e := more[..|more| - 1], more[|more| - 1];
      ManyUnderWay(capacity, es, front, r, j, cap);
      Reachable(capacity, es + front);
      OneMoreEvent(capacity, es, more);
      StepUnderWay(capacity, After(capacity, es + front), e, r, j, cap, ProbesOf(front, r));
    }
  }

  /** Every claim is served. When a run that may claim asks for slots, and then gets capacity + 1 turns, in
      whatever order with the events of all other runs, the log has a claim of its own, of exactly the cap it
      asked for, swept to its end; unless it ended or could not open a slot file. */
  lemma ClaimIsServed(capacity: nat, es: seq<Event>, r: nat, cap: int, more: seq<Event>)
    requires MayClaim(After(capacity, es), r)
    requires Undisturbed(more, r) && ProbesOf(more, r) > capacity
    ensures var s, t := After(capacity, es), After(capacity, es + [StartClaim(r, cap)] + more);
            var j := |s.claims|;
            j < |t.claims| && t.claims[j].run == r && t.claims[j].cap == cap && t.claims[j].status.Finished?
  {
    var started := es + [StartClaim(r, cap)];
    var j := |After(capacity, es).claims|;
    ClaimStarts(capacity, es, r, cap);
    ManyUnderWay(capacity, started, more, r, j, cap);
    Reachable(capacity, started + more);
    assert ClaimOk(capacity, After(capacity, started + more), j);
  }

  // ---- The run that asked ----

  /** r is at claim j: sweeping, or granted what the claim took. */
  ghost predicate AtClaim(s: State, r: nat, j: nat) {
    && r < |s.runs| && s.runs[r].claim == j < |s.claims|
    && (s.runs[r].phase.Sweeping? || (s.runs[r].phase.Granted? && s.claims[j].status.Finished?))
  }

  lemma StepAtClaim(capacity: nat, s: State, e: Event, r: nat, j: nat)
    requires Inv(capacity, s) && AtClaim(s, r, j) && (e == Probe(r) || !Concerns(e, r))
    ensures AtClaim(Step(capacity, s, e), r, j)
  {
    assert RunOk(s, r);
    if !Concerns(e, r) { OthersSpare(capacity, s, e, r, j); }
  }

  lemma {:induction false} StaysAtClaim(capacity: nat, es: seq<Event>, more: seq<Event>, r: nat, j: nat)
    requires AtClaim(After(capacity, es), r, j) && OnlyProbes(more, r)
    ensures AtClaim(After(capacity, es + more), r, j)
  {
    if more == [] {
      assert es + more == es;
    } else {
      var front := more[..|more| - 1];
      StaysAtClaim(capacity, es, front, r, j);
      Reachable(capacity, es + front);
      OneMoreEvent(capacity, es, more);
      StepAtClaim(capacity, After(capacity, es + front), more[|more| - 1], r, j);
    }
  }

  /** And the run itself, if it does nothing else meanwhile, is granted its workers on that claim: the slots
      the claim took are its own. */
  lemma RunIsGranted(capacity: nat, es: seq<Event>, r: nat, cap: int, more: seq<Event>)
    requires MayClaim(After(capacity, es), r)
    requires OnlyProbes(more, r) && ProbesOf(more, r) > capacity
    ensures var s, t := After(capacity, es), After(capacity, es + [StartClaim(r, cap)] + more);
            var j := |s.claims|;
            && r < |t.runs| && t.runs[r].phase.Granted? && t.runs[r].claim == j < |t.claims|
            && t.claims[j].cap == cap && t.claims[j].status.Finished?
            && t.runs[r].held == Taken(t.claims[j].seen)
  {
    var started := es + [StartClaim(r, cap)];
    var t := After(capacity, started + more);
    ClaimStarts(capacity, es, r, cap);
    ClaimIsServed(capacity, es, r, cap, more);
    StaysAtClaim(capacity, started, more, r, |After(capacity, es).claims|);
    Reachable(capacity, started + more);
    assert RunOk(t, r);
  }

  // ---- One event again and again ----

  function Again(e: Event, n: nat): (es: seq<Event>)
    ensures |es| == n
  {
    if n == 0 then [] else Again(e, n - 1) + [e]
  }

  function AfterAgain(capacity: nat, s: State, e: Event, n: nat): State {
    if n == 0 then s else Step(capacity, AfterAgain(capacity, s, e, n - 1), e)
  }

  lemma {:induction false} AgainAt(e: Event, n: nat, i: nat)
    requires i < n
    ensures Again(e, n)[i] == e
  {
    if i == n - 1 {
    } else {
      AgainAt(e, n - 1, i);
    }
  }

  lemma {:induction false} AgainProbes(r: nat, n: nat)
    ensures ProbesOf(Again(Probe(r), n), r) == n
  {
    if n == 0 {
    } else {
      AgainProbes(r, n - 1);
      assert Again(Probe(r), n)[..n - 1] == Again(Probe(r), n - 1);
    }
  }

  lemma {:induction false} AgainIsAfter(capacity: nat, es: seq<Event>, e: Event, n: nat)
    ensures AfterAgain(capacity, After(capacity, es), e, n) == After(capacity, es + Again(e, n))
  {
    if n == 0 {
      assert es + Again(e, n) == es;
    } else {
      AgainIsAfter(capacity, es, e, n - 1);
      OneMoreEvent(capacity, es, Again(e, n));
      assert Again(e, n)[..n - 1] == Again(e, n - 1);
    }
  }

  // ---- With nobody else acting ----

  /** The other runs hold what they held. */
  ghost predicate OnlyRun(s: State, t: State, r: nat) {
    |s.runs| == |t.runs| && forall q | 0 <= q < |s.runs| && q != r :: t.runs[q].held == s.runs[q].held
  }

  lemma {:induction false} HeldDiffers(a: seq<Run>, b: seq<Run>, r: nat)
    requires |a| == |b| && forall q | 0 <= q < |a| && q != r :: b[q].held == a[q].held
    ensures r >= |a| ==> SumHeld(b) == SumHeld(a)
    ensures r < |a| ==> SumHeld(b) - |b[r].held| == SumHeld(a) - |a[r].held|
  {
    if a == [] {
    } else {
      HeldDiffers(a[..|a| - 1], b[..|b| - 1], r);
    }
  }

  lemma TurnSparesOthers(capacity: nat, s: State, r: nat)
    ensures OnlyRun(s, Step(capacity, s, Probe(r)), r)
  {
  }

  lemma OnlyRunTwice(s: State, t: State, u: State, r: nat)
    requires OnlyRun(s, t, r) && OnlyRun(t, u, r)
    ensures OnlyRun(s, u, r)
  {
  }

  lemma {:induction false} TurnsSpareOthers(capacity: nat, s: State, r: nat, n: nat)
    ensures OnlyRun(s, AfterAgain(capacity, s, Probe(r), n), r)
  {
    if n == 0 {
    } else {
      var t := AfterAgain(capacity, s, Probe(r), n - 1);
      TurnsSpareOthers(capacity, s, r, n - 1);
      TurnSparesOthers(capacity, t, r);
      OnlyRunTwice(s, t, Step(capacity, t, Probe(r)), r);
    }
  }

  /** The state in which r has asked for slots and had capacity + 1 turns, with nobody else acting. */
  function AfterClaim(capacity: nat, s: State, r: nat, cap: int): State {
    AfterAgain(capacity, Step(capacity, s, StartClaim(r, cap)), Probe(r), capacity + 1)
  }

  /** The events of that. */
  function ClaimAlone(capacity: nat, r: nat, cap: int): seq<Event> {
    [StartClaim(r, cap)] + Again(Probe(r), capacity + 1)
  }

  lemma ClaimAloneIs(capacity: nat, es: seq<Event>, r: nat, cap: int)
    ensures AfterClaim(capacity, After(capacity, es), r, cap) ==
            After(capacity, es + [StartClaim(r, cap)] + Again(Probe(r), capacity + 1))
    ensures AfterClaim(capacity, After(capacity, es), r, cap) == After(capacity, es + ClaimAlone(capacity, r, cap))
  {
    var started, turns := es + [StartClaim(r, cap)], Again(Probe(r), capacity + 1);
    assert started[..|es|] == es;
    AgainIsAfter(capacity, started, Probe(r), capacity + 1);
    assert es + ClaimAlone(capacity, r, cap) == started + turns;
  }

  lemma ClaimAloneReturnsNothing(capacity: nat, r: nat, cap: int)
    ensures NothingReturned(ClaimAlone(capacity, r, cap))
  {
    var turns := Again(Probe(r), capacity + 1);
    forall i | 0 <= i < |turns| ensures turns[i] == Probe(r) { AgainAt(Probe(r), capacity + 1, i); }
  }

  /** t is the state after such a claim from s: r is granted workers on it. */
  ghost predicate GrantedAlone(s: State, t: State, r: nat, cap: int) {
    && r < |t.runs| && t.runs[r].phase.Granted? && t.runs[r].claim == |s.claims| < |t.claims|
    && t.claims[|s.claims|].cap == cap && t.claims[|s.claims|].status.Finished?
    && t.runs[r].held == Taken(t.claims[|s.claims|].seen)
  }

  lemma AloneIsGranted(capacity: nat, es: seq<Event>, r: nat, cap: int)
    requires MayClaim(After(capacity, es), r)
    ensures GrantedAlone(After(capacity, es), AfterClaim(capacity, After(capacity, es), r, cap), r, cap)
  {
    var turns := Again(Probe(r), capacity + 1);
    forall i | 0 <= i < |turns| ensures turns[i] == Probe(r) { AgainAt(Probe(r), capacity + 1, i); }
    AgainProbes(r, capacity + 1);
    RunIsGranted(capacity, es, r, cap, turns);
    ClaimAloneIs(capacity, es, r, cap);
  }

  /** The lock table grows by just what r holds. */
  lemma LocksAlone(capacity: nat, es: seq<Event>, r: nat, cap: int)
    requires MayClaim(After(capacity, es), r)
    ensures var s := After(capacity, es);
            var t := AfterClaim(capacity, s, r, cap);
            r < |t.runs| && |t.locks| == |s.locks| + |t.runs[r].held| <= capacity
  {
    var s := After(capacity, es);
    var started, t := Step(capacity, s, StartClaim(r, cap)), AfterClaim(capacity, s, r, cap);
    TurnsSpareOthers(capacity, started, r, capacity + 1);
    ClaimAloneIs(capacity, es, r, cap);
    NeverOversubscribed(capacity, es);
    NeverOversubscribed(capacity, es + ClaimAlone(capacity, r, cap));
    HeldDiffers(s.runs, t.runs, r);
  }

  lemma FullTable(capacity: nat, locks: map<nat, nat>)
    requires forall k: nat | k < capacity :: k in locks
    ensures |locks| >= capacity
  {
    SubsetSize(Range(capacity), locks.Keys);
  }

  /** Claim j took its cap, or the table is full. */
  ghost predicate CapOrFull(capacity: nat, t: State, j: nat) {
    && j < |t.claims|
    && (|Taken(t.claims[j].seen)| == Max(0, t.claims[j].cap) || |t.locks| >= capacity)
    && |Taken(t.claims[j].seen)| <= Max(0, t.claims[j].cap)
  }

  lemma TakenOrFull(capacity: nat, es: seq<Event>, more: seq<Event>, j: nat)
    requires NothingReturned(more)
    requires |After(capacity, es).claims| <= j < |After(capacity, es + more).claims|
    requires After(capacity, es + more).claims[j].status.Finished?
    ensures CapOrFull(capacity, After(capacity, es + more), j)
  {
    var t := After(capacity, es + more);
    FullOrServed(capacity, es, more);
    Reachable(capacity, es + more);
    assert ClaimOk(capacity, t, j);
    if |Taken(t.claims[j].seen)| != Max(0, t.claims[j].cap) {
      assert !Served(t, |After(capacity, es).claims|);
      FullTable(capacity, t.locks);
    }
  }

  lemma AloneTakenOrFull(capacity: nat, es: seq<Event>, r: nat, cap: int)
    requires var s := After(capacity, es); GrantedAlone(s, AfterClaim(capacity, s, r, cap), r, cap)
    ensures var s := After(capacity, es); CapOrFull(capacity, AfterClaim(capacity, s, r, cap), |s.claims|)
  {
    ClaimAloneIs(capacity, es, r, cap);
    ClaimAloneReturnsNothing(capacity, r, cap);
    TakenOrFull(capacity, es, ClaimAlone(capacity, r, cap), |After(capacity, es).claims|);
  }

  lemma AloneShare(capacity: nat, s: State, t: State, r: nat, cap: int)
    requires GrantedAlone(s, t, r, cap) && CapOrFull(capacity, t, |s.claims|)
    requires |t.locks| == |s.locks| + |t.runs[r].held| <= capacity
    ensures |s.locks| <= capacity && |t.runs[r].held| == Min(Max(0, cap), capacity - |s.locks|)
  {
  }

  /** Alone for capacity + 1 turns, a run that may claim is granted workers on a claim of the cap it asked for,
      and holds as many slots as that, or as many as nobody had locked, whichever is less: free slots are never
      refused. ClaimAloneIs says what history this is. */
  lemma AloneItGetsWhatIsFree(capacity: nat, es: seq<Event>, r: nat, cap: int)
    requires MayClaim(After(capacity, es), r)
    ensures var s := After(capacity, es);
            var t := AfterClaim(capacity, s, r, cap);
            && r < |t.runs| && t.runs[r].phase.Granted?
            && t.runs[r].claim == |s.claims| < |t.claims| && t.claims[|s.claims|].cap == cap
            && |s.locks| <= capacity
            && |t.runs[r].held| == Min(Max(0, cap), capacity - |s.locks|)
  {
    AloneIsGranted(capacity, es, r, cap);
    LocksAlone(capacity, es, r, cap);
    AloneTakenOrFull(capacity, es, r, cap);
    AloneShare(capacity, After(capacity, es), AfterClaim(capacity, After(capacity, es), r, cap), r, cap);
  }

  // ---- Giving back ----

  /** r has given back all but the first n slots of those it held in s, and no other lock has changed. */
  ghost predicate GivenBack(s: State, t: State, r: nat, n: nat) {
    && r < |s.runs| && r < |t.runs| && n <= |s.runs[r].held|
    && t.runs[r].held == s.runs[r].held[..n]
    && (t.runs[r].phase == s.runs[r].phase || t.runs[r].phase.Releasing?)
    && (forall k :: k in t.locks <==> k in s.locks && k !in s.runs[r].held[n..])
    && (forall k | k in t.locks :: t.locks[k] == s.locks[k])
  }

  lemma ReleaseGivesOne(s: State, t: State, r: nat, n: nat)
    requires GivenBack(s, t, r, n) && n > 0 && Has(t, r, {Granted, Releasing})
    requires Increasing(s.runs[r].held)
    ensures GivenBack(s, ReleaseOne(t, r), r, n - 1)
  {
    var held := s.runs[r].held;
    assert held[n - 1..] == [held[n - 1]] + held[n..];
    assert held[..n][..n - 1] == held[..n - 1] && held[..n][n - 1] == held[n - 1];
  }

  lemma StepGivesOne(capacity: nat, s: State, t: State, r: nat, n: nat)
    requires GivenBack(s, t, r, n) && n > 0 && Has(s, r, {Granted, Releasing}) && Increasing(s.runs[r].held)
    ensures GivenBack(s, Step(capacity, t, Release(r)), r, n - 1)
  {
    ReleaseGivesOne(s, t, r, n);
  }

  lemma GivenNothingBack(s: State, r: nat)
    requires r < |s.runs|
    ensures GivenBack(s, s, r, |s.runs[r].held|)
  {
  }

  lemma {:induction false} ReleasesGiveBack(capacity: nat, s: State, r: nat, n: nat)
    requires Has(s, r, {Granted, Releasing}) && n <= |s.runs[r].held| && Increasing(s.runs[r].held)
    ensures GivenBack(s, AfterAgain(capacity, s, Release(r), n), r, |s.runs[r].held| - n)
  {
    if n == 0 {
      GivenNothingBack(s, r);
    } else {
      ReleasesGiveBack(capacity, s, r, n - 1);
      StepGivesOne(capacity, s, AfterAgain(capacity, s, Release(r), n - 1), r, |s.runs[r].held| - (n - 1));
    }
  }

  lemma AllGivenBack(capacity: nat, s: State, t: State, r: nat)
    requires Agree(capacity, s) && GivenBack(s, t, r, 0)
    ensures t.runs[r].held == [] && FreedOf(s, t, r)
  {
    assert s.runs[r].held[0..] == s.runs[r].held;
    forall k: nat ensures k in s.runs[r].held <==> k in s.locks && s.locks[k] == r { OwnedIsHeld(capacity, s, r, k); }
  }

  /** One release for each slot held: the run holds nothing, exactly its own slots are unlocked, and with one
      turn more it is idle. */
  lemma ReleaseReturnsAll(capacity: nat, es: seq<Event>, r: nat)
    requires Has(After(capacity, es), r, {Granted, Releasing})
    ensures var s := After(capacity, es);
            var t := After(capacity, es + Again(Release(r), |s.runs[r].held|));
            && r < |t.runs| && t.runs[r].held == []
            && FreedOf(s, t, r)
            && Step(capacity, t, Release(r)) == t.(runs := t.runs[r := t.runs[r].(phase := Idle)])
  {
    var s := After(capacity, es);
    var n := |s.runs[r].held|;
    Reachable(capacity, es);
    assert RunOk(s, r);
    HeldIncreases(s, r);
    ReleasesGiveBack(capacity, s, r, n);
    AgainIsAfter(capacity, es, Release(r), n);
    AllGivenBack(capacity, s, AfterAgain(capacity, s, Release(r), n), r);
  }

  // ---- What else may happen to a run ----

  /** A process starts idle and empty-handed. */
  lemma SpawnedIsIdle(capacity: nat, es: seq<Event>)
    ensures var s, t := After(capacity, es), After(capacity, es + [Spawn]);
            |t.runs| == |s.runs| + 1 && MayClaim(t, |s.runs|) && t.locks == s.locks && t.claims == s.claims
  {
    assert (es + [Spawn])[..|es|] == es;
  }

  /** A sweep that cannot open the next slot file ends there, with the slots it has. */
  lemma OpenFailureGrants(capacity: nat, es: seq<Event>, r: nat)
    requires var s := After(capacity, es); Has(s, r, {Sweeping})
    requires var s := After(capacity, es);
             s.runs[r].claim < |s.claims| && |s.claims[s.runs[r].claim].seen| < capacity
             && |s.runs[r].held| < s.claims[s.runs[r].claim].cap
    ensures var s, t := After(capacity, es), After(capacity, es + [ProbeNoFile(r)]);
            && t.locks == s.locks && t.runs[r] == s.runs[r].(phase := Granted)
            && s.runs[r].claim < |t.claims| && t.claims[s.runs[r].claim].status == CannotOpen
  {
    assert (es + [ProbeNoFile(r)])[..|es|] == es;
  }
}
