/** How many turns a sweep takes, whatever other runs do in between. */
module SlotTurns {
  import opened SlotProtocol

  /** The turns of its own that claim j has had. */
  function Turns(capacity: nat, es: seq<Event>, j: nat): nat {
    if es == [] then 0
    else
      var s, e := After(capacity, es[..|es| - 1]), es[|es| - 1];
      Turns(capacity, es[..|es| - 1], j)
      + if e.Probe? && Has(s, e.run, {Sweeping}) && s.runs[e.run].claim == j then 1 else 0
  }

  /** Each turn of a sweep, whatever other runs do between turns, ends it or adds one answer to its log. */
  lemma ProbeMakesProgress(capacity: nat, es: seq<Event>, r: nat)
    requires Has(After(capacity, es), r, {Sweeping})
    ensures var s, t := After(capacity, es), After(capacity, es + [Probe(r)]);
            var j := s.runs[r].claim;
            && j < |s.claims| && |s.claims[j].seen| <= capacity
            && (|| (t.runs[r].phase.Granted? && t.claims[j] == s.claims[j].(status := Finished))
                || (t.runs[r].phase.Sweeping? && |t.claims[j].seen| == |s.claims[j].seen| + 1))
  {
    var s := After(capacity, es);
    Reachable(capacity, es);
    assert (es + [Probe(r)])[..|es|] == es;
    assert RunOk(s, r);
    assert ClaimOk(capacity, s, s.runs[r].claim);
  }

  /** The turns a sweep has had are the answers on its log, and one more when it has swept to its end. */
  lemma {:induction false} TurnsAreAnswers(capacity: nat, es: seq<Event>, j: nat)
    ensures var claims := After(capacity, es).claims;
            Turns(capacity, es, j) ==
            if j < |claims| then |claims[j].seen| + (if claims[j].status.Finished? then 1 else 0) else 0
  {
    if es == [] {
    } else {
      var before, e := es[..|es| - 1], es[|es| - 1];
      TurnsAreAnswers(capacity, before, j);
      Reachable(capacity, before);
      TurnCounts(capacity, After(capacity, before), e, j);
    }
  }

  lemma TurnCounts(capacity: nat, s: State, e: Event, j: nat)
    requires Inv(capacity, s)
    ensures var t := Step(capacity, s, e);
            j < |t.claims| ==>
              |t.claims[j].seen| + (if t.claims[j].status.Finished? then 1 else 0) ==
              (if j < |s.claims| then |s.claims[j].seen| + (if s.claims[j].status.Finished? then 1 else 0) else 0)
              + if e.Probe? && Has(s, e.run, {Sweeping}) && s.runs[e.run].claim == j then 1 else 0
    ensures j >= |Step(capacity, s, e).claims| ==>
              !(e.Probe? && Has(s, e.run, {Sweeping}) && s.runs[e.run].claim == j)
  {
    if (e.Probe? || e.ProbeNoFile?) && Has(s, e.run, {Sweeping}) { assert RunOk(s, e.run); }
  }

  /** Whatever other runs do in between, a sweep is over after at most capacity + 1 turns of its own: while
      it is under way it has had no more than capacity. */
  lemma SweepEndsInTime(capacity: nat, es: seq<Event>, j: nat)
    ensures Turns(capacity, es, j) <= capacity + 1
    ensures j < |After(capacity, es).claims| && !After(capacity, es).claims[j].status.Finished? ==>
              Turns(capacity, es, j) <= capacity
  {
    TurnsAreAnswers(capacity, es, j);
    Reachable(capacity, es);
    if j < |After(capacity, es).claims| { assert ClaimOk(capacity, After(capacity, es), j); }
  }
}
