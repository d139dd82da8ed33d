/** One run's sweep over the slot files, and the list of slots a process holds. */
module SlotSweep {
  import opened WorkerBudget

  /** What a sweep meets at one slot: no file can be opened, another run holds the lock, or it is free. */
  datatype Answer = NoFile | Busy(owner: nat) | Free

  /** The slots a sweep has locked, given the answers of slots 0, 1, 2, ... so far. */
  function Taken(seen: seq<Answer>): seq<nat> {
    if seen == [] then []
    else
      var before := Taken(seen[..|seen| - 1]);
      if seen[|seen| - 1].Free? then before + [|seen| - 1] else before
  }

  lemma {:induction false} TakenHas(seen: seq<Answer>, k: nat)
    ensures k in Taken(seen) <==> k < |seen| && seen[k].Free?
  {
    if seen == [] {
    } else {
      TakenHas(seen[..|seen| - 1], k);
    }
  }

  lemma {:induction false} TakenAscends(seen: seq<Answer>, i: nat, j: nat)
    requires i < j < |Taken(seen)|
    ensures Taken(seen)[i] < Taken(seen)[j]
  {
    var before := Taken(seen[..|seen| - 1]);
    if j < |before| {
      TakenAscends(seen[..|seen| - 1], i, j);
    } else {
      assert before[i] in before;
      TakenHas(seen[..|seen| - 1], before[i]);
    }
  }

  /** They are the slots that were free, each once, in ascending order. */
  lemma TakenIsFree(seen: seq<Answer>)
    ensures forall k: nat :: k in Taken(seen) <==> k < |seen| && seen[k].Free?
    ensures forall i, j | 0 <= i < j < |Taken(seen)| :: Taken(seen)[i] < Taken(seen)[j]
  {
    forall k: nat ensures k in Taken(seen) <==> k < |seen| && seen[k].Free? { TakenHas(seen, k); }
    forall i, j | 0 <= i < j < |Taken(seen)| ensures Taken(seen)[i] < Taken(seen)[j] { TakenAscends(seen, i, j); }
  }

  lemma TakenStep(seen: seq<Answer>, a: Answer)
    ensures Taken(seen + [a]) == if a.Free? then Taken(seen) + [|seen|] else Taken(seen)
  {
    assert (seen + [a])[..|seen|] == seen;
  }

  function Refused(seen: seq<Answer>): nat {
    if seen == [] then 0
    else Refused(seen[..|seen| - 1]) + if seen[|seen| - 1].Free? then 0 else 1
  }

  lemma {:induction false} TakenAndRefused(seen: seq<Answer>)
    ensures |Taken(seen)| + Refused(seen) == |seen|
  {
    if seen == [] {
    } else {
      TakenAndRefused(seen[..|seen| - 1]);
    }
  }

  /** Having been through slots 0..k, the sweep goes on to lock or refuse slot k. */
  ghost predicate Continues(answers: seq<Answer>, capacity: int, cap: int, k: nat)
    requires k < |answers|
  {
    k < capacity && |Taken(answers[..k])| < cap && !answers[k].NoFile?
  }

  /** The sweep asks about slots 0..n and then stops: the range or the cap is used up, or the next
      slot file cannot be opened. */
  ghost predicate StopsAt(answers: seq<Answer>, capacity: int, cap: int, n: nat) {
    && n <= |answers|
    && (forall k: nat | k < n :: Continues(answers, capacity, cap, k))
    && (if n < |answers| then !Continues(answers, capacity, cap, n) else capacity <= n)
  }

  /** The stopping point is a function of the answers, so the sweep's outcome is one too. */
  lemma StopIsUnique(answers: seq<Answer>, capacity: int, cap: int, m: nat, n: nat)
    requires StopsAt(answers, capacity, cap, m) && StopsAt(answers, capacity, cap, n)
    ensures m == n
  {
  }

  /** Greedy and no more: a sweep that opened every file it asked for ends with its cap, or with every
      slot of the range that no other run held when it was probed. */
  lemma SweepIsGreedy(answers: seq<Answer>, capacity: nat, cap: nat, n: nat)
    requires StopsAt(answers, capacity, cap, n) && |answers| >= capacity
    requires forall k | 0 <= k < capacity :: !answers[k].NoFile?
    ensures |Taken(answers[..n])| <= cap
    ensures |Taken(answers[..n])| < cap ==>
              && |Taken(answers[..n])| == capacity - Refused(answers[..n])
              && forall k: nat | k < capacity :: k !in Taken(answers[..n]) ==> answers[k].Busy?
  {
    TakenAndRefused(answers[..n]);
    forall k: nat ensures k in Taken(answers[..n]) <==> k < n && answers[k].Free? { TakenHas(answers[..n], k); }
    if n > 0 {
      assert Continues(answers, capacity, cap, n - 1);
      assert answers[..n][..n - 1] == answers[..n - 1];
    }
  }

  /** The module state of xdist_budget: the lock files this process holds, in the order it took them. */
  class WorkerSlots {
    var held: seq<nat>

    constructor ()
      ensures held == []
    {
      held := [];
    }

    /** _claim_worker_slots. answers[k] is what opening and try-locking slot k would give at the moment
        this sweep reaches it, so it stands for everything other runs do meanwhile. */
    method Claim(capacity: int, cap: int, slotDirUsable: bool, answers: seq<Answer>) returns (workers: int)
      requires |answers| >= capacity
      modifies this
      ensures old(held) != [] ==> held == old(held) && workers == |held|
      ensures old(held) == [] && !slotDirUsable ==> held == [] && workers == Min(capacity, cap)
      ensures old(held) == [] && slotDirUsable ==>
                && workers == Max(1, |held|)
                && exists n: nat :: StopsAt(answers, capacity, cap, n) && held == Taken(answers[..n])
    {
      if held != [] {
        return |held|;
      }
      if !slotDirUsable {
        return Min(capacity, cap);
      }
      var taken := 0;
      var index: nat := 0;
      while index < capacity
        invariant index <= Max(0, capacity)
        invariant held == Taken(answers[..index]) && taken == |held|
        invariant forall k: nat | k < index :: Continues(answers, capacity, cap, k)
      {
        if taken >= cap {
          break;
        }
        if answers[index].NoFile? {
          break;
        }
        assert answers[..index + 1] == answers[..index] + [answers[index]];
        TakenStep(answers[..index], answers[index]);
        if answers[index].Free? {
          held := held + [index];
          taken := taken + 1;
        }
        index := index + 1;
      }
      assert StopsAt(answers, capacity, cap, index);
      workers := Max(1, taken);
    }

    /** release_worker_slots: the last slot taken is the first unlocked. */
    method Release() returns (unlocked: seq<nat>)
      modifies this
      ensures held == []
      ensures |unlocked| == |old(held)|
      ensures forall i | 0 <= i < |unlocked| :: unlocked[i] == old(held)[|old(held)| - 1 - i]
    {
      unlocked := [];
      while held != []
        invariant held <= old(held)
        invariant |unlocked| + |held| == |old(held)|
        invariant forall i | 0 <= i < |unlocked| :: unlocked[i] == old(held)[|old(held)| - 1 - i]
        decreases |held|
      {
        var slot := held[|held| - 1];
        held := held[..|held| - 1];
        unlocked := unlocked + [slot];
      }
    }

    /** resolve_workers, up to its warnings. */
    method ResolveWorkers(host: Host, env: Environment, slotDirUsable: bool, answers: seq<Answer>)
      returns (workers: int)
      requires |answers| >= Capacity(host)
      modifies this
      ensures 1 <= workers
      ensures old(held) == [] ==> |held| <= workers <= RunCap(host, env) && forall k | k in held :: k < Capacity(host)
      ensures old(held) == [] && slotDirUsable ==>
                && workers == Max(1, |held|)
                && exists n: nat :: StopsAt(answers, Capacity(host), RunCap(host, env), n) && held == Taken(answers[..n])
      ensures old(held) != [] ==> held == old(held) && workers == |held|
    {
      RunCapIsTightest(host, env, 1);
      workers := Claim(Capacity(host), RunCap(host, env), slotDirUsable, answers);
      if old(held) == [] && slotDirUsable {
        ghost var n: nat :| StopsAt(answers, Capacity(host), RunCap(host, env), n) && held == Taken(answers[..n]);
        forall k | k in held ensures k < n { TakenHas(answers[..n], k); }
        if n > 0 {
          assert Continues(answers, Capacity(host), RunCap(host, env), n - 1);
          assert answers[..n][..n - 1] == answers[..n - 1];
        }
      }
    }
  }
}
