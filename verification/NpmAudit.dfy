/** The npm audit gate: following via references through the vulnerability map, and the findings. */
module NpmAudit {
  import opened Wrappers

  datatype Severity = Info | Low | Moderate | High | Critical

  function Rank(s: Severity): nat {
    match s case Info => 0 case Low => 1 case Moderate => 2 case High => 3 case Critical => 4
  }

  predicate Blocked(s: Severity) { s == High || s == Critical }

  /** An advisory with the id _advisory_id gives it. */
  datatype Advisory = Advisory(id: string, severity: Severity, title: string)

  datatype Via = Ref(package: string) | Direct(advisory: Advisory)

  datatype Record = Record(severity: Severity, via: seq<Via>)

  type Vulns = map<string, Record>

  /** What _validate_vulnerability_records leaves: every reference names a package of the map. */
  ghost predicate Closed(v: Vulns) {
    forall p | p in v :: ClosedVia(v, v[p].via)
  }

  ghost predicate ClosedVia(v: Vulns, via: seq<Via>) {
    forall item | item in via && item.Ref? :: item.package in v
  }

  /** The packages the recursion may still enter. */
  ghost function Unvisited(v: Vulns, trail: seq<string>): set<string> {
    set p | p in v && p !in trail
  }

  lemma TrailShrinksUnvisited(v: Vulns, trail: seq<string>, p: string)
    requires p in v && p !in trail
    ensures Unvisited(v, trail + [p]) < Unvisited(v, trail)
  {
    assert p in Unvisited(v, trail) && p !in Unvisited(v, trail + [p]);
  }

  /** _resolve_advisories: the advisories in the order it extends its list, or the package at which it
      meets its own trail. It terminates because each call adds a new key to the trail. */
  ghost function Resolve(v: Vulns, p: string, trail: seq<string>): Result<seq<Advisory>, string>
    requires Closed(v) && p in v
    decreases Unvisited(v, trail), 0, 0
  {
    if p in trail then Err(p)
    else
      TrailShrinksUnvisited(v, trail, p);
      ResolveVia(v, v[p].via, trail + [p])
  }

  ghost function ResolveVia(v: Vulns, via: seq<Via>, trail: seq<string>): Result<seq<Advisory>, string>
    requires Closed(v) && ClosedVia(v, via)
    decreases Unvisited(v, trail), 1, |via|
  {
    if via == [] then Ok([])
    else
      var last := |via| - 1;
      assert via[last] in via;
      match ResolveVia(v, via[..last], trail)
      case Err(at) => Err(at)
      case Ok(before) =>
        match via[last]
        case Direct(a) => Ok(before + [a])
        case Ref(q) =>
          match Resolve(v, q, trail)
          case Err(at) => Err(at)
          case Ok(more) => Ok(before + more)
  }

  lemma {:induction false} ErrorStays(v: Vulns, via: seq<Via>, trail: seq<string>, k: nat)
    requires Closed(v) && ClosedVia(v, via) && k <= |via|
    requires ResolveVia(v, via[..k], trail).Err?
    ensures ResolveVia(v, via, trail) == ResolveVia(v, via[..k], trail)
    decreases |via|
  {
    if k == |via| {
      assert via[..k] == via;
    } else {
      var front := via[..|via| - 1];
      assert front[..k] == via[..k];
      ErrorStays(v, front, trail, k);
    }
  }

  /** The recursion as written: a loop that extends a local list, and a raise at the first cycle met. */
  method ResolveAdvisories(v: Vulns, p: string, trail: seq<string>) returns (r: Result<seq<Advisory>, string>)
    requires Closed(v) && p in v
    ensures r == Resolve(v, p, trail)
    decreases Unvisited(v, trail)
  {
    if p in trail {
      return Err(p);
    }
    TrailShrinksUnvisited(v, trail, p);
    var via := v[p].via;
    var resolved: seq<Advisory> := [];
    for k := 0 to |via|
      invariant ResolveVia(v, via[..k], trail + [p]) == Ok(resolved)
    {
      assert via[k] in via;
      assert via[..k + 1][..k] == via[..k];
      match via[k] {
        case Direct(a) =>
          resolved := resolved + [a];
        case Ref(q) =>
          var more := ResolveAdvisories(v, q, trail + [p]);
          if more.Err? {
            ErrorStays(v, via, trail + [p], k + 1);
            return more;
          }
          resolved := resolved + more.value;
      }
    }
    assert via[..|via|] == via;
    return Ok(resolved);
  }

  // ---- Reachability ----

  ghost predicate Edge(v: Vulns, a: string, b: string) {
    a in v && Ref(b) in v[a].via
  }

  /** A walk along references, at least one package long. */
  ghost predicate Walk(v: Vulns, ps: seq<string>) {
    ps != [] && ps[0] in v && (|ps| > 1 ==> Edge(v, ps[0], ps[1]) && Walk(v, ps[1..]))
  }

  ghost predicate WalksTo(v: Vulns, p: string, q: string, ps: seq<string>) {
    Walk(v, ps) && ps[0] == p && ps[|ps| - 1] == q
  }

  ghost predicate Reaches(v: Vulns, p: string, q: string) {
    exists ps :: WalksTo(v, p, q, ps)
  }

  /** From p one can get to a package that some reference of its own leads back to. */
  ghost predicate CycleReachable(v: Vulns, p: string) {
    exists q, r :: CycleAt(v, p, q, r)
  }

  ghost predicate CycleAt(v: Vulns, p: string, q: string, r: string) {
    Reaches(v, p, q) && Edge(v, q, r) && Reaches(v, r, q)
  }

  lemma ReachesItself(v: Vulns, p: string)
    requires p in v
    ensures Reaches(v, p, p)
  {
    assert WalksTo(v, p, p, [p]);
  }

  lemma StepReaches(v: Vulns, p: string, q: string, r: string)
    requires Edge(v, p, q) && Reaches(v, q, r)
    ensures Reaches(v, p, r)
  {
    var ps :| WalksTo(v, q, r, ps);
    assert ([p] + ps)[1..] == ps;
    assert WalksTo(v, p, r, [p] + ps);
  }

  /** From p one can get to c, and from c back to c. */
  ghost predicate CycleThrough(v: Vulns, p: string, c: string) {
    exists r :: CycleAt(v, p, c, r)
  }

  lemma StepReachesCycle(v: Vulns, p: string, q: string, c: string)
    requires Edge(v, p, q) && CycleThrough(v, q, c)
    ensures CycleThrough(v, p, c)
  {
    var r :| CycleAt(v, q, c, r);
    StepReaches(v, p, q, c);
    assert CycleAt(v, p, c, r);
  }

  // ---- A raise means a cycle ----

  /** The trail followed by p is a walk. */
  ghost predicate TrailLeadsTo(v: Vulns, trail: seq<string>, p: string) {
    Walk(v, trail + [p])
  }

  lemma {:induction false} WalkSuffix(v: Vulns, ps: seq<string>, k: nat)
    requires Walk(v, ps) && k < |ps|
    ensures Walk(v, ps[k..])
  {
    if k == 0 {
      assert ps[0..] == ps;
    } else {
      WalkSuffix(v, ps[1..], k - 1);
      assert ps[k..] == ps[1..][k - 1..];
    }
  }

  lemma {:induction false} WalkExtends(v: Vulns, ps: seq<string>, q: string)
    requires Walk(v, ps) && Edge(v, ps[|ps| - 1], q) && q in v
    ensures Walk(v, ps + [q])
  {
    if |ps| > 1 {
      WalkExtends(v, ps[1..], q);
      assert (ps + [q])[1..] == ps[1..] + [q];
    } else {
      assert (ps + [q])[1..] == [q];
    }
  }

  lemma TrailHitIsCycle(v: Vulns, trail: seq<string>, p: string)
    requires p in v && TrailLeadsTo(v, trail, p) && p in trail
    ensures CycleThrough(v, p, p)
  {
    var k :| 0 <= k < |trail| && trail[k] == p;
    var loop := (trail + [p])[k..];
    WalkSuffix(v, trail + [p], k);
    assert loop[1..][|loop| - 2] == p;
    assert WalksTo(v, loop[1], p, loop[1..]);
    ReachesItself(v, p);
    assert CycleAt(v, p, p, loop[1]);
  }

  /** The package a raise names lies on a cycle that p leads to. */
  lemma {:induction false} RaiseMeansCycle(v: Vulns, p: string, trail: seq<string>)
    requires Closed(v) && p in v && TrailLeadsTo(v, trail, p) && Resolve(v, p, trail).Err?
    ensures CycleThrough(v, p, Resolve(v, p, trail).error)
    decreases Unvisited(v, trail), 0, 0
  {
    if p in trail {
      TrailHitIsCycle(v, trail, p);
    } else {
      TrailShrinksUnvisited(v, trail, p);
      assert v[p].via[..|v[p].via|] == v[p].via;
      RaiseInVia(v, p, |v[p].via|, trail);
    }
  }

  lemma {:induction false} RaiseInVia(v: Vulns, p: string, k: nat, trail: seq<string>)
    requires Closed(v) && p in v && p !in trail && TrailLeadsTo(v, trail, p)
    requires k <= |v[p].via| && ResolveVia(v, v[p].via[..k], trail + [p]).Err?
    ensures CycleThrough(v, p, ResolveVia(v, v[p].via[..k], trail + [p]).error)
    decreases Unvisited(v, trail + [p]), 1, k
  {
    var via := v[p].via;
    if k == 0 {
    } else {
      assert via[..k][..k - 1] == via[..k - 1];
      assert via[k - 1] in via;
      if ResolveVia(v, via[..k - 1], trail + [p]).Err? {
        RaiseInVia(v, p, k - 1, trail);
      } else {
        var q := via[k - 1].package;
        WalkExtends(v, trail + [p], q);
        RaiseMeansCycle(v, q, trail + [p]);
        StepReachesCycle(v, p, q, Resolve(v, q, trail + [p]).error);
      }
    }
  }

  // ---- A normal return means none, and the whole reachable set ----

  /** If a package's references all resolve, so does each on its own, into a part of the list. */
  lemma {:induction false} ViaParts(v: Vulns, via: seq<Via>, trail: seq<string>, item: Via)
    requires Closed(v) && ClosedVia(v, via) && ResolveVia(v, via, trail).Ok? && item in via
    ensures item.Direct? ==> item.advisory in ResolveVia(v, via, trail).value
    ensures item.Ref? ==> && Resolve(v, item.package, trail).Ok?
                          && forall a | a in Resolve(v, item.package, trail).value :: a in ResolveVia(v, via, trail).value
  {
    var last := |via| - 1;
    if item == via[last] {
    } else {
      assert item in via[..last];
      ViaParts(v, via[..last], trail, item);
    }
  }

  /** Along any walk from a package that resolves, every package resolves too, off its own trail. */
  lemma {:induction false} ResolvesAlong(v: Vulns, ps: seq<string>, trail: seq<string>) returns (reached: seq<string>)
    requires Closed(v) && Walk(v, ps) && Resolve(v, ps[0], trail).Ok?
    ensures ps[|ps| - 1] in v && trail <= reached && Resolve(v, ps[|ps| - 1], reached).Ok?
    ensures ps[|ps| - 1] !in reached
    ensures forall a | a in Resolve(v, ps[|ps| - 1], reached).value :: a in Resolve(v, ps[0], trail).value
  {
    if |ps| == 1 {
      reached := trail;
    } else {
      ViaParts(v, v[ps[0]].via, trail + [ps[0]], Ref(ps[1]));
      reached := ResolvesAlong(v, ps[1..], trail + [ps[0]]);
    }
  }

  lemma ReturnMeansNoCycle(v: Vulns, p: string, trail: seq<string>)
    requires Closed(v) && p in v && Resolve(v, p, trail).Ok?
    ensures !CycleReachable(v, p)
  {
    if CycleReachable(v, p) {
      var q, r :| CycleAt(v, p, q, r);
      var out :| WalksTo(v, p, q, out);
      var back :| WalksTo(v, r, q, back);
      var t1 := ResolvesAlong(v, out, trail);
      ViaParts(v, v[q].via, t1 + [q], Ref(r));
      assert (t1 + [q])[|t1|] == q;
      var t2 := ResolvesAlong(v, back, t1 + [q]);
    }
  }

  /** a is an advisory of a package reachable from p. */
  ghost predicate Attached(v: Vulns, p: string, a: Advisory) {
    exists q :: q in v && Reaches(v, p, q) && Direct(a) in v[q].via
  }

  lemma AttachedIsFound(v: Vulns, p: string, trail: seq<string>, a: Advisory)
    requires Closed(v) && p in v && Resolve(v, p, trail).Ok? && Attached(v, p, a)
    ensures a in Resolve(v, p, trail).value
  {
    var q :| q in v && Reaches(v, p, q) && Direct(a) in v[q].via;
    var ps :| WalksTo(v, p, q, ps);
    var reached := ResolvesAlong(v, ps, trail);
    ViaParts(v, v[q].via, reached + [q], Direct(a));
  }

  lemma {:induction false} FoundIsAttached(v: Vulns, p: string, trail: seq<string>, a: Advisory)
    requires Closed(v) && p in v && Resolve(v, p, trail).Ok? && a in Resolve(v, p, trail).value
    ensures Attached(v, p, a)
    decreases Unvisited(v, trail), 0, 0
  {
    TrailShrinksUnvisited(v, trail, p);
    assert v[p].via[..|v[p].via|] == v[p].via;
    FoundInVia(v, p, |v[p].via|, trail, a);
  }

  lemma {:induction false} FoundInVia(v: Vulns, p: string, k: nat, trail: seq<string>, a: Advisory)
    requires Closed(v) && p in v && p !in trail && k <= |v[p].via|
    requires ResolveVia(v, v[p].via[..k], trail + [p]).Ok? && a in ResolveVia(v, v[p].via[..k], trail + [p]).value
    ensures Attached(v, p, a)
    decreases Unvisited(v, trail + [p]), 1, k
  {
    var via := v[p].via;
    if k == 0 {
    } else {
      assert via[..k][..k - 1] == via[..k - 1];
      assert via[k - 1] in via;
      if a in ResolveVia(v, via[..k - 1], trail + [p]).value {
        FoundInVia(v, p, k - 1, trail, a);
      } else if via[k - 1].Direct? {
        ReachesItself(v, p);
      } else {
        var q := via[k - 1].package;
        FoundIsAttached(v, q, trail + [p], a);
        var c :| c in v && Reaches(v, q, c) && Direct(a) in v[c].via;
        StepReaches(v, p, q, c);
      }
    }
  }

  /** The whole contract of the resolver: it raises exactly when a cycle is reachable, and otherwise finds
      exactly the advisories attached to reachable packages. */
  lemma ResolveIsReachability(v: Vulns, p: string)
    requires Closed(v) && p in v
    ensures Resolve(v, p, []).Err? <==> CycleReachable(v, p)
    ensures Resolve(v, p, []).Err? ==> CycleThrough(v, p, Resolve(v, p, []).error)
    ensures Resolve(v, p, []).Ok? ==> forall a :: a in Resolve(v, p, []).value <==> Attached(v, p, a)
  {
    if Resolve(v, p, []).Err? {
      assert [] + [p] == [p];
      RaiseMeansCycle(v, p, []);
    } else {
      ReturnMeansNoCycle(v, p, []);
      forall a ensures a in Resolve(v, p, []).value <==> Attached(v, p, a) {
        if a in Resolve(v, p, []).value { FoundIsAttached(v, p, [], a); }
        if Attached(v, p, a) { AttachedIsFound(v, p, [], a); }
      }
    }
  }

  // ---- The order of the list ----

  /** The trail only detects cycles: with fewer packages on it a package that resolves gives the same list. */
  lemma {:induction false} LessTrail(v: Vulns, p: string, trail: seq<string>, less: seq<string>)
    requires Closed(v) && p in v && Resolve(v, p, trail).Ok? && forall q | q in less :: q in trail
    ensures Resolve(v, p, less) == Resolve(v, p, trail)
    decreases Unvisited(v, trail), 0, 0
  {
    TrailShrinksUnvisited(v, trail, p);
    LessTrailVia(v, v[p].via, trail + [p], less + [p]);
  }

  lemma {:induction false} LessTrailVia(v: Vulns, via: seq<Via>, trail: seq<string>, less: seq<string>)
    requires Closed(v) && ClosedVia(v, via) && ResolveVia(v, via, trail).Ok? && forall q | q in less :: q in trail
    ensures ResolveVia(v, via, less) == ResolveVia(v, via, trail)
    decreases Unvisited(v, trail), 1, |via|
  {
    if via == [] {
    } else {
      var last := |via| - 1;
      assert via[last] in via;
      LessTrailVia(v, via[..last], trail, less);
      if via[last].Ref? { LessTrail(v, via[last].package, trail, less); }
    }
  }

  /** What one reference stands for: an advisory itself, or what its package resolves to by itself. */
  ghost function Meaning(v: Vulns, item: Via): seq<Advisory>
    requires Closed(v) && ClosedVia(v, [item])
  {
    match item
    case Direct(a) => [a]
    case Ref(q) => assert item in [item]; if Resolve(v, q, []).Ok? then Resolve(v, q, []).value else []
  }

  ghost function Listing(v: Vulns, via: seq<Via>): seq<Advisory>
    requires Closed(v) && ClosedVia(v, via)
  {
    if via == [] then [] else assert via[0] in via; Meaning(v, via[0]) + Listing(v, via[1..])
  }

  lemma {:induction false} ListingOneMore(v: Vulns, via: seq<Via>, item: Via)
    requires Closed(v) && ClosedVia(v, via) && ClosedVia(v, [item]) && ClosedVia(v, via + [item])
    ensures Listing(v, via + [item]) == Listing(v, via) + Meaning(v, item)
  {
    if via == [] {
      assert [] + [item] == [item] && [item][1..] == [];
      assert Listing(v, [item]) == Meaning(v, item) + Listing(v, []);
    } else {
      assert (via + [item])[1..] == via[1..] + [item];
      ListingOneMore(v, via[1..], item);
    }
  }

  lemma {:induction false} ViaIsListed(v: Vulns, via: seq<Via>, trail: seq<string>)
    requires Closed(v) && ClosedVia(v, via) && ResolveVia(v, via, trail).Ok?
    ensures ResolveVia(v, via, trail).value == Listing(v, via)
  {
    if via == [] {
    } else {
      var front, item := via[..|via| - 1], via[|via| - 1];
      assert via == front + [item] && item in via;
      ViaIsListed(v, front, trail);
      ListingOneMore(v, front, item);
      if item.Ref? { LessTrail(v, item.package, trail, []); }
    }
  }

  /** The list of a package that reaches no cycle joins, in the order of its via array, its own advisories and
      the lists of the packages it refers to. */
  lemma ListsInOrder(v: Vulns, p: string)
    requires Closed(v) && p in v && !CycleReachable(v, p)
    ensures Resolve(v, p, []) == Ok(Listing(v, v[p].via))
    ensures forall q | Ref(q) in v[p].via :: Resolve(v, q, []).Ok?
  {
    ResolveIsReachability(v, p);
    ViaIsListed(v, v[p].via, [] + [p]);
    forall q | Ref(q) in v[p].via ensures Resolve(v, q, []).Ok? {
      ResolveIsReachability(v, q);
      if CycleReachable(v, q) {
        var c, r :| CycleAt(v, q, c, r);
        StepReaches(v, p, q, c);
        assert CycleAt(v, p, c, r);
      }
    }
  }

  // ---- Findings ----

  /** What is kept for a (package, advisory id) pair. */
  datatype Finding = Finding(severity: Severity, title: string)

  type Findings = map<(string, string), Finding>

  function RecordOne(fs: Findings, p: string, a: Advisory): Findings {
    var key := (p, a.id);
    if !Blocked(a.severity) then fs
    else if key !in fs || Rank(a.severity) > Rank(fs[key].severity) then fs[key := Finding(a.severity, a.title)]
    else fs
  }

  function RecordAll(fs: Findings, p: string, advisories: seq<Advisory>): Findings {
    if advisories == [] then fs
    else RecordOne(RecordAll(fs, p, advisories[..|advisories| - 1]), p, advisories[|advisories| - 1])
  }

  /** f is the finding of advisory a of the list: high or critical, none of its id outranks it, and none
      before it is its equal. */
  ghost predicate IsBest(advisories: seq<Advisory>, id: string, f: Finding) {
    exists k :: 0 <= k < |advisories| && BestAt(advisories, id, f, k)
  }

  ghost predicate BestAt(advisories: seq<Advisory>, id: string, f: Finding, k: int)
    requires 0 <= k < |advisories|
  {
    var a := advisories[k];
    && a.id == id && Blocked(a.severity) && f == Finding(a.severity, a.title)
    && (forall b | b in advisories && b.id == id :: Rank(b.severity) <= Rank(a.severity))
    && (forall b | b in advisories[..k] && b.id == id :: Rank(b.severity) < Rank(a.severity))
  }

  ghost predicate HasBlocked(advisories: seq<Advisory>, id: string) {
    exists a | a in advisories :: a.id == id && Blocked(a.severity)
  }

  lemma BestStays(front: seq<Advisory>, a: Advisory, id: string, f: Finding)
    requires IsBest(front, id, f) && (a.id != id || Rank(a.severity) <= Rank(f.severity))
    ensures IsBest(front + [a], id, f)
  {
    var k :| 0 <= k < |front| && BestAt(front, id, f, k);
    assert (front + [a])[..k] == front[..k];
    assert BestAt(front + [a], id, f, k);
  }

  lemma BestIsNew(front: seq<Advisory>, a: Advisory, id: string)
    requires a.id == id && Blocked(a.severity)
    requires forall b | b in front && b.id == id :: Rank(b.severity) < Rank(a.severity)
    ensures IsBest(front + [a], id, Finding(a.severity, a.title))
  {
    assert (front + [a])[..|front|] == front;
    assert BestAt(front + [a], id, Finding(a.severity, a.title), |front|);
  }

  lemma RecordOneMore(fs: Findings, p: string, advisories: seq<Advisory>, a: Advisory)
    ensures RecordAll(fs, p, advisories + [a]) == RecordOne(RecordAll(fs, p, advisories), p, a)
  {
    assert (advisories + [a])[..|advisories|] == advisories;
  }

  /** What recording one package's list does to a table that knows nothing of the package. */
  lemma {:induction false} RecordAllMeans(fs: Findings, p: string, advisories: seq<Advisory>, q: string, id: string)
    requires forall i :: (p, i) !in fs
    ensures var r := RecordAll(fs, p, advisories);
            if q == p
            then ((q, id) in r <==> HasBlocked(advisories, id)) && ((q, id) in r ==> IsBest(advisories, id, r[(q, id)]))
            else ((q, id) in r <==> (q, id) in fs) && ((q, id) in r ==> r[(q, id)] == fs[(q, id)])
  {
    if advisories == [] {
    } else {
      var last := |advisories| - 1;
      var front, a := advisories[..last], advisories[last];
      assert advisories == front + [a];
      RecordAllMeans(fs, p, front, q, id);
      RecordOneMore(fs, p, front, a);
      var before := RecordAll(fs, p, front);
      if (p, id) in before {
        if q == p && (a.id != id || Rank(a.severity) <= Rank(before[(p, id)].severity)) {
          BestStays(front, a, id, before[(p, id)]);
        } else if q == p {
          BestIsNew(front, a, id);
        }
      } else if q == p && a.id == id && Blocked(a.severity) {
        BestIsNew(front, a, id);
      }
    }
  }

  datatype GateError =
    | StatusContradicts
    | Cycle(at: string)
    | NoDetails(package: string)
    | Unresolvable
    | AdvisoriesContradict

  /** Recording one more package that resolves keeps the table right. */
  lemma PackageRecorded(v: Vulns, done: seq<string>, fs: Findings, p: string)
    requires Closed(v) && p in v && p !in done && Resolve(v, p, []).Ok?
    requires forall q, id :: FindingIsRight(v, done, fs, q, id)
    ensures forall q, id :: FindingIsRight(v, done + [p], RecordAll(fs, p, Resolve(v, p, []).value), q, id)
  {
    forall id ensures (p, id) !in fs {
      assert FindingIsRight(v, done, fs, p, id);
    }
    forall q, id ensures FindingIsRight(v, done + [p], RecordAll(fs, p, Resolve(v, p, []).value), q, id) {
      assert FindingIsRight(v, done, fs, q, id);
      RecordAllMeans(fs, p, Resolve(v, p, []).value, q, id);
    }
  }

  /** The body of parse_audit_report after validation. `order` is the iteration order of the map, blocked
      the high and critical total of the metadata. */
  method CollectFindings(v: Vulns, order: seq<string>, blocked: nat, returncode: int)
    returns (r: Result<Findings, GateError>)
    requires Closed(v)
    requires forall p :: p in order <==> p in v
    requires forall i, j | 0 <= i < j < |order| :: order[i] != order[j]
    ensures r.Ok? ==> FindingsAreRight(v, r.value)
    ensures r.Ok? ==> (blocked > 0 <==> returncode == 1) && (blocked == 0 <==> returncode == 0)
    ensures r.Ok? ==> (r.value == map[] <==> blocked == 0)
    ensures r.Ok? <==> Trustworthy(v, blocked, returncode)
    ensures r.Err? ==> ErrorIsRight(v, blocked, returncode, r.error)
  {
    AllDetailedMeans(v);
    if (blocked == 0 && returncode != 0) || (blocked > 0 && returncode != 1) {
      return Err(StatusContradicts);
    }
    var fs: Findings := map[];
    for i := 0 to |order|
      invariant forall j | 0 <= j < i :: Detailed(v, order[j])
      invariant forall q, id :: FindingIsRight(v, order[..i], fs, q, id)
    {
      var p := order[i];
      assert p in order && order[..i + 1] == order[..i] + [p];
      var more := CollectPackage(v, p, fs);
      if more.Err? {
        assert !Detailed(v, p);
        return Err(more.error);
      }
      PackageRecorded(v, order[..i], fs, p);
      fs := more.value;
    }
    assert order[..|order|] == order;
    EmptyMeansNothingBlocked(v, order, fs);
    if blocked > 0 && fs == map[] {
      return Err(Unresolvable);
    }
    if blocked == 0 && fs != map[] {
      return Err(AdvisoriesContradict);
    }
    return Ok(fs);
  }

  /** The body of its loop. */
  method CollectPackage(v: Vulns, p: string, fs: Findings) returns (r: Result<Findings, GateError>)
    requires Closed(v) && p in v
    ensures r.Ok? <==> Detailed(v, p)
    ensures r.Ok? ==> r.value == RecordAll(fs, p, Resolve(v, p, []).value)
    ensures r.Err? ==> forall blocked, returncode :: ErrorIsRight(v, blocked, returncode, r.error)
  {
    var advisories := ResolveAdvisories(v, p, []);
    ResolveIsReachability(v, p);
    if advisories.Err? {
      return Err(Cycle(advisories.error));
    }
    if Blocked(v[p].severity) && advisories.value == [] {
      return Err(NoDetails(p));
    }
    var more := RecordEach(fs, p, advisories.value);
    return Ok(more);
  }

  method RecordEach(fs: Findings, p: string, advisories: seq<Advisory>) returns (r: Findings)
    ensures r == RecordAll(fs, p, advisories)
  {
    r := fs;
    for k := 0 to |advisories|
      invariant r == RecordAll(fs, p, advisories[..k])
    {
      assert advisories[..k + 1][..k] == advisories[..k];
      var a := advisories[k];
      if Blocked(a.severity) {
        var key := (p, a.id);
        if key !in r || Rank(a.severity) > Rank(r[key].severity) {
          r := r[key := Finding(a.severity, a.title)];
        }
      }
    }
    assert advisories[..|advisories|] == advisories;
  }

  /** The package resolves, and is not blocked without an advisory to show. */
  ghost predicate Detailed(v: Vulns, p: string)
    requires Closed(v)
  {
    p in v && Resolve(v, p, []).Ok? && (Blocked(v[p].severity) ==> Resolve(v, p, []).value != [])
  }

  /** For the packages processed, the table has an entry for (q, id) exactly when q has a high or critical
      advisory of that id, and then it is the best of them. */
  ghost predicate FindingIsRight(v: Vulns, done: seq<string>, fs: Findings, q: string, id: string)
    requires Closed(v)
  {
    if q in done && q in v && Resolve(v, q, []).Ok? then
      var advisories := Resolve(v, q, []).value;
      ((q, id) in fs <==> HasBlocked(advisories, id)) && ((q, id) in fs ==> IsBest(advisories, id, fs[(q, id)]))
    else (q, id) !in fs
  }

  /** An advisory of this id and severity is attached to something the package reaches. */
  ghost predicate InReach(v: Vulns, q: string, id: string, s: Severity) {
    exists a :: Attached(v, q, a) && a.id == id && a.severity == s
  }

  ghost predicate SevereInReach(v: Vulns, q: string, id: string) {
    InReach(v, q, id, High) || InReach(v, q, id, Critical)
  }

  /** The finding of q and id is critical if a critical advisory of the id is in reach, and high otherwise, with
      the title of an advisory of that severity. */
  ghost predicate IsWorst(v: Vulns, q: string, id: string, f: Finding) {
    && f.severity == (if InReach(v, q, id, Critical) then Critical else High)
    && exists a :: Attached(v, q, a) && a.id == id && a.severity == f.severity && a.title == f.title
  }

  /** One finding for each package and advisory id such that a high or critical advisory of that id is in reach
      of the package: the worst of those. */
  ghost predicate FindingsAreRight(v: Vulns, fs: Findings) {
    forall q, id ::
      && ((q, id) in fs <==> q in v && SevereInReach(v, q, id))
      && ((q, id) in fs ==> IsWorst(v, q, id, fs[(q, id)]))
  }

  /** When the report can be trusted to an allow or block decision: its exit status agrees with its counts, no
      package reaches a cycle, every blocked record has some advisory in reach, and there are high or critical
      advisories in reach exactly when there are such counts. */
  ghost predicate Trustworthy(v: Vulns, blocked: nat, returncode: int) {
    && returncode == (if blocked > 0 then 1 else 0)
    && (forall p | p in v :: !CycleReachable(v, p))
    && (forall p | p in v && v[p].severity in {High, Critical} :: exists a :: Attached(v, p, a))
    && (blocked > 0 <==> exists p, id :: p in v && SevereInReach(v, p, id))
  }

  /** What each error says of the report. */
  ghost predicate ErrorIsRight(v: Vulns, blocked: nat, returncode: int, e: GateError) {
    match e
    case StatusContradicts => returncode != if blocked > 0 then 1 else 0
    case Cycle(at) => exists p :: p in v && CycleThrough(v, p, at)
    case NoDetails(p) => p in v && v[p].severity in {High, Critical} && !exists a :: Attached(v, p, a)
    case Unresolvable => blocked > 0 && !exists p, id :: p in v && SevereInReach(v, p, id)
    case AdvisoriesContradict => blocked == 0 && exists p, id :: p in v && SevereInReach(v, p, id)
  }

  lemma DetailedMeans(v: Vulns, p: string)
    requires Closed(v) && p in v
    ensures Detailed(v, p) <==>
            !CycleReachable(v, p) && (v[p].severity in {High, Critical} ==> exists a :: Attached(v, p, a))
  {
    ResolveIsReachability(v, p);
    if Resolve(v, p, []).Ok? {
      var found := Resolve(v, p, []).value;
      if found != [] { assert found[0] in found; }
    }
  }

  lemma AllDetailedMeans(v: Vulns)
    requires Closed(v)
    ensures (forall p | p in v :: Detailed(v, p)) <==>
            && (forall p | p in v :: !CycleReachable(v, p))
            && (forall p | p in v && v[p].severity in {High, Critical} :: exists a :: Attached(v, p, a))
  {
    forall p | p in v
      ensures Detailed(v, p) <==>
              !CycleReachable(v, p) && (v[p].severity in {High, Critical} ==> exists a :: Attached(v, p, a))
    {
      DetailedMeans(v, p);
    }
  }

  lemma RightForAll(v: Vulns, order: seq<string>, fs: Findings)
    requires Closed(v) && (forall p :: p in order <==> p in v) && forall p | p in v :: Detailed(v, p)
    requires forall q, id :: FindingIsRight(v, order, fs, q, id)
    ensures FindingsAreRight(v, fs)
  {
    forall q, id
      ensures (q, id) in fs <==> q in v && SevereInReach(v, q, id)
      ensures (q, id) in fs ==> IsWorst(v, q, id, fs[(q, id)])
    {
      assert FindingIsRight(v, order, fs, q, id);
      if q in v {
        assert Detailed(v, q);
        ResolveIsReachability(v, q);
        BestIsWorst(v, q, Resolve(v, q, []).value, id);
      }
    }
  }

  lemma BestIsWorst(v: Vulns, q: string, advisories: seq<Advisory>, id: string)
    requires forall a :: a in advisories <==> Attached(v, q, a)
    ensures HasBlocked(advisories, id) <==> SevereInReach(v, q, id)
    ensures forall f | IsBest(advisories, id, f) :: IsWorst(v, q, id, f)
  {
    forall f | IsBest(advisories, id, f) ensures IsWorst(v, q, id, f) {
      var k :| 0 <= k < |advisories| && BestAt(advisories, id, f, k);
      assert advisories[k] in advisories;
    }
  }

  lemma EmptyMeansNothingBlocked(v: Vulns, order: seq<string>, fs: Findings)
    requires Closed(v) && (forall p :: p in order <==> p in v) && forall j | 0 <= j < |order| :: Detailed(v, order[j])
    requires forall q, id :: FindingIsRight(v, order, fs, q, id)
    ensures FindingsAreRight(v, fs)
    ensures fs == map[] <==> !exists p, id :: p in v && SevereInReach(v, p, id)
  {
    forall p | p in v ensures Detailed(v, p) {
      assert p in order;
    }
    RightForAll(v, order, fs);
    if p, id :| p in v && SevereInReach(v, p, id) {
      assert (p, id) in fs;
    } else if fs != map[] {
      var key :| key in fs;
      assert (key.0, key.1) in fs;
    }
  }
}
