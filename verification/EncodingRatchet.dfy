/** The subprocess-encoding gate: violation counts per file against a baseline that only shrinks, judged
    over the files a change touches. */
module EncodingRatchet {
  import opened Wrappers
  import opened StringOrder

  /** Path to the line numbers of its violations; a scan lists only files that have some. */
  type Violations = map<string, seq<int>>

  /** Path to the number of violations recorded for it. */
  type Baseline = map<string, nat>

  ghost predicate Scanned(v: Violations) {
    forall rel | rel in v :: v[rel] != []
  }

  function Count(v: Violations, rel: string): nat {
    if rel in v then |v[rel]| else 0
  }

  /** What a file may have: nothing when it is not listed. */
  function Ceiling(b: Baseline, rel: string): nat {
    if rel in b then b[rel] else 0
  }

  /** The files a change touches (None: could not be determined, so every file), and the lines it adds to
      them (None: not available). */
  datatype Scope = Scope(changed: Option<set<string>>, added: Option<map<string, set<int>>>)
  {
    predicate Has(rel: string) { changed.None? || rel in changed.value }

    function LinesAddedTo(rel: string): set<int> {
      if added.Some? && rel in added.value then added.value[rel] else {}
    }
  }

  const WHOLE_TREE := Scope(None, None)

  datatype Verdicts = Verdicts(newOffenders: seq<string>, grown: seq<string>,
                               addedLineOffenders: map<string, set<int>>, shrunk: seq<string>)
  {
    predicate Accepts() { newOffenders == [] && grown == [] && addedLineOffenders == map[] && shrunk == [] }
  }

  function Filter(xs: seq<string>, keep: Test): seq<string> {
    if xs == [] then []
    else
      var before := Filter(xs[..|xs| - 1], keep);
      if keep(xs[|xs| - 1]) then before + [xs[|xs| - 1]] else before
  }

  /** A question about one file. */
  type Test = string -> bool

  function IsNew(b: Baseline, scope: Scope): Test {
    rel => rel !in b && scope.Has(rel)
  }

  function IsGrown(v: Violations, b: Baseline, scope: Scope): Test {
    rel => rel in b && scope.Has(rel) && Count(v, rel) > b[rel]
  }

  function IsShrunk(v: Violations, b: Baseline, scope: Scope): Test {
    rel => scope.Has(rel) && Count(v, rel) < Ceiling(b, rel)
  }

  /** The violations on added lines of a listed file in scope whose count has not grown. */
  function OnAdded(v: Violations, b: Baseline, scope: Scope, rel: string): set<int> {
    if rel in v && rel in b && scope.Has(rel) && Count(v, rel) <= b[rel]
    then (set line | line in v[rel]) * scope.LinesAddedTo(rel)
    else {}
  }

  /** The files with something found on them, and what. */
  function Found(rels: set<string>, on: string -> set<int>): map<string, set<int>> {
    map rel | rel in rels && on(rel) != {} :: on(rel)
  }

  function AddedLines(v: Violations, b: Baseline, scope: Scope): string -> set<int> {
    rel => OnAdded(v, b, scope, rel)
  }

  function Judge(v: Violations, b: Baseline, scope: Scope): Verdicts {
    Verdicts(Filter(Sorted(v.Keys), IsNew(b, scope)),
             Filter(Sorted(v.Keys), IsGrown(v, b, scope)),
             Found(v.Keys, AddedLines(v, b, scope)),
             Filter(Sorted(b.Keys), IsShrunk(v, b, scope)))
  }

  function FoundUpTo(rels: seq<string>, on: string -> set<int>): map<string, set<int>> {
    if rels == [] then map[]
    else
      var before, rel := FoundUpTo(rels[..|rels| - 1], on), rels[|rels| - 1];
      if on(rel) == {} then before else before[rel := on(rel)]
  }

  lemma FoundOneMore(rels: seq<string>, rel: string, on: string -> set<int>)
    ensures FoundUpTo(rels + [rel], on) ==
            if on(rel) == {} then FoundUpTo(rels, on) else FoundUpTo(rels, on)[rel := on(rel)]
  {
    assert (rels + [rel])[..|rels|] == rels;
  }

  lemma {:induction false} FoundUpToAt(rels: seq<string>, on: string -> set<int>, x: string)
    ensures var all := FoundUpTo(rels, on);
            && (x in all <==> x in rels && on(x) != {})
            && (x in all ==> all[x] == on(x))
  {
    if rels == [] {
    } else {
      assert rels == rels[..|rels| - 1] + [rels[|rels| - 1]];
      FoundUpToAt(rels[..|rels| - 1], on, x);
    }
  }

  lemma FoundUpToAll(rels: seq<string>, of: set<string>, on: string -> set<int>)
    requires forall rel :: rel in rels <==> rel in of
    ensures FoundUpTo(rels, on) == Found(of, on)
  {
    forall x ensures x in FoundUpTo(rels, on) <==> x in Found(of, on)
             ensures x in Found(of, on) ==> FoundUpTo(rels, on)[x] == Found(of, on)[x]
    {
      FoundUpToAt(rels, on, x);
    }
  }

  lemma FilterOneMore(xs: seq<string>, x: string, keep: Test)
    ensures Filter(xs + [x], keep) == Filter(xs, keep) + if keep(x) then [x] else []
  {
    assert (xs + [x])[..|xs|] == xs;
  }

  /** _verdicts. */
  method JudgeTree(v: Violations, b: Baseline, scope: Scope) returns (r: Verdicts)
    ensures r == Judge(v, b, scope)
  {
    var rels := Sorted(v.Keys);
    var newOffenders, grown, addedLineOffenders := JudgeFiles(v, b, scope, rels);
    var shrunk := JudgeEntries(v, b, scope, Sorted(b.Keys));
    FoundUpToAll(rels, v.Keys, AddedLines(v, b, scope));
    r := Verdicts(newOffenders, grown, addedLineOffenders, shrunk);
  }

  /** The loop over the files with violations. */
  method JudgeFiles(v: Violations, b: Baseline, scope: Scope, rels: seq<string>)
    returns (newOffenders: seq<string>, grown: seq<string>, addedLineOffenders: map<string, set<int>>)
    requires forall rel | rel in rels :: rel in v
    ensures newOffenders == Filter(rels, IsNew(b, scope))
    ensures grown == Filter(rels, IsGrown(v, b, scope))
    ensures addedLineOffenders == FoundUpTo(rels, AddedLines(v, b, scope))
  {
    newOffenders, grown, addedLineOffenders := [], [], map[];
    for i := 0 to |rels|
      invariant newOffenders == Filter(rels[..i], IsNew(b, scope))
      invariant grown == Filter(rels[..i], IsGrown(v, b, scope))
      invariant addedLineOffenders == FoundUpTo(rels[..i], AddedLines(v, b, scope))
    {
      var rel := rels[i];
      assert rels[..i + 1] == rels[..i] + [rel];
      FilterOneMore(rels[..i], rel, IsNew(b, scope));
      FilterOneMore(rels[..i], rel, IsGrown(v, b, scope));
      FoundOneMore(rels[..i], rel, AddedLines(v, b, scope));
      if rel !in b {
        if scope.Has(rel) {
          newOffenders := newOffenders + [rel];
        }
      } else if scope.Has(rel) {
        if |v[rel]| > b[rel] {
          grown := grown + [rel];
        } else if scope.added.Some? {
          var onAdded := (set line | line in v[rel]) * scope.LinesAddedTo(rel);
          if onAdded != {} {
            addedLineOffenders := addedLineOffenders[rel := onAdded];
          }
        }
      }
    }
    assert rels[..|rels|] == rels;
  }

  /** The loop over the baseline's entries. */
  method JudgeEntries(v: Violations, b: Baseline, scope: Scope, listed: seq<string>) returns (shrunk: seq<string>)
    requires forall rel | rel in listed :: rel in b
    ensures shrunk == Filter(listed, IsShrunk(v, b, scope))
  {
    shrunk := [];
    for i := 0 to |listed|
      invariant shrunk == Filter(listed[..i], IsShrunk(v, b, scope))
    {
      var rel := listed[i];
      assert listed[..i + 1] == listed[..i] + [rel];
      FilterOneMore(listed[..i], rel, IsShrunk(v, b, scope));
      if Count(v, rel) < b[rel] && scope.Has(rel) {
        shrunk := shrunk + [rel];
      }
    }
    assert listed[..|listed|] == listed;
  }

  // ---- Refresh ----

  /** What is left of a baseline: entries lowered to what a file still has, and dropped once it is clean. */
  function Shrunken(b: Baseline, v: Violations): Baseline {
    map rel | rel in b && Count(v, rel) > 0 :: if b[rel] < Count(v, rel) then b[rel] else Count(v, rel)
  }

  function ShrunkenOver(rels: seq<string>, b: Baseline, v: Violations): Baseline {
    if rels == [] then map[]
    else
      var before, rel := ShrunkenOver(rels[..|rels| - 1], b, v), rels[|rels| - 1];
      if Count(v, rel) == 0 then before
      else before[rel := if Ceiling(b, rel) < Count(v, rel) then Ceiling(b, rel) else Count(v, rel)]
  }

  lemma {:induction false} ShrunkenOverAt(rels: seq<string>, b: Baseline, v: Violations, x: string)
    requires forall rel | rel in rels :: rel in b
    ensures var all := ShrunkenOver(rels, b, v);
            && (x in all <==> x in rels && Count(v, x) > 0)
            && (x in all ==> all[x] == Shrunken(b, v)[x])
  {
    if rels == [] {
    } else {
      assert rels == rels[..|rels| - 1] + [rels[|rels| - 1]];
      ShrunkenOverAt(rels[..|rels| - 1], b, v, x);
    }
  }

  lemma ShrunkenOverAll(rels: seq<string>, b: Baseline, v: Violations)
    requires forall rel :: rel in rels <==> rel in b
    ensures ShrunkenOver(rels, b, v) == Shrunken(b, v)
  {
    forall x ensures x in ShrunkenOver(rels, b, v) <==> x in Shrunken(b, v)
             ensures x in Shrunken(b, v) ==> ShrunkenOver(rels, b, v)[x] == Shrunken(b, v)[x]
    {
      ShrunkenOverAt(rels, b, v, x);
    }
  }

  /** _shrunken_baseline, over the entries in the order the dictionary gives them. */
  method ShrinkBaseline(b: Baseline, rels: seq<string>, v: Violations) returns (survivors: Baseline)
    requires forall rel :: rel in rels <==> rel in b
    ensures survivors == Shrunken(b, v)
  {
    survivors := map[];
    for i := 0 to |rels|
      invariant survivors == ShrunkenOver(rels[..i], b, v)
    {
      var rel := rels[i];
      assert rels[..i + 1][..i] == rels[..i];
      var now := Count(v, rel);
      if now > 0 {
        survivors := survivors[rel := if b[rel] < now then b[rel] else now];
      }
    }
    assert rels[..|rels|] == rels;
    ShrunkenOverAll(rels, b, v);
  }

  // ---- Filters ----

  lemma {:induction false} FilterHas(xs: seq<string>, keep: Test, x: string)
    ensures x in Filter(xs, keep) <==> x in xs && keep(x)
  {
    if xs == [] {
    } else {
      assert xs == xs[..|xs| - 1] + [xs[|xs| - 1]];
      FilterHas(xs[..|xs| - 1], keep, x);
    }
  }

  lemma {:induction false} FilterAgrees(xs: seq<string>, keep: Test, other: Test)
    requires forall x | x in xs :: keep(x) == other(x)
    ensures Filter(xs, keep) == Filter(xs, other)
  {
    if xs == [] {
    } else {
      assert xs == xs[..|xs| - 1] + [xs[|xs| - 1]];
      FilterAgrees(xs[..|xs| - 1], keep, other);
    }
  }

  lemma FilterEmpty(xs: seq<string>, keep: Test)
    ensures Filter(xs, keep) == [] <==> forall x | x in xs :: !keep(x)
  {
    forall x ensures x in Filter(xs, keep) <==> x in xs && keep(x) { FilterHas(xs, keep, x); }
    if Filter(xs, keep) != [] { assert Filter(xs, keep)[0] in Filter(xs, keep); }
  }

  lemma {:induction false} FilterAscends(xs: seq<string>, keep: Test)
    requires Ascending(xs)
    ensures Ascending(Filter(xs, keep))
  {
    if xs == [] {
    } else {
      var front, last := xs[..|xs| - 1], xs[|xs| - 1];
      assert xs == front + [last];
      FilterAscends(front, keep);
      var before := Filter(front, keep);
      forall i | 0 <= i < |before| ensures Le(before[i], last) && before[i] != last {
        FilterHas(front, keep, before[i]);
        assert before[i] in before;
        var k :| 0 <= k < |front| && front[k] == before[i];
        assert xs[k] == front[k] && xs[|front|] == last;
      }
    }
  }

  /** Whether a file is judged at all. */
  predicate Judged(scope: Scope, rel: string) {
    scope.changed == None || rel in scope.changed.value
  }

  /** What the lists say of a file that is judged: it has violations and is not listed; it has more than its
      entry; it has fewer. */
  lemma ListsAre(v: Violations, b: Baseline, scope: Scope, rel: string)
    ensures var r := Judge(v, b, scope);
            && (rel in r.newOffenders <==> rel in v && Judged(scope, rel) && rel !in b)
            && (rel in r.grown <==> rel in v && Judged(scope, rel) && rel in b && |v[rel]| > b[rel])
            && (rel in r.shrunk <==> rel in b && Judged(scope, rel) && (if rel in v then |v[rel]| else 0) < b[rel])
  {
    FilterHas(Sorted(v.Keys), IsNew(b, scope), rel);
    FilterHas(Sorted(v.Keys), IsGrown(v, b, scope), rel);
    FilterHas(Sorted(b.Keys), IsShrunk(v, b, scope), rel);
  }

  /** And the lines found: the violations, on lines the change adds, of a listed file that has not grown. */
  lemma AddedLinesAre(v: Violations, b: Baseline, scope: Scope, rel: string, line: int)
    ensures var found := Judge(v, b, scope).addedLineOffenders;
            rel in found && line in found[rel] <==>
            && rel in v && Judged(scope, rel) && rel in b && |v[rel]| <= b[rel] && line in v[rel]
            && scope.added.Some? && rel in scope.added.value && line in scope.added.value[rel]
  {
    AddedLinesMean(v, b, scope, rel, line);
  }

  lemma AddedLinesMean(v: Violations, b: Baseline, scope: Scope, rel: string, line: int)
    ensures line in OnAdded(v, b, scope, rel) <==>
            && rel in v && Judged(scope, rel) && rel in b && |v[rel]| <= b[rel] && line in v[rel]
            && scope.added.Some? && rel in scope.added.value && line in scope.added.value[rel]
  {
  }

  /** The lists are sorted, without repetition, and no file has an empty set of offending lines. */
  lemma VerdictsAreSorted(v: Violations, b: Baseline, scope: Scope)
    ensures var r := Judge(v, b, scope);
            && Ascending(r.newOffenders) && Ascending(r.grown) && Ascending(r.shrunk)
            && forall rel | rel in r.addedLineOffenders :: r.addedLineOffenders[rel] != {}
  {
    SortedAscends(v.Keys);
    SortedAscends(b.Keys);
    FilterAscends(Sorted(v.Keys), IsNew(b, scope));
    FilterAscends(Sorted(v.Keys), IsGrown(v, b, scope));
    FilterAscends(Sorted(b.Keys), IsShrunk(v, b, scope));
  }

  // ---- What acceptance means ----

  ghost predicate Bounded(v: Violations, b: Baseline) {
    forall rel :: Count(v, rel) <= Ceiling(b, rel)
  }

  ghost predicate BoundedIn(v: Violations, b: Baseline, scope: Scope) {
    forall rel | scope.Has(rel) :: Count(v, rel) <= Ceiling(b, rel)
  }

  lemma NothingNew(v: Violations, b: Baseline, scope: Scope)
    ensures Judge(v, b, scope).newOffenders == [] <==> forall rel | rel in v && scope.Has(rel) :: rel in b
  {
    FilterEmpty(Sorted(v.Keys), IsNew(b, scope));
    if rel :| rel in v && scope.Has(rel) && rel !in b { assert IsNew(b, scope)(rel); }
  }

  lemma NothingGrown(v: Violations, b: Baseline, scope: Scope)
    ensures Judge(v, b, scope).grown == [] <==>
            forall rel | rel in v && rel in b && scope.Has(rel) :: Count(v, rel) <= b[rel]
  {
    FilterEmpty(Sorted(v.Keys), IsGrown(v, b, scope));
    if rel :| rel in v && rel in b && scope.Has(rel) && Count(v, rel) > b[rel] { assert IsGrown(v, b, scope)(rel); }
  }

  lemma NothingNewOrGrown(v: Violations, b: Baseline, scope: Scope)
    requires Scanned(v)
    ensures Judge(v, b, scope).newOffenders == [] && Judge(v, b, scope).grown == [] <==> BoundedIn(v, b, scope)
  {
    NothingNew(v, b, scope);
    NothingGrown(v, b, scope);
    if BoundedIn(v, b, scope) {
      forall rel | rel in v && scope.Has(rel) ensures rel in b && Count(v, rel) <= b[rel] {
        assert 0 < Count(v, rel) <= Ceiling(b, rel);
      }
    }
  }

  lemma NothingShrunk(v: Violations, b: Baseline, scope: Scope)
    ensures Judge(v, b, scope).shrunk == [] <==> forall rel | scope.Has(rel) :: Ceiling(b, rel) <= Count(v, rel)
  {
    FilterEmpty(Sorted(b.Keys), IsShrunk(v, b, scope));
    if Judge(v, b, scope).shrunk == [] {
      forall rel | scope.Has(rel) ensures Ceiling(b, rel) <= Count(v, rel) {
        if rel in b { assert !IsShrunk(v, b, scope)(rel); }
      }
    }
  }

  /** No violation of a file in scope lies on a line the change adds to it. */
  ghost predicate NoneOnAdded(v: Violations, scope: Scope) {
    forall rel | rel in v && scope.Has(rel) :: (set line | line in v[rel]) * scope.LinesAddedTo(rel) == {}
  }

  lemma FoundNothing(rels: set<string>, on: string -> set<int>)
    ensures Found(rels, on) == map[] <==> forall rel | rel in rels :: on(rel) == {}
  {
    if rel :| rel in rels && on(rel) != {} { assert rel in Found(rels, on); }
  }

  lemma NothingOnAdded(v: Violations, b: Baseline, scope: Scope)
    requires Scanned(v) && BoundedIn(v, b, scope)
    ensures Judge(v, b, scope).addedLineOffenders == map[] <==> NoneOnAdded(v, scope)
  {
    forall rel | rel in v
      ensures AddedLines(v, b, scope)(rel) == {} <==>
              (scope.Has(rel) ==> (set line | line in v[rel]) * scope.LinesAddedTo(rel) == {})
    {
      if scope.Has(rel) { assert Count(v, rel) <= Ceiling(b, rel); }
    }
    FoundNothing(v.Keys, AddedLines(v, b, scope));
  }

  /** The gate passes exactly when every file in scope has as many violations as the baseline says, no fewer
      and no more, and none of them on a line the change adds. */
  lemma AcceptsExactly(v: Violations, b: Baseline, scope: Scope)
    requires Scanned(v)
    ensures Judge(v, b, scope).Accepts() <==>
            (forall rel | scope.Has(rel) :: Count(v, rel) == Ceiling(b, rel)) && NoneOnAdded(v, scope)
  {
    NothingNewOrGrown(v, b, scope);
    NothingShrunk(v, b, scope);
    if BoundedIn(v, b, scope) { NothingOnAdded(v, b, scope); }
  }

  // ---- Scoped enforcement equals enforcement over the whole tree ----

  /** The change from one scan to another alters only files in its scope. */
  ghost predicate Covers(scope: Scope, before: Violations, after: Violations) {
    forall rel | !scope.Has(rel) :: Count(after, rel) == Count(before, rel)
  }

  /** From a tree within its baseline, judging only the files a change touches finds the new offenders and
      the grown files that judging the whole tree would. */
  lemma ScopedEqualsUnscoped(before: Violations, after: Violations, b: Baseline, scope: Scope)
    requires Bounded(before, b) && Covers(scope, before, after) && Scanned(after)
    ensures Judge(after, b, scope).newOffenders == Judge(after, b, WHOLE_TREE).newOffenders
    ensures Judge(after, b, scope).grown == Judge(after, b, WHOLE_TREE).grown
  {
    var rels := Sorted(after.Keys);
    forall rel | rel in rels
      ensures IsNew(b, scope)(rel) == IsNew(b, WHOLE_TREE)(rel)
      ensures IsGrown(after, b, scope)(rel) == IsGrown(after, b, WHOLE_TREE)(rel)
    {
      if !scope.Has(rel) { assert Count(after, rel) == Count(before, rel) <= Ceiling(b, rel); }
    }
    FilterAgrees(rels, IsNew(b, scope), IsNew(b, WHOLE_TREE));
    FilterAgrees(rels, IsGrown(after, b, scope), IsGrown(after, b, WHOLE_TREE));
  }

  /** An accepted change keeps the tree within the baseline, although only its own files were judged. */
  lemma AcceptanceKeepsBounded(before: Violations, after: Violations, b: Baseline, scope: Scope)
    requires Bounded(before, b) && Covers(scope, before, after) && Scanned(after)
    ensures Judge(after, b, scope).newOffenders == [] && Judge(after, b, scope).grown == [] <==> Bounded(after, b)
  {
    NothingNewOrGrown(after, b, scope);
    if BoundedIn(after, b, scope) {
      forall rel ensures Count(after, rel) <= Ceiling(b, rel) {
        if !scope.Has(rel) { assert Count(after, rel) == Count(before, rel) <= Ceiling(b, rel); }
      }
    }
  }

  // ---- What a refresh may not do ----

  /** No entry is added or raised. */
  ghost predicate Lowered(now: Baseline, was: Baseline) {
    forall rel | rel in now :: rel in was && now[rel] <= was[rel]
  }

  lemma RefreshedFile(v: Violations, b: Baseline, scope: Scope, rel: string)
    requires rel in v && v[rel] != []
    ensures var now := Shrunken(b, v);
            && IsNew(now, scope)(rel) == IsNew(b, scope)(rel)
            && IsGrown(v, now, scope)(rel) == IsGrown(v, b, scope)(rel)
            && OnAdded(v, now, scope, rel) == OnAdded(v, b, scope, rel)
  {
    assert Count(v, rel) > 0;
  }

  lemma RefreshOnlyLowers(v: Violations, b: Baseline)
    ensures Lowered(Shrunken(b, v), b)
  {
  }

  lemma NothingLeftToPrune(v: Violations, b: Baseline, scope: Scope)
    ensures Filter(Sorted(Shrunken(b, v).Keys), IsShrunk(v, Shrunken(b, v), scope)) == []
  {
    forall rel ensures Ceiling(Shrunken(b, v), rel) <= Count(v, rel) {
    }
    FilterEmpty(Sorted(Shrunken(b, v).Keys), IsShrunk(v, Shrunken(b, v), scope));
  }

  lemma RefreshedLines(v: Violations, b: Baseline, scope: Scope)
    requires Scanned(v)
    ensures Found(v.Keys, AddedLines(v, Shrunken(b, v), scope)) == Found(v.Keys, AddedLines(v, b, scope))
  {
    forall rel | rel in v ensures AddedLines(v, Shrunken(b, v), scope)(rel) == AddedLines(v, b, scope)(rel) {
      RefreshedFile(v, b, scope, rel);
    }
    FoundAgrees(v.Keys, AddedLines(v, Shrunken(b, v), scope), AddedLines(v, b, scope));
  }

  /** A refresh only lowers; afterwards the same scan has nothing to prune, and the new offenders, the grown
      files and the violations on added lines are what they were. */
  lemma RefreshHidesNothing(v: Violations, b: Baseline, scope: Scope)
    requires Scanned(v)
    ensures Lowered(Shrunken(b, v), b)
    ensures Judge(v, Shrunken(b, v), scope) == Judge(v, b, scope).(shrunk := [])
  {
    RefreshOnlyLowers(v, b);
    RefreshedFiles(v, b, scope, Sorted(v.Keys));
    RefreshedLines(v, b, scope);
    NothingLeftToPrune(v, b, scope);
  }

  lemma FoundAgrees(rels: set<string>, on: string -> set<int>, other: string -> set<int>)
    requires forall rel | rel in rels :: on(rel) == other(rel)
    ensures Found(rels, on) == Found(rels, other)
  {
  }

  lemma RefreshedFiles(v: Violations, b: Baseline, scope: Scope, rels: seq<string>)
    requires forall rel | rel in rels :: rel in v && v[rel] != []
    ensures Filter(rels, IsNew(Shrunken(b, v), scope)) == Filter(rels, IsNew(b, scope))
    ensures Filter(rels, IsGrown(v, Shrunken(b, v), scope)) == Filter(rels, IsGrown(v, b, scope))
  {
    forall rel | rel in rels
      ensures IsNew(Shrunken(b, v), scope)(rel) == IsNew(b, scope)(rel)
      ensures IsGrown(v, Shrunken(b, v), scope)(rel) == IsGrown(v, b, scope)(rel)
    {
      RefreshedFile(v, b, scope, rel);
    }
    FilterAgrees(rels, IsNew(Shrunken(b, v), scope), IsNew(b, scope));
    FilterAgrees(rels, IsGrown(v, Shrunken(b, v), scope), IsGrown(v, b, scope));
  }

  /** An entry stays exactly while its file has violations, and then is the lesser of what it was and their
      number: a grown file's entry stays as it is. */
  lemma RefreshedEntry(v: Violations, b: Baseline, rel: string)
    ensures var now := Shrunken(b, v);
            && (rel in now <==> rel in b && rel in v && v[rel] != [])
            && (rel in now ==> now[rel] <= b[rel] && now[rel] <= |v[rel]| && (now[rel] == b[rel] || now[rel] == |v[rel]|))
  {
  }

  lemma RefreshKeepsBounded(v: Violations, b: Baseline)
    ensures Bounded(v, Shrunken(b, v)) <==> Bounded(v, b)
  {
    forall rel ensures Count(v, rel) <= Ceiling(Shrunken(b, v), rel) <==> Count(v, rel) <= Ceiling(b, rel) {
    }
  }

  // ---- Whole histories ----

  /** A change as the gate sees it: the tree it leaves, whether its author refreshed the baseline, and scope. */
  datatype Change = Change(tree: Violations, refreshed: bool, scope: Scope)

  datatype Repository = Repository(tree: Violations, baseline: Baseline)

  function Merge(repo: Repository, c: Change): Repository {
    Repository(c.tree, if c.refreshed then Shrunken(repo.baseline, c.tree) else repo.baseline)
  }

  /** The change's scope covers what it alters, and the gate accepts what it leaves. */
  ghost predicate Accepted(repo: Repository, c: Change) {
    && Scanned(c.tree) && Covers(c.scope, repo.tree, c.tree)
    && Judge(c.tree, Merge(repo, c).baseline, c.scope).Accepts()
  }

  function MergeAll(repo: Repository, cs: seq<Change>): Repository {
    if cs == [] then repo else Merge(MergeAll(repo, cs[..|cs| - 1]), cs[|cs| - 1])
  }

  ghost predicate AllAccepted(repo: Repository, cs: seq<Change>) {
    cs == [] || (AllAccepted(repo, cs[..|cs| - 1]) && Accepted(MergeAll(repo, cs[..|cs| - 1]), cs[|cs| - 1]))
  }

  lemma AcceptedStep(repo: Repository, c: Change)
    requires Bounded(repo.tree, repo.baseline) && Accepted(repo, c)
    ensures Bounded(c.tree, Merge(repo, c).baseline)
    ensures Lowered(Merge(repo, c).baseline, repo.baseline)
  {
    RefreshHidesNothing(c.tree, repo.baseline, c.scope);
    AcceptanceKeepsBounded(repo.tree, c.tree, repo.baseline, c.scope);
    RefreshKeepsBounded(c.tree, repo.baseline);
  }

  /** Over any history of accepted changes, refreshed or not and however narrow their scopes, the whole tree
      stays within its baseline, the baseline is only ever lowered, and so no file ever has more violations
      than the first baseline allowed it. */
  lemma {:induction false} HistoryOnlyShrinks(repo: Repository, cs: seq<Change>)
    requires Bounded(repo.tree, repo.baseline) && AllAccepted(repo, cs)
    ensures var last := MergeAll(repo, cs);
            && Bounded(last.tree, last.baseline) && Lowered(last.baseline, repo.baseline)
            && Bounded(last.tree, repo.baseline)
  {
    if cs == [] {
    } else {
      var before, c := MergeAll(repo, cs[..|cs| - 1]), cs[|cs| - 1];
      HistoryOnlyShrinks(repo, cs[..|cs| - 1]);
      AcceptedStep(before, c);
      LoweredIsTransitive(Merge(before, c).baseline, before.baseline, repo.baseline);
    }
    LoweredKeepsBounded(MergeAll(repo, cs).tree, MergeAll(repo, cs).baseline, repo.baseline);
  }

  lemma LoweredIsTransitive(a: Baseline, b: Baseline, c: Baseline)
    requires Lowered(a, b) && Lowered(b, c)
    ensures Lowered(a, c)
  {
    forall rel | rel in a ensures rel in c && a[rel] <= c[rel] { assert rel in b; }
  }

  lemma LoweredKeepsBounded(v: Violations, now: Baseline, was: Baseline)
    requires Bounded(v, now) && Lowered(now, was)
    ensures Bounded(v, was)
  {
    forall rel ensures Count(v, rel) <= Ceiling(was, rel) {
      assert Count(v, rel) <= Ceiling(now, rel) <= Ceiling(was, rel);
    }
  }
}
