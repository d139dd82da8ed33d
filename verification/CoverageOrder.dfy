/** When the order of the lines in a coverage report matters to the merge, and when it cannot. */
module CoverageOrder {
  import opened Wrappers
  import opened StringOrder
  import opened CoverageMerge

  // ---- Keys of unnumbered lines, by position ----

  ghost predicate Bare(occ: seq<Occurrence>, i: int) {
    0 <= i < |occ| && occ[i].line.number.None?
  }

  /** The key an unnumbered line at i is filed under. */
  function KeyAt(occ: seq<Occurrence>, i: nat): int
    requires i <= |occ|
  {
    -1 - Unnumbered(occ[..i])
  }

  ghost predicate FreshAt(occ: seq<Occurrence>, pick: Pick, i: int, x: int) {
    Bare(occ, i) && pick(occ[i]) && KeyAt(occ, i) == x
  }

  lemma PrefixKeys(occ: seq<Occurrence>, i: nat)
    requires i < |occ|
    ensures KeyAt(occ[..|occ| - 1], i) == KeyAt(occ, i)
  {
    assert occ[..|occ| - 1][..i] == occ[..i];
  }

  lemma {:induction false} FreshKeysAre(occ: seq<Occurrence>, pick: Pick, x: int)
    ensures x in FreshKeys(occ, pick) <==> exists i :: FreshAt(occ, pick, i, x)
  {
    if occ == [] {
    } else {
      var n := |occ| - 1;
      var front := occ[..n];
      FreshKeysAre(front, pick, x);
      if i :| FreshAt(front, pick, i, x) {
        PrefixKeys(occ, i);
        assert FreshAt(occ, pick, i, x);
      }
      if i :| FreshAt(occ, pick, i, x) && i < n {
        PrefixKeys(occ, i);
        assert FreshAt(front, pick, i, x);
      }
      if x in FreshKeys(occ, pick) && x !in FreshKeys(front, pick) {
        assert FreshAt(occ, pick, n, x);
      }
    }
  }

  lemma {:induction false} UnnumberedGrows(occ: seq<Occurrence>, i: nat, j: nat)
    requires i <= j <= |occ|
    ensures Unnumbered(occ[..i]) <= Unnumbered(occ[..j])
    ensures i < j && occ[i].line.number.None? ==> Unnumbered(occ[..i]) < Unnumbered(occ[..j])
    decreases j - i
  {
    if i == j {
    } else {
      UnnumberedGrows(occ, i, j - 1);
      assert occ[..j][..j - 1] == occ[..j - 1];
    }
  }

  lemma KeysDiffer(occ: seq<Occurrence>, i: nat, j: nat)
    requires Bare(occ, i) && Bare(occ, j) && i != j
    ensures KeyAt(occ, i) != KeyAt(occ, j)
  {
    if i < j { UnnumberedGrows(occ, i, j); } else { UnnumberedGrows(occ, j, i); }
  }

  /** Every key in the range belongs to an unnumbered line. */
  lemma {:induction false} KeyOwner(occ: seq<Occurrence>, x: int) returns (i: nat)
    requires 0 - Unnumbered(occ) <= x < 0
    ensures Bare(occ, i) && KeyAt(occ, i) == x
  {
    var n := |occ| - 1;
    var front := occ[..n];
    if occ[n].line.number.None? && x == -1 - Unnumbered(front) {
      i := n;
    } else {
      i := KeyOwner(front, x);
      PrefixKeys(occ, i);
    }
  }

  // ---- Counting the chosen ones ----

  lemma {:induction false} SomeChosen(occ: seq<Occurrence>, pick: Pick) returns (i: nat)
    requires UnnumberedIn(occ, pick) > 0
    ensures Bare(occ, i) && pick(occ[i])
  {
    var n := |occ| - 1;
    if occ[n].line.number.None? && pick(occ[n]) {
      i := n;
    } else {
      i := SomeChosen(occ[..n], pick);
    }
  }

  lemma {:induction false} ChosenAmongAll(occ: seq<Occurrence>, pick: Pick)
    ensures UnnumberedIn(occ, pick) <= Unnumbered(occ)
  {
    if occ == [] {
    } else {
      ChosenAmongAll(occ[..|occ| - 1], pick);
    }
  }

  lemma {:induction false} SomeUnchosen(occ: seq<Occurrence>, pick: Pick) returns (i: nat)
    requires UnnumberedIn(occ, pick) < Unnumbered(occ)
    ensures Bare(occ, i) && !pick(occ[i])
  {
    var n := |occ| - 1;
    if occ[n].line.number.None? && !pick(occ[n]) {
      i := n;
    } else {
      i := SomeUnchosen(occ[..n], pick);
    }
  }

  // ---- Exchanging two unnumbered lines ----

  function Exchange(occ: seq<Occurrence>, i: nat, j: nat): seq<Occurrence>
    requires i < |occ| && j < |occ|
  {
    occ[i := occ[j]][j := occ[i]]
  }

  /** The same lines are unnumbered. */
  ghost predicate SamePattern(a: seq<Occurrence>, b: seq<Occurrence>) {
    |a| == |b| && forall k | 0 <= k < |a| :: a[k].line.number.None? <==> b[k].line.number.None?
  }

  lemma {:induction false} SamePatternSameCount(a: seq<Occurrence>, b: seq<Occurrence>)
    requires SamePattern(a, b)
    ensures Unnumbered(a) == Unnumbered(b)
  {
    if a == [] {
    } else {
      SamePatternSameCount(a[..|a| - 1], b[..|b| - 1]);
    }
  }

  lemma ExchangedKeys(occ: seq<Occurrence>, i: nat, j: nat, k: nat)
    requires Bare(occ, i) && Bare(occ, j) && k < |occ|
    ensures KeyAt(Exchange(occ, i, j), k) == KeyAt(occ, k)
    ensures Bare(Exchange(occ, i, j), k) <==> Bare(occ, k)
  {
    SamePatternSameCount(occ[..k], Exchange(occ, i, j)[..k]);
  }

  /** A chosen line at i and another at j change places: j's key becomes one of the chosen, i's ceases to be. */
  lemma ExchangedFresh(occ: seq<Occurrence>, pick: Pick, i: nat, j: nat)
    requires Bare(occ, i) && Bare(occ, j) && pick(occ[i]) && !pick(occ[j])
    ensures KeyAt(occ, i) in FreshKeys(occ, pick) && KeyAt(occ, j) !in FreshKeys(occ, pick)
    ensures FreshKeys(Exchange(occ, i, j), pick) == FreshKeys(occ, pick) - {KeyAt(occ, i)} + {KeyAt(occ, j)}
  {
    var b := Exchange(occ, i, j);
    forall x
      ensures x in FreshKeys(b, pick) <==> (x in FreshKeys(occ, pick) && x != KeyAt(occ, i)) || x == KeyAt(occ, j)
      ensures KeyAt(occ, i) in FreshKeys(occ, pick) && KeyAt(occ, j) !in FreshKeys(occ, pick)
    {
      ExchangedFreshAt(occ, pick, i, j, x);
    }
  }

  lemma ExchangedFreshAt(occ: seq<Occurrence>, pick: Pick, i: nat, j: nat, x: int)
    requires Bare(occ, i) && Bare(occ, j) && pick(occ[i]) && !pick(occ[j])
    ensures x in FreshKeys(Exchange(occ, i, j), pick) <==>
            (x in FreshKeys(occ, pick) && x != KeyAt(occ, i)) || x == KeyAt(occ, j)
    ensures KeyAt(occ, i) in FreshKeys(occ, pick) && KeyAt(occ, j) !in FreshKeys(occ, pick)
  {
    var b := Exchange(occ, i, j);
    forall k: nat | k < |occ| ensures KeyAt(b, k) == KeyAt(occ, k) && (Bare(b, k) <==> Bare(occ, k)) {
      ExchangedKeys(occ, i, j, k);
    }
    forall k: nat, l: nat | Bare(occ, k) && Bare(occ, l) && k != l ensures KeyAt(occ, k) != KeyAt(occ, l) {
      KeysDiffer(occ, k, l);
    }
    FreshKeysAre(b, pick, x);
    FreshKeysAre(occ, pick, x);
    FreshKeysAre(occ, pick, KeyAt(occ, i));
    FreshKeysAre(occ, pick, KeyAt(occ, j));
    assert FreshAt(occ, pick, i, KeyAt(occ, i));
    assert FreshAt(b, pick, j, KeyAt(occ, j));
    if k :| FreshAt(b, pick, k, x) && x != KeyAt(occ, j) {
      assert FreshAt(occ, pick, k, x);
    }
    if k :| FreshAt(occ, pick, k, x) && x != KeyAt(occ, i) {
      assert FreshAt(b, pick, k, x);
    }
  }

  // ---- When order cannot matter ----

  function Negatives(n: nat): (r: set<int>)
    ensures forall x :: x in r <==> 0 - (n as int) <= x < 0
    ensures |r| == n
  {
    if n == 0 then {} else Negatives(n - 1) + {0 - (n as int)}
  }

  /** The chosen explicit numbers that could be a key of an unnumbered line of the report. */
  function Suspects(occ: seq<Occurrence>, pick: Pick): set<int> {
    Numbers(occ, pick) * Negatives(Unnumbered(occ))
  }

  /** Of the report's unnumbered lines none is chosen, or all are; or of the numbers that could collide none
      is there, or all are. */
  predicate OrderProof(occ: seq<Occurrence>, pick: Pick) {
    || UnnumberedIn(occ, pick) == 0 || UnnumberedIn(occ, pick) == Unnumbered(occ)
    || Suspects(occ, pick) == {} || |Suspects(occ, pick)| == Unnumbered(occ)
  }

  lemma CollisionsAreSuspects(occ: seq<Occurrence>, pick: Pick)
    ensures Collisions(occ, pick) == Suspects(occ, pick) * FreshKeys(occ, pick)
    ensures FreshKeys(occ, pick) <= Negatives(Unnumbered(occ))
  {
    FreshKeysCount(occ, pick);
  }

  lemma SubsetOfSameSize(a: set<int>, b: set<int>)
    requires a <= b && |a| == |b|
    ensures a == b
  {
    assert b == a + (b - a);
    assert |b| == |a| + |b - a|;
  }

  /** Under those conditions the number of collisions can be told without the order. */
  lemma CollisionsCounted(occ: seq<Occurrence>, pick: Pick)
    requires OrderProof(occ, pick)
    ensures |Collisions(occ, pick)| ==
            if UnnumberedIn(occ, pick) == 0 || Suspects(occ, pick) == {} then 0
            else if UnnumberedIn(occ, pick) == Unnumbered(occ) then |Suspects(occ, pick)|
            else UnnumberedIn(occ, pick)
  {
    var handed, all := FreshKeys(occ, pick), Negatives(Unnumbered(occ));
    CollisionsAreSuspects(occ, pick);
    FreshKeysCount(occ, pick);
    if UnnumberedIn(occ, pick) == Unnumbered(occ) {
      SubsetOfSameSize(handed, all);
      assert Suspects(occ, pick) * handed == Suspects(occ, pick);
    } else if |Suspects(occ, pick)| == Unnumbered(occ) {
      SubsetOfSameSize(Suspects(occ, pick), all);
      assert Suspects(occ, pick) * handed == handed;
    }
  }

  function Anything(): Pick { (o: Occurrence) => true }

  lemma {:induction false} UnnumberedIsChosen(occ: seq<Occurrence>)
    ensures Unnumbered(occ) == UnnumberedIn(occ, Anything())
  {
    if occ == [] {
    } else {
      UnnumberedIsChosen(occ[..|occ| - 1]);
    }
  }

  lemma SameLinesSameCounts(a: seq<Occurrence>, b: seq<Occurrence>, pick: Pick)
    requires multiset(a) == multiset(b)
    ensures Unnumbered(a) == Unnumbered(b) && UnnumberedIn(a, pick) == UnnumberedIn(b, pick)
    ensures Suspects(a, pick) == Suspects(b, pick)
  {
    UnnumberedFollowsLines(a, b, pick);
    UnnumberedFollowsLines(a, b, Anything());
    UnnumberedIsChosen(a);
    UnnumberedIsChosen(b);
    NumbersFollowLines(a, b, pick);
  }

  lemma ProofAgainstOrder(a: seq<Occurrence>, b: seq<Occurrence>, pick: Pick)
    requires multiset(a) == multiset(b) && OrderProof(a, pick)
    ensures |Keys(a, pick)| == |Keys(b, pick)|
  {
    SameLinesSameCounts(a, b, pick);
    CollisionsCounted(a, pick);
    CollisionsCounted(b, pick);
    LinesFollow(a, b, pick);
  }

  // ---- When it can ----

  lemma ExchangeIsReordering(occ: seq<Occurrence>, i: nat, j: nat)
    requires i < |occ| && j < |occ|
    ensures multiset(Exchange(occ, i, j)) == multiset(occ)
  {
  }

  lemma NumbersFollowLines(a: seq<Occurrence>, b: seq<Occurrence>, pick: Pick)
    requires multiset(a) == multiset(b)
    ensures Numbers(a, pick) == Numbers(b, pick)
  {
    assert forall o :: (o in a <==> o in multiset(a)) && (o in b <==> o in multiset(b));
  }

  lemma ReplacedOverlap(numbers: set<int>, handed: set<int>, x: int, y: int)
    requires x in handed && y !in handed && (x in numbers <==> y !in numbers)
    ensures |numbers * (handed - {x} + {y})| != |numbers * handed|
  {
    var was, now := numbers * handed, numbers * (handed - {x} + {y});
    if x in numbers {
      assert now == was - {x};
    } else {
      assert now == was + {y};
    }
  }

  /** Exchanging a chosen and an unchosen unnumbered line, exactly one of whose keys is a chosen number, changes
      the count. */
  lemma ExchangeChangesCount(occ: seq<Occurrence>, pick: Pick, i: nat, j: nat)
    requires Bare(occ, i) && Bare(occ, j) && pick(occ[i]) && !pick(occ[j])
    requires KeyAt(occ, i) in Numbers(occ, pick) <==> KeyAt(occ, j) !in Numbers(occ, pick)
    ensures multiset(Exchange(occ, i, j)) == multiset(occ)
    ensures |Keys(Exchange(occ, i, j), pick)| != |Keys(occ, pick)|
  {
    ExchangeIsReordering(occ, i, j);
    ExchangedFresh(occ, pick, i, j);
    NumbersFollowLines(occ, Exchange(occ, i, j), pick);
    ReplacedOverlap(Numbers(occ, pick), FreshKeys(occ, pick), KeyAt(occ, i), KeyAt(occ, j));
    LinesFollow(occ, Exchange(occ, i, j), pick);
  }

  /** An unnumbered line that is chosen and one that is not, such that exactly one of their keys is a chosen
      number. */
  lemma PairToExchange(occ: seq<Occurrence>, pick: Pick) returns (i: nat, j: nat)
    requires !OrderProof(occ, pick)
    ensures Bare(occ, i) && Bare(occ, j) && pick(occ[i]) && !pick(occ[j])
    ensures KeyAt(occ, i) in Numbers(occ, pick) <==> KeyAt(occ, j) !in Numbers(occ, pick)
  {
    var x, y := SuspectAndInnocent(occ, pick);
    var a := KeyOwner(occ, x);
    var b := KeyOwner(occ, y);
    if pick(occ[a]) != pick(occ[b]) {
      i, j := if pick(occ[a]) then a else b, if pick(occ[a]) then b else a;
    } else if pick(occ[a]) {
      ChosenAmongAll(occ, pick);
      j := SomeUnchosen(occ, pick);
      i := if KeyAt(occ, j) in Numbers(occ, pick) then b else a;
    } else {
      i := SomeChosen(occ, pick);
      j := if KeyAt(occ, i) in Numbers(occ, pick) then b else a;
    }
  }

  /** A key in the range that is a chosen number, and one that is not. */
  lemma SuspectAndInnocent(occ: seq<Occurrence>, pick: Pick) returns (x: int, y: int)
    requires !OrderProof(occ, pick)
    ensures 0 - Unnumbered(occ) <= x < 0 && x in Numbers(occ, pick)
    ensures 0 - Unnumbered(occ) <= y < 0 && y !in Numbers(occ, pick)
  {
    var s, all := Suspects(occ, pick), Negatives(Unnumbered(occ));
    x :| x in s;
    assert s != all;
    y :| y in all && y !in s;
  }

  /** However the lines are ordered, as many distinct keys are chosen. */
  ghost predicate CountIsSettled(occ: seq<Occurrence>, pick: Pick) {
    forall b | multiset(b) == multiset(occ) :: |Keys(b, pick)| == |Keys(occ, pick)|
  }

  /** The order of the lines of a report cannot change the count of a choice of them, exactly when one of the
      four conditions holds: something the holder of one report can check. */
  lemma OrderCannotMatterExactly(occ: seq<Occurrence>, pick: Pick)
    ensures CountIsSettled(occ, pick) <==> OrderProof(occ, pick)
  {
    if OrderProof(occ, pick) {
      forall b | multiset(b) == multiset(occ) ensures |Keys(b, pick)| == |Keys(occ, pick)| {
        ProofAgainstOrder(occ, b, pick);
      }
    } else {
      var i, j := PairToExchange(occ, pick);
      ExchangeChangesCount(occ, pick, i, j);
    }
  }

  // ---- The same for reports ----

  /** Each line in a class element of its own. */
  function Apart(occ: seq<Occurrence>): seq<ClassElement> {
    if occ == [] then []
    else Apart(occ[..|occ| - 1]) + [ClassElement(occ[|occ| - 1].path, [occ[|occ| - 1].line])]
  }

  lemma {:induction false} ApartHasThem(occ: seq<Occurrence>)
    requires forall i | 0 <= i < |occ| :: occ[i].path != ""
    ensures Occurrences(Apart(occ)) == occ
  {
    if occ == [] {
    } else {
      var front, o := occ[..|occ| - 1], occ[|occ| - 1];
      ApartHasThem(front);
      assert Apart(occ)[..|Apart(front)|] == Apart(front);
      assert Tag(o.path, [o.line]) == [] + [o];
    }
  }

  lemma {:induction false} TaggedPaths(name: string, lines: seq<LineElement>)
    requires name != ""
    ensures forall o | o in Tag(name, lines) :: o.path != ""
  {
    if lines == [] {
    } else {
      TaggedPaths(name, lines[..|lines| - 1]);
    }
  }

  lemma {:induction false} PathsAreNamed(elements: seq<ClassElement>)
    ensures forall o | o in Occurrences(elements) :: o.path != ""
  {
    if elements == [] {
    } else {
      var last := elements[|elements| - 1];
      PathsAreNamed(elements[..|elements| - 1]);
      if last.name != "" { TaggedPaths(last.name, last.lines); }
    }
  }

  lemma ReorderedReport(elements: seq<ClassElement>, b: seq<Occurrence>)
    requires multiset(b) == multiset(Occurrences(elements))
    ensures Occurrences(Apart(b)) == b
  {
    PathsAreNamed(elements);
    forall i | 0 <= i < |b| ensures b[i].path != "" {
      assert b[i] in multiset(b);
    }
    ApartHasThem(b);
  }

  /** Whatever reports give the same lines to the same paths, they summarize a path as this one does. */
  ghost predicate Settled(elements: seq<ClassElement>, path: string) {
    forall other: seq<ClassElement> | multiset(Occurrences(other)) == multiset(Occurrences(elements)) ::
      Summary(Occurrences(other), path) == Summary(Occurrences(elements), path)
  }

  lemma SettledSummary(elements: seq<ClassElement>, path: string)
    requires CountIsSettled(Occurrences(elements), Of(path)) && CountIsSettled(Occurrences(elements), HitOf(path))
    ensures Settled(elements, path)
  {
    var occ := Occurrences(elements);
    forall other: seq<ClassElement> | multiset(Occurrences(other)) == multiset(occ)
      ensures Summary(Occurrences(other), path) == Summary(occ, path)
    {
      assert |Keys(Occurrences(other), Of(path))| == |Keys(occ, Of(path))|;
      assert |Keys(Occurrences(other), HitOf(path))| == |Keys(occ, HitOf(path))|;
    }
  }

  lemma SettledCounts(elements: seq<ClassElement>, path: string, b: seq<Occurrence>)
    requires Settled(elements, path) && multiset(b) == multiset(Occurrences(elements))
    ensures |Keys(b, Of(path))| == |Keys(Occurrences(elements), Of(path))|
    ensures |Keys(b, HitOf(path))| == |Keys(Occurrences(elements), HitOf(path))|
  {
    ReorderedReport(elements, b);
    assert Summary(Occurrences(Apart(b)), path) == Summary(Occurrences(elements), path);
  }

  /** The summary of a path is independent of the order and the splitting of the class elements exactly when
      both its lines and its covered lines meet one of the four conditions. */
  lemma SummaryIsSettledExactly(elements: seq<ClassElement>, path: string)
    ensures Settled(elements, path) <==>
            OrderProof(Occurrences(elements), Of(path)) && OrderProof(Occurrences(elements), HitOf(path))
  {
    var occ := Occurrences(elements);
    OrderCannotMatterExactly(occ, Of(path));
    OrderCannotMatterExactly(occ, HitOf(path));
    if CountIsSettled(occ, Of(path)) && CountIsSettled(occ, HitOf(path)) {
      SettledSummary(elements, path);
    } else if Settled(elements, path) {
      forall b | multiset(b) == multiset(occ)
        ensures |Keys(b, Of(path))| == |Keys(occ, Of(path))| && |Keys(b, HitOf(path))| == |Keys(occ, HitOf(path))|
      {
        SettledCounts(elements, path, b);
      }
    }
  }
}
