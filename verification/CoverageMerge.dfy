/** Reading a Cobertura report: duplicate class elements are merged by line identity. */
module CoverageMerge {
  import opened Wrappers
  import opened StringOrder

  /** A line element: its number, if it has one, and its hit count. */
  datatype LineElement = LineElement(number: Option<int>, hits: int)

  /** A class element: its filename (or name), "" when it has neither, and its lines. */
  datatype ClassElement = ClassElement(name: string, lines: seq<LineElement>)

  datatype FileCoverage = FileCoverage(path: string, statements: nat, covered: nat)

  /** A line and the path it counts for. */
  datatype Occurrence = Occurrence(path: string, line: LineElement)

  function Tag(name: string, lines: seq<LineElement>): seq<Occurrence> {
    if lines == [] then [] else Tag(name, lines[..|lines| - 1]) + [Occurrence(name, lines[|lines| - 1])]
  }

  /** Every line of every named class, in document order. */
  function Occurrences(elements: seq<ClassElement>): seq<Occurrence> {
    if elements == [] then []
    else
      var last := elements[|elements| - 1];
      Occurrences(elements[..|elements| - 1]) + if last.name == "" then [] else Tag(last.name, last.lines)
  }

  function Paths(occ: seq<Occurrence>): set<string> {
    set o | o in occ :: o.path
  }

  /** A choice of occurrences: those of a path, or those of a path with a hit. */
  type Pick = Occurrence -> bool

  function Of(path: string): Pick { (o: Occurrence) => o.path == path }

  function HitOf(path: string): Pick { (o: Occurrence) => o.path == path && o.line.hits > 0 }

  function Unnumbered(occ: seq<Occurrence>): (n: int)
    ensures n >= 0
  {
    if occ == [] then 0
    else Unnumbered(occ[..|occ| - 1]) + if occ[|occ| - 1].line.number.None? then 1 else 0
  }

  /** The key the merge files a line under: its number, or the next unused negative one. */
  function NextKey(before: seq<Occurrence>, line: LineElement): int {
    if line.number.Some? then line.number.value else -1 - Unnumbered(before)
  }

  function Keys(occ: seq<Occurrence>, pick: Pick): set<int> {
    if occ == [] then {}
    else
      var front, last := occ[..|occ| - 1], occ[|occ| - 1];
      if pick(last) then Keys(front, pick) + {NextKey(front, last.line)} else Keys(front, pick)
  }

  /** What a path's summary says. */
  function Summary(occ: seq<Occurrence>, path: string): FileCoverage {
    FileCoverage(path, |Keys(occ, Of(path))|, |Keys(occ, HitOf(path))|)
  }

  /** One file for each path. */
  ghost predicate DistinctPaths(files: seq<FileCoverage>) {
    forall i, j | 0 <= i < j < |files| :: files[i].path != files[j].path
  }

  // ---- The merge as written ----

  type Merged = map<string, map<int, bool>>

  ghost predicate PathOk(merged: Merged, occ: seq<Occurrence>, path: string) {
    && (path in merged <==> path in Paths(occ))
    && (path in merged ==>
          && merged[path].Keys == Keys(occ, Of(path))
          && forall n | n in merged[path] :: merged[path][n] <==> n in Keys(occ, HitOf(path)))
  }

  ghost predicate Represents(merged: Merged, unnumbered: int, occ: seq<Occurrence>) {
    unnumbered + Unnumbered(occ) == 0 && forall path :: PathOk(merged, occ, path)
  }

  lemma {:induction false} HitKeysAreKeys(occ: seq<Occurrence>, path: string)
    ensures Keys(occ, HitOf(path)) <= Keys(occ, Of(path))
  {
    if occ == [] {
    } else {
      HitKeysAreKeys(occ[..|occ| - 1], path);
    }
  }

  lemma {:induction false} NoPathNoKeys(occ: seq<Occurrence>, path: string)
    requires path !in Paths(occ)
    ensures Keys(occ, Of(path)) == {}
  {
    if occ == [] {
    } else {
      var last := |occ| - 1;
      assert occ[last] in occ && forall o | o in occ[..last] :: o in occ;
      NoPathNoKeys(occ[..last], path);
    }
  }

  lemma KeysOneMore(occ: seq<Occurrence>, o: Occurrence, pick: Pick)
    ensures Keys(occ + [o], pick) == if pick(o) then Keys(occ, pick) + {NextKey(occ, o.line)} else Keys(occ, pick)
    ensures Unnumbered(occ + [o]) == Unnumbered(occ) + if o.line.number.None? then 1 else 0
  {
    assert (occ + [o])[..|occ|] == occ;
  }

  lemma PathsOneMore(occ: seq<Occurrence>, o: Occurrence)
    ensures Paths(occ + [o]) == Paths(occ) + {o.path}
  {
    assert forall x :: x in occ + [o] <==> x in occ || x == o;
    assert o in occ + [o];
  }

  /** by_line[number] = by_line.get(number, False) or hit, for the line that comes next. */
  function FileLine(merged: Merged, name: string, key: int, hit: bool): Merged {
    var byLine := if name in merged then merged[name] else map[];
    var was := if key in byLine then byLine[key] else false;
    merged[name := byLine[key := was || hit]]
  }

  lemma OwnPathAfterLine(merged: Merged, occ: seq<Occurrence>, o: Occurrence)
    requires PathOk(merged, occ, o.path)
    ensures PathOk(FileLine(merged, o.path, NextKey(occ, o.line), o.line.hits > 0), occ + [o], o.path)
  {
    PathsOneMore(occ, o);
    KeysOneMore(occ, o, Of(o.path));
    KeysOneMore(occ, o, HitOf(o.path));
    HitKeysAreKeys(occ, o.path);
    if o.path !in merged { NoPathNoKeys(occ, o.path); }
  }

  lemma OtherPathAfterLine(merged: Merged, occ: seq<Occurrence>, o: Occurrence, path: string)
    requires PathOk(merged, occ, path) && path != o.path
    ensures PathOk(FileLine(merged, o.path, NextKey(occ, o.line), o.line.hits > 0), occ + [o], path)
  {
    PathsOneMore(occ, o);
    KeysOneMore(occ, o, Of(path));
    KeysOneMore(occ, o, HitOf(path));
  }

  lemma OneMoreLine(merged: Merged, unnumbered: int, occ: seq<Occurrence>, o: Occurrence)
    requires Represents(merged, unnumbered, occ)
    ensures var next := if o.line.number.Some? then unnumbered else unnumbered - 1;
            var key := if o.line.number.Some? then o.line.number.value else next;
            Represents(FileLine(merged, o.path, key, o.line.hits > 0), next, occ + [o])
  {
    var after := FileLine(merged, o.path, NextKey(occ, o.line), o.line.hits > 0);
    forall path ensures PathOk(after, occ + [o], path) {
      assert PathOk(merged, occ, path) && PathOk(merged, occ, o.path);
      if path == o.path { OwnPathAfterLine(merged, occ, o); } else { OtherPathAfterLine(merged, occ, o, path); }
    }
    KeysOneMore(occ, o, Of(o.path));
  }

  method MergeLines(merged: Merged, unnumbered: int, ghost occ: seq<Occurrence>, name: string, lines: seq<LineElement>)
    returns (merged': Merged, unnumbered': int)
    requires Represents(merged, unnumbered, occ)
    ensures Represents(merged', unnumbered', occ + Tag(name, lines))
  {
    merged', unnumbered' := merged, unnumbered;
    assert occ + [] == occ;
    for k := 0 to |lines|
      invariant Represents(merged', unnumbered', occ + Tag(name, lines[..k]))
    {
      var line := lines[k];
      assert lines[..k + 1][..k] == lines[..k];
      assert occ + Tag(name, lines[..k + 1]) == (occ + Tag(name, lines[..k])) + [Occurrence(name, line)];
      OneMoreLine(merged', unnumbered', occ + Tag(name, lines[..k]), Occurrence(name, line));
      var number;
      if line.number.None? {
        unnumbered' := unnumbered' - 1;
        number := unnumbered';
      } else {
        number := line.number.value;
      }
      merged' := FileLine(merged', name, number, line.hits > 0);
    }
    assert lines[..|lines|] == lines;
  }

  function Summed(name: string, byLine: map<int, bool>): FileCoverage {
    FileCoverage(name, |byLine.Keys|, |set n | n in byLine && byLine[n]|)
  }

  lemma SummedIsSummary(merged: Merged, occ: seq<Occurrence>, name: string)
    requires PathOk(merged, occ, name) && name in merged
    ensures Summed(name, merged[name]) == Summary(occ, name)
  {
    var byLine, hits := merged[name], Keys(occ, HitOf(name));
    HitKeysAreKeys(occ, name);
    var hit := set n | n in byLine && byLine[n];
    forall n ensures n in hit <==> n in hits {
      if n in hits { assert n in byLine.Keys; }
      if n in byLine { assert byLine[n] <==> n in hits; }
    }
    assert hit == hits;
  }

  method Summarize(merged: Merged, names: seq<string>, ghost occ: seq<Occurrence>) returns (files: seq<FileCoverage>)
    requires forall name | name in names :: name in merged && PathOk(merged, occ, name)
    ensures |files| == |names|
    ensures forall i | 0 <= i < |files| :: files[i] == Summary(occ, names[i])
  {
    files := [];
    for i := 0 to |names|
      invariant |files| == i
      invariant forall j | 0 <= j < i :: files[j] == Summary(occ, names[j])
    {
      var name := names[i];
      assert name in names;
      SummedIsSummary(merged, occ, name);
      files := files + [Summed(name, merged[name])];
    }
  }

  /** parse_report, from the elements on. */
  method ParseReport(elements: seq<ClassElement>) returns (files: seq<FileCoverage>)
    ensures var paths := Sorted(Paths(Occurrences(elements)));
            && |files| == |paths|
            && (forall i | 0 <= i < |files| :: files[i] == Summary(Occurrences(elements), paths[i]))
            && DistinctPaths(files)
  {
    var merged: Merged := map[];
    var unnumbered := 0;
    for i := 0 to |elements|
      invariant Represents(merged, unnumbered, Occurrences(elements[..i]))
    {
      assert elements[..i + 1][..i] == elements[..i];
      ghost var before := Occurrences(elements[..i]);
      assert before + [] == before;
      if elements[i].name != "" {
        merged, unnumbered := MergeLines(merged, unnumbered, before, elements[i].name, elements[i].lines);
      }
    }
    assert elements[..|elements|] == elements;
    ghost var occ := Occurrences(elements);
    assert merged.Keys == Paths(occ) by {
      forall path ensures path in merged <==> path in Paths(occ) { assert PathOk(merged, occ, path); }
    }
    files := Summarize(merged, Sorted(merged.Keys), occ);
    SummariesAreDistinct(files, Sorted(merged.Keys), occ);
    SortedAscends(merged.Keys);
  }

  lemma SummariesAreDistinct(files: seq<FileCoverage>, names: seq<string>, occ: seq<Occurrence>)
    requires |files| == |names| && forall i | 0 <= i < |files| :: files[i] == Summary(occ, names[i])
    ensures Ascending(names) ==> DistinctPaths(files)
  {
    if Ascending(names) {
      forall i, j | 0 <= i < j < |files| ensures files[i].path != files[j].path {
        assert names[i] != names[j];
      }
    }
  }

  // ---- Line identity ----

  /** The distinct explicit numbers among the chosen lines. */
  function Numbers(occ: seq<Occurrence>, pick: Pick): set<int> {
    set o | o in occ && pick(o) && o.line.number.Some? :: o.line.number.value
  }

  /** The chosen lines without a number, each of which is a line of its own. */
  function UnnumberedIn(occ: seq<Occurrence>, pick: Pick): nat {
    if occ == [] then 0
    else
      var last := occ[|occ| - 1];
      UnnumberedIn(occ[..|occ| - 1], pick) + if pick(last) && last.line.number.None? then 1 else 0
  }

  /** The negative keys those lines were filed under. */
  function FreshKeys(occ: seq<Occurrence>, pick: Pick): set<int> {
    if occ == [] then {}
    else
      var front, last := occ[..|occ| - 1], occ[|occ| - 1];
      if pick(last) && last.line.number.None? then FreshKeys(front, pick) + {NextKey(front, last.line)}
      else FreshKeys(front, pick)
  }

  lemma {:induction false} FreshKeysCount(occ: seq<Occurrence>, pick: Pick)
    ensures |FreshKeys(occ, pick)| == UnnumberedIn(occ, pick)
    ensures forall n | n in FreshKeys(occ, pick) :: 0 - Unnumbered(occ) <= n < 0
  {
    if occ == [] {
    } else {
      FreshKeysCount(occ[..|occ| - 1], pick);
    }
  }

  lemma NumbersOneMore(front: seq<Occurrence>, o: Occurrence, pick: Pick)
    ensures Numbers(front + [o], pick) ==
            Numbers(front, pick) + if pick(o) && o.line.number.Some? then {o.line.number.value} else {}
  {
    assert forall x :: x in front + [o] <==> x in front || x == o;
    assert o in front + [o];
  }

  lemma {:induction false} KeysAreNumbersAndFresh(occ: seq<Occurrence>, pick: Pick)
    ensures Keys(occ, pick) == Numbers(occ, pick) + FreshKeys(occ, pick)
  {
    if occ == [] {
    } else {
      var front, last := occ[..|occ| - 1], occ[|occ| - 1];
      KeysAreNumbersAndFresh(front, pick);
      assert occ == front + [last];
      NumbersOneMore(front, last, pick);
    }
  }

  lemma UnionSize(a: set<int>, b: set<int>)
    ensures |a + b| == |a| + |b| - |a * b|
    ensures |a * b| == 0 <==> a !! b
  {
    assert a + b == (a - b) + b;
    assert a == (a - b) + (a * b);
  }

  /** Explicit numbers that equal a negative key handed to an unnumbered line. */
  function Collisions(occ: seq<Occurrence>, pick: Pick): set<int> {
    Numbers(occ, pick) * FreshKeys(occ, pick)
  }

  /** For the statements of a path, and likewise for its covered lines: they are its distinct numbers plus
      its unnumbered lines, less one for each collision; so exactly those when there is none. */
  lemma LinesAreIdentities(occ: seq<Occurrence>, pick: Pick)
    ensures |Keys(occ, pick)| + |Collisions(occ, pick)| == |Numbers(occ, pick)| + UnnumberedIn(occ, pick)
    ensures |Keys(occ, pick)| == |Numbers(occ, pick)| + UnnumberedIn(occ, pick)
            <==> Numbers(occ, pick) !! FreshKeys(occ, pick)
  {
    KeysAreNumbersAndFresh(occ, pick);
    FreshKeysCount(occ, pick);
    UnionSize(Numbers(occ, pick), FreshKeys(occ, pick));
  }

  /** Cobertura numbers its lines from 1; nothing here needs more than that no number is negative. */
  ghost predicate NoNegativeNumbers(occ: seq<Occurrence>) {
    forall o | o in occ && o.line.number.Some? :: o.line.number.value >= 0
  }

  lemma NumberedReportsAreExact(occ: seq<Occurrence>, pick: Pick)
    requires NoNegativeNumbers(occ)
    ensures |Keys(occ, pick)| == |Numbers(occ, pick)| + UnnumberedIn(occ, pick)
  {
    LinesAreIdentities(occ, pick);
    FreshKeysCount(occ, pick);
    assert forall n | n in Numbers(occ, pick) :: n >= 0;
  }

  /** Without that an unnumbered line can be lost: here two lines make one statement. */
  lemma NegativeNumberCollides()
    ensures var occ := [Occurrence("a.py", LineElement(None, 1)), Occurrence("a.py", LineElement(Some(-1), 0))];
            UnnumberedIn(occ, Of("a.py")) == 1 && -1 in Numbers(occ, Of("a.py")) && |Keys(occ, Of("a.py"))| == 1
  {
    var first, second := Occurrence("a.py", LineElement(None, 1)), Occurrence("a.py", LineElement(Some(-1), 0));
    var occ := [] + [first] + [second];
    KeysOneMore([], first, Of("a.py"));
    KeysOneMore([] + [first], second, Of("a.py"));
    assert Keys(occ, Of("a.py")) == {-1};
    assert occ[..1] == [first] && [first][..0] == [];
    assert occ == [first, second] && second in occ;
  }

  // ---- The report in its own terms ----

  lemma {:induction false} TagHas(name: string, lines: seq<LineElement>, o: Occurrence)
    ensures o in Tag(name, lines) <==> o.path == name && o.line in lines
  {
    if lines == [] {
    } else {
      assert lines == lines[..|lines| - 1] + [lines[|lines| - 1]];
      TagHas(name, lines[..|lines| - 1], o);
    }
  }

  lemma {:induction false} OccurrencesAre(elements: seq<ClassElement>, o: Occurrence)
    ensures o in Occurrences(elements) <==>
            o.path != "" && exists e :: e in elements && e.name == o.path && o.line in e.lines
  {
    if elements == [] {
    } else {
      var last := elements[|elements| - 1];
      assert elements == elements[..|elements| - 1] + [last];
      OccurrencesAre(elements[..|elements| - 1], o);
      TagHas(last.name, last.lines, o);
    }
  }

  /** A line counts for a total: every line for the statements, a line with a hit for the covered ones. */
  predicate Counts(line: LineElement, hitOnly: bool) { hitOnly ==> line.hits > 0 }

  function NumbersOf(elements: seq<ClassElement>, path: string, hitOnly: bool): set<int> {
    set e, l | e in elements && e.name == path && l in e.lines && Counts(l, hitOnly) && l.number.Some? :: l.number.value
  }

  function UnnumberedLines(lines: seq<LineElement>, hitOnly: bool): nat {
    if lines == [] then 0
    else
      var last := lines[|lines| - 1];
      UnnumberedLines(lines[..|lines| - 1], hitOnly) + if Counts(last, hitOnly) && last.number.None? then 1 else 0
  }

  function UnnumberedOf(elements: seq<ClassElement>, path: string, hitOnly: bool): nat {
    if elements == [] then 0
    else
      var last := elements[|elements| - 1];
      UnnumberedOf(elements[..|elements| - 1], path, hitOnly)
      + if last.name == path then UnnumberedLines(last.lines, hitOnly) else 0
  }

  function PickOf(path: string, hitOnly: bool): Pick { if hitOnly then HitOf(path) else Of(path) }

  lemma {:induction false} UnnumberedTagged(name: string, lines: seq<LineElement>, path: string, hitOnly: bool)
    ensures UnnumberedIn(Tag(name, lines), PickOf(path, hitOnly)) ==
            if name == path then UnnumberedLines(lines, hitOnly) else 0
  {
    if lines == [] {
    } else {
      var front, last := lines[..|lines| - 1], Occurrence(name, lines[|lines| - 1]);
      UnnumberedTagged(name, front, path, hitOnly);
      assert (Tag(name, front) + [last])[..|Tag(name, front)|] == Tag(name, front);
    }
  }

  lemma {:induction false} UnnumberedAre(elements: seq<ClassElement>, path: string, hitOnly: bool)
    requires path != ""
    ensures UnnumberedIn(Occurrences(elements), PickOf(path, hitOnly)) == UnnumberedOf(elements, path, hitOnly)
  {
    if elements == [] {
    } else {
      var front, last := elements[..|elements| - 1], elements[|elements| - 1];
      UnnumberedAre(front, path, hitOnly);
      UnnumberedTagged(last.name, last.lines, path, hitOnly);
      var tagged := if last.name == "" then [] else Tag(last.name, last.lines);
      UnnumberedSplit(Occurrences(front), tagged, PickOf(path, hitOnly));
    }
  }

  lemma NumbersAre(elements: seq<ClassElement>, path: string, hitOnly: bool)
    requires path != ""
    ensures Numbers(Occurrences(elements), PickOf(path, hitOnly)) == NumbersOf(elements, path, hitOnly)
  {
    var occ, pick := Occurrences(elements), PickOf(path, hitOnly);
    forall n ensures n in Numbers(occ, pick) <==> n in NumbersOf(elements, path, hitOnly) {
      if n in Numbers(occ, pick) {
        var o :| o in occ && pick(o) && o.line.number == Some(n);
        OccurrencesAre(elements, o);
      }
      if n in NumbersOf(elements, path, hitOnly) {
        var e, l :| e in elements && e.name == path && l in e.lines && Counts(l, hitOnly) && l.number == Some(n);
        OccurrencesAre(elements, Occurrence(path, l));
      }
    }
  }

  /** The files of the report: the names of class elements that have one and have lines. */
  lemma PathsAre(elements: seq<ClassElement>, path: string)
    ensures path in Paths(Occurrences(elements)) <==>
            path != "" && exists e :: e in elements && e.name == path && e.lines != []
  {
    if path in Paths(Occurrences(elements)) {
      var o :| o in Occurrences(elements) && o.path == path;
      OccurrencesAre(elements, o);
    }
    if e :| e in elements && e.name == path && e.lines != [] {
      OccurrencesAre(elements, Occurrence(path, e.lines[0]));
    }
  }

  /** What a report without negative numbers says of a path: its statements are the distinct numbers of its lines,
      over all its classes, and each line without a number; its covered ones are those with a hit in any class. */
  lemma SummaryCounts(elements: seq<ClassElement>, path: string)
    requires path != ""
    requires forall e, l | e in elements && l in e.lines && l.number.Some? :: l.number.value >= 0
    ensures var s := Summary(Occurrences(elements), path);
            && s.path == path
            && s.statements == |NumbersOf(elements, path, false)| + UnnumberedOf(elements, path, false)
            && s.covered == |NumbersOf(elements, path, true)| + UnnumberedOf(elements, path, true)
  {
    var occ := Occurrences(elements);
    forall o | o in occ && o.line.number.Some? ensures o.line.number.value >= 0 { OccurrencesAre(elements, o); }
    NumberedReportsAreExact(occ, PickOf(path, false));
    NumberedReportsAreExact(occ, PickOf(path, true));
    NumbersAre(elements, path, false);
    NumbersAre(elements, path, true);
    UnnumberedAre(elements, path, false);
    UnnumberedAre(elements, path, true);
  }

  // ---- Neither order nor splitting matters ----

  lemma UnnumberedSplit(a: seq<Occurrence>, b: seq<Occurrence>, pick: Pick)
    ensures UnnumberedIn(a + b, pick) == UnnumberedIn(a, pick) + UnnumberedIn(b, pick)
  {
    if b == [] {
      assert a + b == a;
    } else {
      UnnumberedSplit(a, b[..|b| - 1], pick);
      assert (a + b)[..|a + b| - 1] == a + b[..|b| - 1];
    }
  }

  lemma RemoveSame<T>(front: seq<T>, x: T, before: seq<T>, after: seq<T>)
    requires multiset(front + [x]) == multiset(before + [x] + after)
    ensures multiset(front) == multiset(before + after)
  {
    assert multiset(front) == multiset(front + [x]) - multiset{x};
    assert multiset(before + after) == multiset(before + [x] + after) - multiset{x};
  }

  lemma {:induction false} UnnumberedFollowsLines(a: seq<Occurrence>, b: seq<Occurrence>, pick: Pick)
    requires multiset(a) == multiset(b)
    ensures UnnumberedIn(a, pick) == UnnumberedIn(b, pick)
  {
    if a == [] {
      assert |multiset(b)| == |b|;
    } else {
      var front, x := a[..|a| - 1], a[|a| - 1];
      assert a == front + [x];
      assert x in multiset(b);
      var i :| 0 <= i < |b| && b[i] == x;
      var before, after := b[..i], b[i + 1..];
      assert b == before + [x] + after;
      RemoveSame(front, x, before, after);
      UnnumberedFollowsLines(front, before + after, pick);
      UnnumberedSplit(front, [x], pick);
      UnnumberedSplit(before + [x], after, pick);
      UnnumberedSplit(before, [x], pick);
      UnnumberedSplit(before, after, pick);
    }
  }

  lemma LinesFollow(a: seq<Occurrence>, b: seq<Occurrence>, pick: Pick)
    requires multiset(a) == multiset(b)
    ensures |Keys(a, pick)| == |Keys(b, pick)| <==> |Collisions(a, pick)| == |Collisions(b, pick)|
  {
    assert forall o :: (o in a <==> o in multiset(a)) && (o in b <==> o in multiset(b));
    assert Numbers(a, pick) == Numbers(b, pick);
    UnnumberedFollowsLines(a, b, pick);
    LinesAreIdentities(a, pick);
    LinesAreIdentities(b, pick);
  }

  lemma NoCollisions(occ: seq<Occurrence>, pick: Pick)
    requires NoNegativeNumbers(occ)
    ensures Collisions(occ, pick) == {}
  {
    FreshKeysCount(occ, pick);
    assert forall n | n in Numbers(occ, pick) :: n >= 0;
  }

  /** Two reports with the same lines under the same paths, however the classes are ordered and split, list
      the same paths, and summarize a path alike exactly when they have as many collisions on it: always,
      when no number is negative. */
  lemma ReportFollowsLines(a: seq<ClassElement>, b: seq<ClassElement>, path: string)
    requires multiset(Occurrences(a)) == multiset(Occurrences(b))
    ensures var x, y := Occurrences(a), Occurrences(b);
            && (path in Paths(x) <==> path in Paths(y))
            && (Summary(x, path) == Summary(y, path) <==>
                && |Collisions(x, Of(path))| == |Collisions(y, Of(path))|
                && |Collisions(x, HitOf(path))| == |Collisions(y, HitOf(path))|)
            && (NoNegativeNumbers(x) ==> Summary(x, path) == Summary(y, path))
  {
    var x, y := Occurrences(a), Occurrences(b);
    assert forall o :: (o in x <==> o in multiset(x)) && (o in y <==> o in multiset(y));
    LinesFollow(x, y, Of(path));
    LinesFollow(x, y, HitOf(path));
    if NoNegativeNumbers(x) {
      NoCollisions(x, Of(path));
      NoCollisions(x, HitOf(path));
      NoCollisions(y, Of(path));
      NoCollisions(y, HitOf(path));
    }
  }

  /** With a negative number the order can matter: which unnumbered line comes first decides whose key the
      number collides with. */
  lemma OrderCanMatter()
    ensures var p, q := Occurrence("p", LineElement(None, 1)), Occurrence("q", LineElement(None, 1));
            var n := Occurrence("p", LineElement(Some(-1), 1));
            |Keys([p, q, n], Of("p"))| == 1 && |Keys([q, p, n], Of("p"))| == 2
  {
    var p, q := Occurrence("p", LineElement(None, 1)), Occurrence("q", LineElement(None, 1));
    var n := Occurrence("p", LineElement(Some(-1), 1));
    KeysOneMore([], p, Of("p"));
    KeysOneMore([] + [p], q, Of("p"));
    KeysOneMore([] + [p] + [q], n, Of("p"));
    KeysOneMore([], q, Of("p"));
    KeysOneMore([] + [q], p, Of("p"));
    KeysOneMore([] + [q] + [p], n, Of("p"));
    assert [p, q, n] == [] + [p] + [q] + [n] && [q, p, n] == [] + [q] + [p] + [n];
    assert Keys([p, q, n], Of("p")) == {-1} && Keys([q, p, n], Of("p")) == {-2, -1};
  }
}
