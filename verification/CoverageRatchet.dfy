/** The per-file coverage floor with a shrinking baseline: enforce, refresh and seed. */
module CoverageRatchet {
  import opened Wrappers
  import opened StringOrder
  import opened LineText
  import opened CoverageMerge
  import opened BaselineText

  const REGRESSION_TOLERANCE_PP := 2.0

  function ToleranceFor(statements: int): real {
    if statements <= 0 then REGRESSION_TOLERANCE_PP
    else
      var oneStatement := 100.0 / statements as real;
      if oneStatement > REGRESSION_TOLERANCE_PP then oneStatement else REGRESSION_TOLERANCE_PP
  }

  lemma ToleranceIsAtLeastTwo(statements: int)
    ensures ToleranceFor(statements) >= 2.0
    ensures statements > 0 ==> ToleranceFor(statements) * statements as real >= 100.0
    ensures ToleranceFor(statements) == 2.0 || ToleranceFor(statements) * statements as real == 100.0
  {
    if statements > 0 {
      var s := statements as real;
      var one := 100.0 / s;
      assert one * s == 100.0;
      assert (ToleranceFor(statements) - one) * s >= 0.0;
    }
  }

  function Rate(f: FileCoverage): real {
    if f.statements == 0 then 100.0 else 100.0 * f.covered as real / f.statements as real
  }

  /** A rate is the percentage of statements covered; a file without statements is fully covered. */
  lemma RateIs(f: FileCoverage)
    ensures f.statements == 0 ==> Rate(f) == 100.0
    ensures f.statements > 0 ==> Rate(f) * f.statements as real == 100.0 * f.covered as real
  {
    if f.statements > 0 {
      var s, c := f.statements as real, 100.0 * f.covered as real;
      assert c / s * s == c;
    }
  }

  // ---- The baseline a file's lines record ----

  /** How a validated line reads: None for a comment or a blank. */
  type LineReader = string -> Option<Entry>

  type Baseline = map<string, real>

  function BaselineFrom(lines: seq<string>, read: LineReader): Baseline {
    if lines == [] then map[]
    else
      var before := BaselineFrom(lines[..|lines| - 1], read);
      match read(lines[|lines| - 1])
      case None => before
      case Some(e) => before[e.path := e.rate]
  }

  /** baseline_from_lines. */
  method ReadBaseline(lines: seq<string>, read: LineReader) returns (recorded: Baseline)
    ensures recorded == BaselineFrom(lines, read)
  {
    recorded := map[];
    for i := 0 to |lines|
      invariant recorded == BaselineFrom(lines[..i], read)
    {
      assert lines[..i + 1][..i] == lines[..i];
      var parsed := read(lines[i]);
      if parsed.Some? {
        recorded := recorded[parsed.value.path := parsed.value.rate];
      }
    }
    assert lines[..|lines|] == lines;
  }

  ghost predicate Records(lines: seq<string>, read: LineReader, p: string, i: int) {
    0 <= i < |lines| && read(lines[i]).Some? && read(lines[i]).value.path == p
  }

  /** Line i is the last that records p. */
  ghost predicate LastFor(lines: seq<string>, read: LineReader, p: string, i: int) {
    Records(lines, read, p, i) && forall k | i < k < |lines| :: !Records(lines, read, p, k)
  }

  /** The rate recorded for a path is that of the last line for it. */
  lemma {:induction false} LastLineWins(lines: seq<string>, read: LineReader, p: string, rate: real)
    ensures p in BaselineFrom(lines, read) && BaselineFrom(lines, read)[p] == rate <==>
            exists i :: LastFor(lines, read, p, i) && read(lines[i]).value.rate == rate
  {
    if lines == [] {
    } else {
      var n := |lines| - 1;
      var front := lines[..n];
      LastLineWins(front, read, p, rate);
      if Records(lines, read, p, n) {
        assert LastFor(lines, read, p, n);
      } else {
        forall i ensures LastFor(lines, read, p, i) <==> LastFor(front, read, p, i) {
          SameLastFor(lines, read, p, i);
        }
      }
    }
  }

  lemma SameLastFor(lines: seq<string>, read: LineReader, p: string, i: int)
    requires lines != [] && !Records(lines, read, p, |lines| - 1)
    ensures LastFor(lines, read, p, i) <==> LastFor(lines[..|lines| - 1], read, p, i)
  {
    var front := lines[..|lines| - 1];
    assert forall k :: Records(front, read, p, k) <==> Records(lines, read, p, k);
  }

  // ---- Enforcement ----

  datatype Class = Passing | Graduated | NewOffender | Regressed | Exempt

  function Classify(f: FileCoverage, baseline: Baseline, floor: real): Class {
    var band := ToleranceFor(f.statements);
    if Rate(f) >= floor then
      if f.path in baseline && Rate(f) >= floor + band then Graduated else Passing
    else if f.path !in baseline then NewOffender
    else if Rate(f) < baseline[f.path] - band then Regressed
    else Exempt
  }

  /** The files of one class, in report order. */
  function Select(files: seq<FileCoverage>, baseline: Baseline, floor: real, class_: Class): seq<FileCoverage> {
    if files == [] then []
    else
      var before := Select(files[..|files| - 1], baseline, floor, class_);
      if Classify(files[|files| - 1], baseline, floor) == class_ then before + [files[|files| - 1]] else before
  }

  function WithRecorded(fs: seq<FileCoverage>, baseline: Baseline): seq<(FileCoverage, real)> {
    if fs == [] then []
    else
      var f := fs[|fs| - 1];
      WithRecorded(fs[..|fs| - 1], baseline) + [(f, if f.path in baseline then baseline[f.path] else 0.0)]
  }

  function PathsOf(files: seq<FileCoverage>): set<string> {
    set f | f in files :: f.path
  }

  datatype Verdicts = Verdicts(newOffenders: seq<FileCoverage>, regressed: seq<(FileCoverage, real)>,
                               graduated: seq<FileCoverage>, stale: seq<string>, passing: nat, exempt: nat)
  {
    predicate Failed() { newOffenders != [] || regressed != [] || graduated != [] }
  }

  function Evaluate(files: seq<FileCoverage>, baseline: Baseline, floor: real): Verdicts {
    Verdicts(Select(files, baseline, floor, NewOffender),
             WithRecorded(Select(files, baseline, floor, Regressed), baseline),
             Select(files, baseline, floor, Graduated),
             Sorted(baseline.Keys - PathsOf(files)),
             |Select(files, baseline, floor, Passing)|,
             |Select(files, baseline, floor, Exempt)|)
  }

  lemma SelectOneMore(files: seq<FileCoverage>, f: FileCoverage, baseline: Baseline, floor: real, class_: Class)
    ensures Select(files + [f], baseline, floor, class_) ==
            Select(files, baseline, floor, class_) + if Classify(f, baseline, floor) == class_ then [f] else []
  {
    assert (files + [f])[..|files|] == files;
  }

  /** One more file goes to the list of its class, and to no other. */
  lemma SelectNext(files: seq<FileCoverage>, i: nat, baseline: Baseline, floor: real)
    requires i < |files|
    ensures forall c: Class ::
              var before := Select(files[..i], baseline, floor, c);
              Select(files[..i + 1], baseline, floor, c) ==
              if Classify(files[i], baseline, floor) == c then before + [files[i]] else before
    ensures PathsOf(files[..i + 1]) == PathsOf(files[..i]) + {files[i].path}
  {
    assert files[..i + 1] == files[..i] + [files[i]];
    forall c: Class
      ensures var before := Select(files[..i], baseline, floor, c);
              Select(files[..i + 1], baseline, floor, c) ==
              if Classify(files[i], baseline, floor) == c then before + [files[i]] else before
    {
      SelectOneMore(files[..i], files[i], baseline, floor, c);
    }
    PathsOneMoreFile(files[..i], files[i]);
  }

  /** The loop of evaluate. */
  method EvaluateFiles(files: seq<FileCoverage>, baseline: Baseline, floor: real) returns (v: Verdicts)
    ensures v == Evaluate(files, baseline, floor)
  {
    var newOffenders, graduated: seq<FileCoverage> := [], [];
    var regressed: seq<(FileCoverage, real)> := [];
    var passing, exempt := 0, 0;
    var seen: set<string> := {};
    for i := 0 to |files|
      invariant newOffenders == Select(files[..i], baseline, floor, NewOffender)
      invariant regressed == WithRecorded(Select(files[..i], baseline, floor, Regressed), baseline)
      invariant graduated == Select(files[..i], baseline, floor, Graduated)
      invariant passing == |Select(files[..i], baseline, floor, Passing)|
      invariant exempt == |Select(files[..i], baseline, floor, Exempt)|
      invariant seen == PathsOf(files[..i])
    {
      var entry := files[i];
      SelectNext(files, i, baseline, floor);
      seen := seen + {entry.path};
      var band := ToleranceFor(entry.statements);
      if Rate(entry) >= floor {
        if entry.path in baseline && Rate(entry) >= floor + band {
          graduated := graduated + [entry];
        } else {
          passing := passing + 1;
        }
      } else if entry.path !in baseline {
        newOffenders := newOffenders + [entry];
      } else if Rate(entry) < baseline[entry.path] - band {
        RecordedOneMore(Select(files[..i], baseline, floor, Regressed), entry, baseline);
        regressed := regressed + [(entry, baseline[entry.path])];
      } else {
        exempt := exempt + 1;
      }
    }
    assert files[..|files|] == files;
    v := Verdicts(newOffenders, regressed, graduated, Sorted(baseline.Keys - seen), passing, exempt);
  }

  lemma PathsOneMoreFile(files: seq<FileCoverage>, f: FileCoverage)
    ensures PathsOf(files + [f]) == PathsOf(files) + {f.path}
  {
    assert forall x :: x in files + [f] <==> x in files || x == f;
    assert f in files + [f];
  }

  lemma RecordedOneMore(fs: seq<FileCoverage>, f: FileCoverage, baseline: Baseline)
    requires f.path in baseline
    ensures WithRecorded(fs + [f], baseline) == WithRecorded(fs, baseline) + [(f, baseline[f.path])]
  {
    assert (fs + [f])[..|fs|] == fs;
  }

  lemma {:induction false} SelectIsEmpty(files: seq<FileCoverage>, b: Baseline, floor: real, class_: Class)
    ensures Select(files, b, floor, class_) == [] <==> forall f | f in files :: Classify(f, b, floor) != class_
  {
    if files == [] {
    } else {
      assert files == files[..|files| - 1] + [files[|files| - 1]];
      SelectIsEmpty(files[..|files| - 1], b, floor, class_);
    }
  }

  lemma RecordedIsEmpty(fs: seq<FileCoverage>, b: Baseline)
    ensures WithRecorded(fs, b) == [] <==> fs == []
  {
  }

  function HowMany(files: seq<FileCoverage>, test: FileCoverage -> bool): nat {
    if files == [] then 0
    else HowMany(files[..|files| - 1], test) + if test(files[|files| - 1]) then 1 else 0
  }

  lemma {:induction false} SelectCount(files: seq<FileCoverage>, b: Baseline, floor: real, class_: Class,
                                       test: FileCoverage -> bool)
    requires forall f :: test(f) <==> Classify(f, b, floor) == class_
    ensures |Select(files, b, floor, class_)| == HowMany(files, test)
  {
    if files == [] {
    } else {
      SelectCount(files[..|files| - 1], b, floor, class_, test);
    }
  }

  lemma {:induction false} SelectMembers(files: seq<FileCoverage>, b: Baseline, floor: real, class_: Class, f: FileCoverage)
    ensures f in Select(files, b, floor, class_) <==> f in files && Classify(f, b, floor) == class_
  {
    if files == [] {
    } else {
      assert files == files[..|files| - 1] + [files[|files| - 1]];
      SelectMembers(files[..|files| - 1], b, floor, class_, f);
    }
  }

  lemma {:induction false} RecordedMembers(fs: seq<FileCoverage>, b: Baseline, f: FileCoverage, rate: real)
    requires forall g | g in fs :: g.path in b
    ensures (f, rate) in WithRecorded(fs, b) <==> f in fs && rate == b[f.path]
  {
    if fs == [] {
    } else {
      assert fs == fs[..|fs| - 1] + [fs[|fs| - 1]];
      RecordedMembers(fs[..|fs| - 1], b, f, rate);
    }
  }

  /** What each verdict says. A new offender is below the floor and not listed; a regressed file is below it,
      and below its recorded rate by more than its tolerance; a graduate is listed and above the floor by its
      tolerance at least. */
  lemma VerdictsAre(files: seq<FileCoverage>, b: Baseline, floor: real, f: FileCoverage, rate: real)
    ensures var v := Evaluate(files, b, floor);
            && (f in v.newOffenders <==> f in files && Rate(f) < floor && f.path !in b)
            && ((f, rate) in v.regressed <==>
                  f in files && Rate(f) < floor && f.path in b && rate == b[f.path]
                  && Rate(f) < rate - ToleranceFor(f.statements))
            && (f in v.graduated <==> f in files && f.path in b && Rate(f) >= floor + ToleranceFor(f.statements))
  {
    SelectMembers(files, b, floor, NewOffender, f);
    SelectMembers(files, b, floor, Regressed, f);
    SelectMembers(files, b, floor, Graduated, f);
    forall g | g in Select(files, b, floor, Regressed) ensures g.path in b {
      SelectMembers(files, b, floor, Regressed, g);
    }
    RecordedMembers(Select(files, b, floor, Regressed), b, f, rate);
    ToleranceIsAtLeastTwo(f.statements);
  }

  /** A stale entry is one without a file. */
  lemma StaleAre(files: seq<FileCoverage>, b: Baseline, floor: real, p: string)
    ensures var stale := Evaluate(files, b, floor).stale;
            (p in stale <==> p in b && forall g | g in files :: g.path != p) && Ascending(stale)
  {
    SortedAscends(b.Keys - PathsOf(files));
  }

  /** The two counts: files at the floor or above that are not graduates, and listed files below it that have
      not regressed. */
  lemma CountsAre(files: seq<FileCoverage>, b: Baseline, floor: real)
    ensures var v := Evaluate(files, b, floor);
            && v.passing == HowMany(files, f =>
                 Rate(f) >= floor && !(f.path in b && Rate(f) >= floor + ToleranceFor(f.statements)))
            && v.exempt == HowMany(files, f =>
                 Rate(f) < floor && f.path in b && Rate(f) >= b[f.path] - ToleranceFor(f.statements))
  {
    SelectCount(files, b, floor, Passing,
                f => Rate(f) >= floor && !(f.path in b && Rate(f) >= floor + ToleranceFor(f.statements)));
    SelectCount(files, b, floor, Exempt,
                f => Rate(f) < floor && f.path in b && Rate(f) >= b[f.path] - ToleranceFor(f.statements));
  }

  /** An unlisted file meets the floor. A listed one is not clear of it by its band, and has not fallen more
      than its band below its recorded rate unless it meets the floor. */
  predicate Allowed(f: FileCoverage, b: Baseline, floor: real) {
    if f.path !in b then Rate(f) >= floor
    else Rate(f) < floor + ToleranceFor(f.statements)
         && (Rate(f) < floor ==> Rate(f) >= b[f.path] - ToleranceFor(f.statements))
  }

  lemma AllowedMeans(f: FileCoverage, b: Baseline, floor: real)
    ensures Allowed(f, b, floor) <==> Classify(f, b, floor) == Passing || Classify(f, b, floor) == Exempt
  {
    ToleranceIsAtLeastTwo(f.statements);
  }

  /** The gate passes exactly when every measured file is allowed. */
  lemma PassesExactly(files: seq<FileCoverage>, b: Baseline, floor: real)
    ensures !Evaluate(files, b, floor).Failed() <==> forall f | f in files :: Allowed(f, b, floor)
  {
    forall f | f in files
      ensures Allowed(f, b, floor) <==> Classify(f, b, floor) == Passing || Classify(f, b, floor) == Exempt
    {
      AllowedMeans(f, b, floor);
    }
    SelectIsEmpty(files, b, floor, NewOffender);
    SelectIsEmpty(files, b, floor, Regressed);
    SelectIsEmpty(files, b, floor, Graduated);
    RecordedIsEmpty(Select(files, b, floor, Regressed), b);
  }

  // ---- Losing a covered line ----

  /** One covered line fewer, at the same size. */
  function LostOne(f: FileCoverage): FileCoverage
    requires f.covered > 0
  {
    f.(covered := f.covered - 1)
  }

  lemma LostRate(f: FileCoverage)
    requires f.covered > 0 && f.statements > 0
    ensures Rate(LostOne(f)) == Rate(f) - 100.0 / f.statements as real
  {
    var n, c := f.statements as real, f.covered as real;
    assert (f.covered - 1) as real == c - 1.0;
    assert 100.0 * (c - 1.0) / n == 100.0 * c / n - 100.0 / n;
  }

  /** A listed file that loses a covered line and is below the floor regresses exactly when its recorded rate
      was above its old rate by more than the tolerance exceeds the worth of one statement. Up to fifty
      statements the two are equal, so a loss from the very rate recorded is always absorbed. */
  lemma LostLineRegressesExactly(f: FileCoverage, b: Baseline, floor: real)
    requires f.covered > 0 && f.statements > 0 && f.path in b && Rate(LostOne(f)) < floor
    ensures Classify(LostOne(f), b, floor) == Regressed <==>
            b[f.path] - Rate(f) > ToleranceFor(f.statements) - 100.0 / f.statements as real
    ensures f.statements <= 50 ==> (Classify(LostOne(f), b, floor) == Regressed <==> b[f.path] > Rate(f))
  {
    LostRate(f);
    if f.statements <= 50 { SmallFileTolerance(f.statements); }
  }

  lemma SmallFileTolerance(statements: int)
    requires 0 < statements <= 50
    ensures ToleranceFor(statements) == 100.0 / statements as real
  {
    var s := statements as real;
    var one := 100.0 / s;
    assert one * s == 100.0 && s <= 50.0;
    assert (one - 2.0) * s >= 0.0;
  }

  /** A file of 19 statements recorded at 36.8, for 7 of them: with 6 covered it is still exempt. */
  lemma LostLineCanBeAbsorbed(floor: real)
    requires floor > 40.0
    ensures var f := FileCoverage("a.tsx", 19, 7);
            Classify(LostOne(f), map["a.tsx" := 36.8], floor) == Exempt
  {
    var f := FileCoverage("a.tsx", 19, 7);
    SmallFileTolerance(19);
    assert Rate(f) == 700.0 / 19.0 && Rate(LostOne(f)) == 600.0 / 19.0;
  }

  // ---- Refresh ----

  function Measured(files: seq<FileCoverage>): map<string, FileCoverage> {
    if files == [] then map[]
    else Measured(files[..|files| - 1])[files[|files| - 1].path := files[|files| - 1]]
  }

  /** A listed path that is measured and not clear of the floor by its band. */
  predicate Stays(path: string, measured: map<string, FileCoverage>, floor: real) {
    path in measured && Rate(measured[path]) < floor + ToleranceFor(measured[path].statements)
  }

  function Kept(lines: seq<string>, read: LineReader, measured: map<string, FileCoverage>, floor: real): seq<string> {
    if lines == [] then []
    else
      var before, raw := Kept(lines[..|lines| - 1], read, measured, floor), lines[|lines| - 1];
      if read(raw).None? || Stays(read(raw).value.path, measured, floor) then before + [raw] else before
  }

  function Listed(lines: seq<string>, read: LineReader): set<string> {
    set raw | raw in lines && read(raw).Some? :: read(raw).value.path
  }

  /** The stable insertion of Python's sorted(key=path). */
  function InsertByPath(fs: seq<FileCoverage>, f: FileCoverage): seq<FileCoverage> {
    if fs == [] || Le(fs[|fs| - 1].path, f.path) then fs + [f]
    else InsertByPath(fs[..|fs| - 1], f) + [fs[|fs| - 1]]
  }

  lemma {:induction false} InsertByPathAdds(fs: seq<FileCoverage>, f: FileCoverage)
    ensures multiset(InsertByPath(fs, f)) == multiset(fs) + multiset{f}
  {
    if fs == [] || Le(fs[|fs| - 1].path, f.path) {
    } else {
      assert fs == fs[..|fs| - 1] + [fs[|fs| - 1]];
      InsertByPathAdds(fs[..|fs| - 1], f);
    }
  }

  function SortByPath(fs: seq<FileCoverage>): (r: seq<FileCoverage>)
    ensures multiset(r) == multiset(fs)
  {
    if fs == [] then []
    else
      assert fs == fs[..|fs| - 1] + [fs[|fs| - 1]];
      InsertByPathAdds(SortByPath(fs[..|fs| - 1]), fs[|fs| - 1]);
      InsertByPath(SortByPath(fs[..|fs| - 1]), fs[|fs| - 1])
  }

  predicate InPathOrder(fs: seq<FileCoverage>) {
    |fs| >= 2 ==> Le(fs[|fs| - 2].path, fs[|fs| - 1].path) && InPathOrder(fs[..|fs| - 1])
  }

  lemma OrderOneMore(fs: seq<FileCoverage>, f: FileCoverage)
    requires InPathOrder(fs) && (fs != [] ==> Le(fs[|fs| - 1].path, f.path))
    ensures InPathOrder(fs + [f])
  {
    assert (fs + [f])[..|fs|] == fs;
  }

  lemma {:induction false} InsertKeepsPathOrder(fs: seq<FileCoverage>, f: FileCoverage)
    requires InPathOrder(fs)
    ensures var r := InsertByPath(fs, f);
            InPathOrder(r) && r != [] && (r[|r| - 1] == f || (fs != [] && r[|r| - 1] == fs[|fs| - 1]))
  {
    if fs == [] || Le(fs[|fs| - 1].path, f.path) {
      OrderOneMore(fs, f);
    } else {
      var front, last := fs[..|fs| - 1], fs[|fs| - 1];
      InsertKeepsPathOrder(front, f);
      LeTotal(f.path, last.path);
      OrderOneMore(InsertByPath(front, f), last);
    }
  }

  lemma {:induction false} SortByPathSorts(fs: seq<FileCoverage>)
    ensures InPathOrder(SortByPath(fs))
  {
    if fs == [] {
    } else {
      SortByPathSorts(fs[..|fs| - 1]);
      InsertKeepsPathOrder(SortByPath(fs[..|fs| - 1]), fs[|fs| - 1]);
    }
  }

  function Unlisted(files: seq<FileCoverage>, listed: set<string>, floor: real): seq<FileCoverage> {
    if files == [] then []
    else
      var before, f := Unlisted(files[..|files| - 1], listed, floor), files[|files| - 1];
      if Rate(f) < floor && f.path !in listed then before + [f] else before
  }

  function EntryCount(lines: seq<string>, read: LineReader): nat {
    if lines == [] then 0
    else EntryCount(lines[..|lines| - 1], read) + if read(lines[|lines| - 1]).Some? then 1 else 0
  }

  /** The file's new lines, the number of entries left, and the offenders refused; or nothing is written
      because no listed path appears in the report at all. */
  datatype Refreshed = Refreshed(lines: seq<string>, entries: nat, refused: seq<FileCoverage>)

  predicate WrongReport(files: seq<FileCoverage>, lines: seq<string>, read: LineReader) {
    Listed(lines, read) != {} && Listed(lines, read) * Measured(files).Keys == {}
  }

  function Prune(files: seq<FileCoverage>, lines: seq<string>, read: LineReader, floor: real): Option<Refreshed> {
    if WrongReport(files, lines, read) then None
    else
      var kept := Kept(lines, read, Measured(files), floor);
      Some(Refreshed(kept, EntryCount(kept, read), SortByPath(Unlisted(files, Listed(lines, read), floor))))
  }

  /** prune_baseline. */
  method PruneBaseline(files: seq<FileCoverage>, lines: seq<string>, read: LineReader, floor: real)
    returns (r: Option<Refreshed>)
    ensures r == Prune(files, lines, read, floor)
  {
    var measured := Measured(files);
    var kept: seq<string> := [];
    var listed: set<string> := {};
    for i := 0 to |lines|
      invariant kept == Kept(lines[..i], read, measured, floor)
      invariant listed == Listed(lines[..i], read)
    {
      var raw := lines[i];
      assert lines[..i + 1] == lines[..i] + [raw];
      assert lines[..i + 1][..i] == lines[..i];
      ListedOneMore(lines[..i], raw, read);
      var parsed := read(raw);
      if parsed.None? {
        kept := kept + [raw];
        continue;
      }
      var path := parsed.value.path;
      listed := listed + {path};
      if path !in measured {
        continue;
      }
      var current := measured[path];
      if Rate(current) >= floor + ToleranceFor(current.statements) {
        continue;
      }
      kept := kept + [raw];
    }
    assert lines[..|lines|] == lines;
    if listed != {} && listed * measured.Keys == {} {
      return None;
    }
    return Some(Refreshed(kept, EntryCount(kept, read), SortByPath(Unlisted(files, listed, floor))));
  }

  lemma ListedOneMore(lines: seq<string>, raw: string, read: LineReader)
    ensures Listed(lines + [raw], read) == Listed(lines, read) + if read(raw).Some? then {read(raw).value.path} else {}
  {
    assert forall x :: x in lines + [raw] <==> x in lines || x == raw;
    assert raw in lines + [raw];
  }

  // ---- What a refresh does to the file ----

  lemma {:induction false} BaselineListsPaths(lines: seq<string>, read: LineReader)
    ensures BaselineFrom(lines, read).Keys == Listed(lines, read)
  {
    if lines == [] {
    } else {
      var front, raw := lines[..|lines| - 1], lines[|lines| - 1];
      BaselineListsPaths(front, read);
      assert lines == front + [raw];
      ListedOneMore(front, raw, read);
    }
  }

  function Restrict(b: Baseline, measured: map<string, FileCoverage>, floor: real): Baseline {
    map p | p in b && Stays(p, measured, floor) :: b[p]
  }

  /** Dropping lines by path only takes entries away: every surviving rate is the one recorded. */
  lemma {:induction false} KeptBaseline(lines: seq<string>, read: LineReader,
                                        measured: map<string, FileCoverage>, floor: real)
    ensures BaselineFrom(Kept(lines, read, measured, floor), read) == Restrict(BaselineFrom(lines, read), measured, floor)
  {
    if lines == [] {
    } else {
      var front, raw := lines[..|lines| - 1], lines[|lines| - 1];
      var before := Kept(front, read, measured, floor);
      KeptBaseline(front, read, measured, floor);
      if read(raw).None? || Stays(read(raw).value.path, measured, floor) {
        assert Kept(lines, read, measured, floor) == before + [raw];
        assert (before + [raw])[..|before|] == before;
      }
    }
  }

  function Comments(lines: seq<string>, read: LineReader): seq<string> {
    if lines == [] then []
    else Comments(lines[..|lines| - 1], read) + if read(lines[|lines| - 1]).None? then [lines[|lines| - 1]] else []
  }

  lemma {:induction false} KeptIsVerbatim(lines: seq<string>, read: LineReader,
                                          measured: map<string, FileCoverage>, floor: real)
    ensures Subsequence(Kept(lines, read, measured, floor), lines)
    ensures Comments(Kept(lines, read, measured, floor), read) == Comments(lines, read)
  {
    if lines == [] {
    } else {
      var front, raw := lines[..|lines| - 1], lines[|lines| - 1];
      var before := Kept(front, read, measured, floor);
      KeptIsVerbatim(front, read, measured, floor);
      if read(raw).None? || Stays(read(raw).value.path, measured, floor) {
        assert (before + [raw])[..|before|] == before;
      } else {
        assert before == [] || Subsequence(before, lines[..|lines| - 1]);
      }
    }
  }

  lemma {:induction false} KeptTwice(lines: seq<string>, read: LineReader,
                                     measured: map<string, FileCoverage>, floor: real)
    ensures Kept(Kept(lines, read, measured, floor), read, measured, floor) == Kept(lines, read, measured, floor)
  {
    if lines == [] {
    } else {
      var front, raw := lines[..|lines| - 1], lines[|lines| - 1];
      var before := Kept(front, read, measured, floor);
      KeptTwice(front, read, measured, floor);
      if read(raw).None? || Stays(read(raw).value.path, measured, floor) {
        assert (before + [raw])[..|before|] == before;
      }
    }
  }

  /** When a refresh writes: no line records a path, or some line records that of a file in the report. */
  lemma PruneWritesExactly(files: seq<FileCoverage>, lines: seq<string>, read: LineReader, floor: real)
    ensures Prune(files, lines, read, floor).Some? <==>
            || (forall raw | raw in lines :: read(raw).None?)
            || (exists raw, f | raw in lines && f in files :: read(raw).Some? && read(raw).value.path == f.path)
  {
    MeasuredIsReport(files);
    var listed := Listed(lines, read);
    if raw :| raw in lines && read(raw).Some? { assert read(raw).value.path in listed; }
    if raw, f :| raw in lines && f in files && read(raw).Some? && read(raw).value.path == f.path {
      assert f.path in listed * Measured(files).Keys;
    }
    if p :| p in listed * Measured(files).Keys {
      var raw :| raw in lines && read(raw).Some? && read(raw).value.path == p;
      var f :| f in files && f.path == p;
    }
  }

  /** What is listed after a refresh that writes: the paths listed before whose file is in the report and not
      clear of the floor by its tolerance. */
  lemma RefreshKeepsExactly(files: seq<FileCoverage>, lines: seq<string>, read: LineReader, floor: real, p: string)
    requires DistinctPaths(files) && Prune(files, lines, read, floor).Some?
    ensures var b := BaselineFrom(lines, read);
            var after := BaselineFrom(Prune(files, lines, read, floor).value.lines, read);
            && (p in after <==> p in b && exists f | f in files ::
                  f.path == p && Rate(f) < floor + ToleranceFor(f.statements))
            && (p in after ==> after[p] == b[p])
  {
    MeasuredIsReport(files);
    KeptBaseline(lines, read, Measured(files), floor);
    if p in PathsOf(files) {
      var f :| f in files && f.path == p;
      assert Measured(files)[p] == f;
    }
  }

  /** The count of a refresh is that of the lines it writes which are no comments. */
  lemma {:induction false} EntriesAreTheOthers(lines: seq<string>, read: LineReader)
    ensures EntryCount(lines, read) + |Comments(lines, read)| == |lines|
  {
    if lines == [] {
    } else {
      EntriesAreTheOthers(lines[..|lines| - 1], read);
    }
  }

  lemma {:induction false} UnlistedAre(files: seq<FileCoverage>, listed: set<string>, floor: real, f: FileCoverage)
    ensures f in Unlisted(files, listed, floor) <==> f in files && Rate(f) < floor && f.path !in listed
  {
    if files == [] {
    } else {
      assert files == files[..|files| - 1] + [files[|files| - 1]];
      UnlistedAre(files[..|files| - 1], listed, floor, f);
    }
  }

  /** What a refresh counts, and whom it refuses to list. */
  lemma RefreshReports(files: seq<FileCoverage>, lines: seq<string>, read: LineReader, floor: real, f: FileCoverage)
    requires Prune(files, lines, read, floor).Some?
    ensures var r := Prune(files, lines, read, floor).value;
            && r.entries + |Comments(r.lines, read)| == |r.lines|
            && (f in r.refused <==>
                  f in files && Rate(f) < floor
                  && forall raw | raw in lines && read(raw).Some? :: read(raw).value.path != f.path)
  {
    var r := Prune(files, lines, read, floor).value;
    EntriesAreTheOthers(r.lines, read);
    UnlistedAre(files, Listed(lines, read), floor, f);
    assert f in r.refused <==> f in multiset(r.refused);
    assert f in Unlisted(files, Listed(lines, read), floor) <==> f in multiset(r.refused);
  }

  // ---- Refresh and then enforce, on one report ----

  lemma {:induction false} MeasuredIsReport(files: seq<FileCoverage>)
    ensures Measured(files).Keys == PathsOf(files)
    ensures DistinctPaths(files) ==> forall f | f in files :: Measured(files)[f.path] == f
  {
    if files == [] {
    } else {
      var front, last := files[..|files| - 1], files[|files| - 1];
      MeasuredIsReport(front);
      assert files == front + [last];
      PathsOneMoreFile(front, last);
    }
  }

  /** The class of a measured file once the baseline has been refreshed against the same report. */
  function AfterRefresh(c: Class): Class {
    if c == Graduated then Passing else c
  }

  lemma RefreshedClass(f: FileCoverage, b: Baseline, measured: map<string, FileCoverage>, floor: real)
    requires f.path in measured && measured[f.path] == f
    ensures Classify(f, Restrict(b, measured, floor), floor) == AfterRefresh(Classify(f, b, floor))
  {
    ToleranceIsAtLeastTwo(f.statements);
  }

  lemma {:induction false} RefreshedSelect(files: seq<FileCoverage>, b: Baseline,
                                           measured: map<string, FileCoverage>, floor: real)
    requires forall f | f in files :: f.path in measured && measured[f.path] == f
    ensures var after := Restrict(b, measured, floor);
            && Select(files, after, floor, NewOffender) == Select(files, b, floor, NewOffender)
            && Select(files, after, floor, Regressed) == Select(files, b, floor, Regressed)
            && Select(files, after, floor, Exempt) == Select(files, b, floor, Exempt)
            && Select(files, after, floor, Graduated) == []
            && |Select(files, after, floor, Passing)| ==
               |Select(files, b, floor, Passing)| + |Select(files, b, floor, Graduated)|
  {
    if files == [] {
    } else {
      var front, last := files[..|files| - 1], files[|files| - 1];
      assert files == front + [last];
      RefreshedSelect(front, b, measured, floor);
      RefreshedClass(last, b, measured, floor);
    }
  }

  lemma {:induction false} SelectedClass(files: seq<FileCoverage>, b: Baseline, floor: real, class_: Class)
    ensures forall f | f in Select(files, b, floor, class_) :: Classify(f, b, floor) == class_ && f in files
  {
    if files == [] {
    } else {
      SelectedClass(files[..|files| - 1], b, floor, class_);
    }
  }

  lemma {:induction false} SameRecorded(fs: seq<FileCoverage>, a: Baseline, b: Baseline)
    requires forall f | f in fs :: f.path in a && f.path in b && a[f.path] == b[f.path]
    ensures WithRecorded(fs, a) == WithRecorded(fs, b)
  {
    if fs == [] {
    } else {
      assert fs == fs[..|fs| - 1] + [fs[|fs| - 1]];
      SameRecorded(fs[..|fs| - 1], a, b);
    }
  }

  lemma {:induction false} UnlistedAreNewOffenders(files: seq<FileCoverage>, b: Baseline, floor: real)
    ensures Unlisted(files, b.Keys, floor) == Select(files, b, floor, NewOffender)
  {
    if files == [] {
    } else {
      UnlistedAreNewOffenders(files[..|files| - 1], b, floor);
    }
  }

  /** A refresh clears what it should and nothing more: enforcing the same report afterwards finds the same
      new offenders, regressions and exemptions, no graduation and no stale entry, and the graduates among
      the passing; the offenders it refused are the new offenders; the file keeps its comments and is
      otherwise the old file with lines left out; refreshing again changes nothing. */
  lemma RefreshClearsOnlyWhatItShould(files: seq<FileCoverage>, lines: seq<string>, read: LineReader, floor: real)
    requires DistinctPaths(files) && Prune(files, lines, read, floor).Some?
    ensures var r := Prune(files, lines, read, floor).value;
            var before := Evaluate(files, BaselineFrom(lines, read), floor);
            var after := Evaluate(files, BaselineFrom(r.lines, read), floor);
            && after.newOffenders == before.newOffenders && after.regressed == before.regressed
            && after.exempt == before.exempt && after.graduated == [] && after.stale == []
            && after.passing == before.passing + |before.graduated|
            && multiset(r.refused) == multiset(before.newOffenders)
    ensures var r := Prune(files, lines, read, floor).value;
            && Subsequence(r.lines, lines) && Comments(r.lines, read) == Comments(lines, read)
            && Prune(files, r.lines, read, floor).Some? && Prune(files, r.lines, read, floor).value.lines == r.lines
  {
    var b, measured := BaselineFrom(lines, read), Measured(files);
    var kept := Kept(lines, read, measured, floor);
    var after := Restrict(b, measured, floor);
    MeasuredIsReport(files);
    KeptBaseline(lines, read, measured, floor);
    RefreshedSelect(files, b, measured, floor);
    RegressedKeepTheirRates(files, b, measured, floor);
    assert after.Keys - PathsOf(files) == {};
    BaselineListsPaths(lines, read);
    UnlistedAreNewOffenders(files, b, floor);
    KeptIsVerbatim(lines, read, measured, floor);
    KeptTwice(lines, read, measured, floor);
    BaselineListsPaths(kept, read);
    assert Listed(kept, read) * measured.Keys == Listed(kept, read);
  }

  lemma RegressedKeepTheirRates(files: seq<FileCoverage>, b: Baseline,
                                measured: map<string, FileCoverage>, floor: real)
    requires forall f | f in files :: f.path in measured && measured[f.path] == f
    ensures WithRecorded(Select(files, b, floor, Regressed), Restrict(b, measured, floor)) ==
            WithRecorded(Select(files, b, floor, Regressed), b)
  {
    var fs := Select(files, b, floor, Regressed);
    SelectedClass(files, b, floor, Regressed);
    forall f | f in fs ensures f.path in b && f.path in Restrict(b, measured, floor) {
      ToleranceIsAtLeastTwo(f.statements);
    }
    SameRecorded(fs, Restrict(b, measured, floor), b);
  }

  // ---- Whole histories ----

  /** What may happen to an established lane: it is enforced, which writes nothing, or refreshed. */
  datatype Operation =
    | Enforce(files: seq<FileCoverage>, floor: real)
    | Refresh(files: seq<FileCoverage>, floor: real)

  function Apply(lines: seq<string>, op: Operation, read: LineReader): seq<string> {
    match op
    case Enforce(_, _) => lines
    case Refresh(files, floor) =>
      match Prune(files, lines, read, floor)
      case None => lines
      case Some(r) => r.lines
  }

  function AfterAll(lines: seq<string>, ops: seq<Operation>, read: LineReader): seq<string> {
    if ops == [] then lines else Apply(AfterAll(lines, ops[..|ops| - 1], read), ops[|ops| - 1], read)
  }

  ghost predicate SubBaseline(a: Baseline, b: Baseline) {
    forall p | p in a :: p in b && a[p] == b[p]
  }

  lemma ApplyOnlyShrinks(lines: seq<string>, op: Operation, read: LineReader)
    ensures SubBaseline(BaselineFrom(Apply(lines, op, read), read), BaselineFrom(lines, read))
  {
    if op.Refresh? { KeptBaseline(lines, read, Measured(op.files), op.floor); }
  }

  lemma OneMoreOperation(lines: seq<string>, ops: seq<Operation>, op: Operation, read: LineReader)
    ensures AfterAll(lines, ops + [op], read) == Apply(AfterAll(lines, ops, read), op, read)
  {
    assert (ops + [op])[..|ops|] == ops;
  }

  lemma Shrinks(lines: seq<string>, ops: seq<Operation>, op: Operation, read: LineReader, earlier: Baseline)
    requires SubBaseline(BaselineFrom(AfterAll(lines, ops, read), read), earlier)
    ensures SubBaseline(BaselineFrom(AfterAll(lines, ops + [op], read), read), earlier)
  {
    OneMoreOperation(lines, ops, op, read);
    ApplyOnlyShrinks(AfterAll(lines, ops, read), op, read);
  }

  /** No history of enforcing and refreshing, with whatever reports and floors, adds a path to the baseline
      or changes a recorded rate; and each later baseline only shrinks from each earlier one. */
  lemma {:induction false} BaselineOnlyShrinks(lines: seq<string>, ops: seq<Operation>, more: seq<Operation>,
                                               read: LineReader)
    ensures SubBaseline(BaselineFrom(AfterAll(lines, ops + more, read), read),
                        BaselineFrom(AfterAll(lines, ops, read), read))
  {
    if more == [] {
      assert ops + more == ops;
    } else {
      var front, last := more[..|more| - 1], more[|more| - 1];
      BaselineOnlyShrinks(lines, ops, front, read);
      assert ops + more == (ops + front) + [last];
      Shrinks(lines, ops + front, last, read, BaselineFrom(AfterAll(lines, ops, read), read));
    }
  }

  lemma {:induction false} SelectHas(files: seq<FileCoverage>, b: Baseline, floor: real, f: FileCoverage)
    requires f in files
    ensures f in Select(files, b, floor, Classify(f, b, floor))
  {
    if f == files[|files| - 1] {
    } else {
      assert files == files[..|files| - 1] + [files[|files| - 1]];
      SelectHas(files[..|files| - 1], b, floor, f);
    }
  }

  /** Whenever a report is accepted, every file below the floor was in the baseline the lane started from,
      and has not fallen more than its tolerance below the rate recorded there. */
  lemma AcceptedFilesKeepTheSeedMark(lines: seq<string>, ops: seq<Operation>, read: LineReader,
                                     files: seq<FileCoverage>, floor: real, f: FileCoverage)
    requires !Evaluate(files, BaselineFrom(AfterAll(lines, ops, read), read), floor).Failed()
    requires f in files && Rate(f) < floor
    ensures f.path in BaselineFrom(lines, read)
    ensures Rate(f) >= BaselineFrom(lines, read)[f.path] - ToleranceFor(f.statements)
  {
    PassesExactly(files, BaselineFrom(AfterAll(lines, ops, read), read), floor);
    assert Allowed(f, BaselineFrom(AfterAll(lines, ops, read), read), floor);
    BaselineOnlyShrinks(lines, [], ops, read);
    assert [] + ops == ops;
    assert AfterAll(lines, [], read) == lines;
  }

  /** A path once out of the baseline is never exempt again: below the floor it fails as a new offender. */
  lemma DroppedIsNeverExemptAgain(lines: seq<string>, ops: seq<Operation>, more: seq<Operation>, read: LineReader,
                                  files: seq<FileCoverage>, floor: real, f: FileCoverage)
    requires f.path !in BaselineFrom(AfterAll(lines, ops, read), read)
    requires f in files && Rate(f) < floor
    ensures f in Evaluate(files, BaselineFrom(AfterAll(lines, ops + more, read), read), floor).newOffenders
  {
    BaselineOnlyShrinks(lines, ops, more, read);
    SelectHas(files, BaselineFrom(AfterAll(lines, ops + more, read), read), floor, f);
  }

  // ---- Seeding ----

  function Below(files: seq<FileCoverage>, floor: real): seq<FileCoverage> {
    if files == [] then []
    else
      var before, f := Below(files[..|files| - 1], floor), files[|files| - 1];
      if Rate(f) < floor then before + [f] else before
  }

  function Rendered(fs: seq<FileCoverage>, render: FileCoverage -> string): seq<string> {
    if fs == [] then [] else Rendered(fs[..|fs| - 1], render) + [render(fs[|fs| - 1])]
  }

  /** seed_baseline: the header, then a rendered line for every file below the floor, in path order. */
  function Seed(files: seq<FileCoverage>, floor: real, render: FileCoverage -> string, header: seq<string>): seq<string> {
    header + Rendered(SortByPath(Below(files, floor)), render)
  }

  /** The line of f reads back as its path and its rate to one decimal. */
  ghost predicate ReadsBack(f: FileCoverage, render: FileCoverage -> string, read: LineReader) {
    && read(render(f)).Some?
    && read(render(f)).value.path == f.path
    && Rate(f) - 0.05 <= read(render(f)).value.rate <= Rate(f) + 0.05
  }

  lemma {:induction false} BelowIs(files: seq<FileCoverage>, floor: real)
    ensures forall f :: f in Below(files, floor) <==> f in files && Rate(f) < floor
  {
    if files == [] {
    } else {
      assert files == files[..|files| - 1] + [files[|files| - 1]];
      BelowIs(files[..|files| - 1], floor);
    }
  }

  lemma SeededStep(header: seq<string>, fs: seq<FileCoverage>, render: FileCoverage -> string, read: LineReader)
    requires fs != [] && ReadsBack(fs[|fs| - 1], render, read)
    ensures BaselineFrom(header + Rendered(fs, render), read) ==
            BaselineFrom(header + Rendered(fs[..|fs| - 1], render), read)[
              fs[|fs| - 1].path := read(render(fs[|fs| - 1])).value.rate]
  {
    var lines, front := header + Rendered(fs, render), header + Rendered(fs[..|fs| - 1], render);
    assert lines == front + [render(fs[|fs| - 1])];
    assert lines[..|lines| - 1] == front;
  }

  lemma {:induction false} SeededBaseline(header: seq<string>, fs: seq<FileCoverage>, render: FileCoverage -> string,
                                          read: LineReader, f: FileCoverage)
    requires f in fs && forall g | g in fs :: ReadsBack(g, render, read)
    ensures f.path in BaselineFrom(header + Rendered(fs, render), read)
  {
    var front, last := fs[..|fs| - 1], fs[|fs| - 1];
    assert fs == front + [last];
    SeededStep(header, fs, render, read);
    if f == last {
    } else {
      SeededBaseline(header, front, render, read, f);
    }
  }

  /** The file that a path of a seeded baseline was recorded for. */
  lemma {:induction false} SeededFrom(header: seq<string>, fs: seq<FileCoverage>, render: FileCoverage -> string,
                                      read: LineReader, p: string) returns (g: FileCoverage)
    requires forall raw | raw in header :: read(raw).None?
    requires forall f | f in fs :: ReadsBack(f, render, read)
    requires p in BaselineFrom(header + Rendered(fs, render), read)
    ensures g in fs && g.path == p
    ensures Rate(g) - 0.05 <= BaselineFrom(header + Rendered(fs, render), read)[p] <= Rate(g) + 0.05
  {
    if fs == [] {
      assert header + [] == header;
      HeaderRecordsNothing(header, read);
    } else {
      var front, last := fs[..|fs| - 1], fs[|fs| - 1];
      assert fs == front + [last];
      SeededStep(header, fs, render, read);
      if p == last.path {
        g := last;
      } else {
        g := SeededFrom(header, front, render, read, p);
      }
    }
  }

  lemma {:induction false} HeaderRecordsNothing(header: seq<string>, read: LineReader)
    requires forall raw | raw in header :: read(raw).None?
    ensures BaselineFrom(header, read) == map[]
  {
    if header == [] {
    } else {
      assert header == header[..|header| - 1] + [header[|header| - 1]];
      HeaderRecordsNothing(header[..|header| - 1], read);
    }
  }

  lemma SeededFilesAre(files: seq<FileCoverage>, floor: real, f: FileCoverage)
    ensures f in SortByPath(Below(files, floor)) <==> f in files && Rate(f) < floor
  {
    BelowIs(files, floor);
    assert f in SortByPath(Below(files, floor)) <==> f in multiset(Below(files, floor));
  }

  /** b records, for each file below the floor and for nothing else, its rate to one decimal. */
  ghost predicate RecordsBelow(b: Baseline, files: seq<FileCoverage>, floor: real) {
    && b.Keys <= PathsOf(files)
    && (forall f | f in files && Rate(f) < floor :: f.path in b)
    && (forall f | f in files && f.path in b :: Rate(f) < floor && Rate(f) - 0.05 <= b[f.path] <= Rate(f) + 0.05)
  }

  lemma SeedRecordsBelow(files: seq<FileCoverage>, floor: real, render: FileCoverage -> string,
                         header: seq<string>, read: LineReader)
    requires DistinctPaths(files)
    requires forall raw | raw in header :: read(raw).None?
    requires forall f | f in files && Rate(f) < floor :: ReadsBack(f, render, read)
    ensures RecordsBelow(BaselineFrom(Seed(files, floor, render, header), read), files, floor)
  {
    var fs := SortByPath(Below(files, floor));
    forall f ensures f in fs <==> f in files && Rate(f) < floor { SeededFilesAre(files, floor, f); }
    var b := BaselineFrom(header + Rendered(fs, render), read);
    forall f | f in files && Rate(f) < floor ensures f.path in b { SeededBaseline(header, fs, render, read, f); }
    forall p | p in b ensures p in PathsOf(files) {
      var g := SeededFrom(header, fs, render, read, p);
    }
    forall f | f in files && f.path in b
      ensures Rate(f) < floor && Rate(f) - 0.05 <= b[f.path] <= Rate(f) + 0.05
    {
      var g := SeededFrom(header, fs, render, read, f.path);
      SamePathSameFile(files, f, g);
    }
  }

  lemma RecordsBelowPasses(b: Baseline, files: seq<FileCoverage>, floor: real)
    requires RecordsBelow(b, files, floor)
    ensures !Evaluate(files, b, floor).Failed()
  {
    forall f | f in files ensures Allowed(f, b, floor) { ToleranceIsAtLeastTwo(f.statements); }
    PassesExactly(files, b, floor);
  }

  /** A freshly seeded lane accepts the report it was seeded from, although the recorded rates are rounded. */
  lemma SeedThenEnforcePasses(files: seq<FileCoverage>, floor: real, render: FileCoverage -> string,
                              header: seq<string>, read: LineReader)
    requires DistinctPaths(files)
    requires forall raw | raw in header :: read(raw).None?
    requires forall f | f in files && Rate(f) < floor :: ReadsBack(f, render, read)
    ensures !Evaluate(files, BaselineFrom(Seed(files, floor, render, header), read), floor).Failed()
  {
    SeedRecordsBelow(files, floor, render, header, read);
    RecordsBelowPasses(BaselineFrom(Seed(files, floor, render, header), read), files, floor);
  }

  /** How a line reads once the whole file has been validated. */
  function ReadAs(raw: string, number: NumberReader): Option<Entry> {
    match ParseEntry(raw, number)
    case Ok(entry) => entry
    case Err(_) => None
  }

  /** The text of a rate is a plain number within [0, 100] and within 0.05 of it. */
  ghost predicate OneDecimal(f: FileCoverage, text: string, number: NumberReader) {
    && Plain(text) && number(text).Some?
    && 0.0 <= number(text).value <= 100.0
    && Rate(f) - 0.05 <= number(text).value <= Rate(f) + 0.05
  }

  lemma {:induction false} ListedPathIsPlain(lines: seq<string>, number: NumberReader, p: string)
    requires p in BaselineFrom(lines, raw => ReadAs(raw, number))
    ensures Plain(p)
  {
    var front, raw := lines[..|lines| - 1], lines[|lines| - 1];
    if p in BaselineFrom(front, raw => ReadAs(raw, number)) {
      ListedPathIsPlain(front, number, p);
    } else {
      ParsedPathIsPlain(raw, number);
    }
  }

  /** read_baseline_lines accepts the file. */
  ghost predicate Validated(lines: seq<string>, number: NumberReader) {
    forall i | 0 <= i < |lines| :: ParseEntry(lines[i], number).Ok?
  }

  ghost predicate AllPlain(files: seq<FileCoverage>, floor: real) {
    forall f | f in files && Rate(f) < floor :: Plain(f.path)
  }

  lemma {:induction false} RenderedAreValid(fs: seq<FileCoverage>, number: NumberReader, render: FileCoverage -> string)
    requires forall f | f in fs :: ParseEntry(render(f), number).Ok?
    ensures Validated(Rendered(fs, render), number)
  {
    if fs == [] {
    } else {
      assert fs == fs[..|fs| - 1] + [fs[|fs| - 1]];
      RenderedAreValid(fs[..|fs| - 1], number, render);
    }
  }

  lemma PlainSeedPasses(files: seq<FileCoverage>, floor: real, header: seq<string>, number: NumberReader,
                        rate: FileCoverage -> string, fraction: FileCoverage -> string,
                        render: FileCoverage -> string)
    requires DistinctPaths(files) && AllPlain(files, floor)
    requires forall f :: render(f) == SeedLine(f.path, rate(f), fraction(f))
    requires forall raw | raw in header :: ParseEntry(raw, number) == Ok(None)
    requires forall f | f in files && Rate(f) < floor :: OneDecimal(f, rate(f), number)
    ensures var lines := Seed(files, floor, render, header);
            Validated(lines, number) && !Evaluate(files, BaselineFrom(lines, raw => ReadAs(raw, number)), floor).Failed()
  {
    var fs := SortByPath(Below(files, floor));
    forall f | f in files && Rate(f) < floor
      ensures ReadsBack(f, render, raw => ReadAs(raw, number)) && ParseEntry(render(f), number).Ok?
    {
      PlainPathReadsBack(f.path, rate(f), number(rate(f)).value, fraction(f), number);
    }
    SeedThenEnforcePasses(files, floor, render, header, raw => ReadAs(raw, number));
    forall f | f in fs ensures ParseEntry(render(f), number).Ok? { SeededFilesAre(files, floor, f); }
    RenderedAreValid(fs, number, render);
  }

  /** Through the text of the lines: what seed_baseline writes, read back by _parse_entry, passes exactly
      when the path of every file below the floor is plain, without spaces or hashes. Any other such file
      cannot be listed, and fails as a new offender if the lines are accepted at all. */
  lemma SeededTextPasses(files: seq<FileCoverage>, floor: real, header: seq<string>, number: NumberReader,
                         rate: FileCoverage -> string, fraction: FileCoverage -> string)
    requires DistinctPaths(files)
    requires forall raw | raw in header :: ParseEntry(raw, number) == Ok(None)
    requires forall f | f in files && Rate(f) < floor :: OneDecimal(f, rate(f), number)
    ensures var lines := Seed(files, floor, (f: FileCoverage) => SeedLine(f.path, rate(f), fraction(f)), header);
            var passes := !Evaluate(files, BaselineFrom(lines, raw => ReadAs(raw, number)), floor).Failed();
            && (passes <==> AllPlain(files, floor))
            && (Validated(lines, number) && passes <==> AllPlain(files, floor))
  {
    var render := (f: FileCoverage) => SeedLine(f.path, rate(f), fraction(f));
    var lines := Seed(files, floor, render, header);
    var b := BaselineFrom(lines, raw => ReadAs(raw, number));
    if AllPlain(files, floor) {
      PlainSeedPasses(files, floor, header, number, rate, fraction, render);
    } else {
      var f :| f in files && Rate(f) < floor && !Plain(f.path);
      if f.path in b { ListedPathIsPlain(lines, number, f.path); }
      PassesExactly(files, b, floor);
      assert !Allowed(f, b, floor);
    }
  }

  lemma SamePathSameFile(files: seq<FileCoverage>, f: FileCoverage, g: FileCoverage)
    requires DistinctPaths(files) && f in files && g in files && f.path == g.path
    ensures f == g
  {
    var i :| 0 <= i < |files| && files[i] == f;
    var j :| 0 <= j < |files| && files[j] == g;
  }
}
