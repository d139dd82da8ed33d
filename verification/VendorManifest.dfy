/** The manifest of the vendored tree: printed, parsed back and compared with the tree. */
module VendorManifest {
  import opened Wrappers
  import opened StringOrder
  import opened LineText

  const PREFIX := "src/junction/_vendor/"

  /** Path (relative to the vendored tree) to digest. */
  type Hashes = map<string, string>

  // ---- Printing ----

  function LineOf(path: string, digest: string): string {
    digest + ("  " + (PREFIX + path))
  }

  function LinesOf(paths: seq<string>, h: Hashes): seq<string>
    requires forall p | p in paths :: p in h
  {
    if paths == [] then []
    else
      var p := paths[|paths| - 1];
      LinesOf(paths[..|paths| - 1], h) + [LineOf(p, h[p])]
  }

  /** render_manifest. */
  function Render(h: Hashes): string {
    Join(LinesOf(Sorted(h.Keys), h), "\n") + "\n"
  }

  // ---- Parsing ----

  predicate Blank(line: string) {
    line == "" || (IsSpace(line[0]) && Blank(line[1..]))
  }

  /** Where the first pair of spaces starts, or the length when there is none. */
  function DoubleSpace(s: string): (k: nat)
    ensures k <= |s|
    ensures k < |s| ==> k + 2 <= |s|
  {
    if |s| < 2 then |s|
    else if s[0] == ' ' && s[1] == ' ' then 0
    else 1 + DoubleSpace(s[1..])
  }

  datatype Line = Skipped | Malformed | Entry(path: string, digest: string)

  function ReadLine(line: string): Line {
    var k := DoubleSpace(line);
    if Blank(line) then Skipped
    else if k == |line| || k != 64 || !(PREFIX <= line[k + 2..]) then Malformed
    else Entry(line[k + 2..][|PREFIX|..], line[..k])
  }

  /** The recorded hashes, or the number of the first malformed line. */
  function ReadLines(lines: seq<string>): Result<Hashes, nat> {
    if lines == [] then Ok(map[])
    else
      match ReadLines(lines[..|lines| - 1])
      case Err(n) => Err(n)
      case Ok(h) =>
        match ReadLine(lines[|lines| - 1])
        case Skipped => Ok(h)
        case Malformed => Err(|lines|)
        case Entry(path, digest) => Ok(h[path := digest])
  }

  function Parse(text: string): Result<Hashes, nat> {
    ReadLines(SplitLines(text))
  }

  lemma {:induction false} FirstErrorStands(lines: seq<string>, i: nat)
    requires i <= |lines| && ReadLines(lines[..i]).Err?
    ensures ReadLines(lines) == ReadLines(lines[..i])
  {
    if i == |lines| {
      assert lines[..i] == lines;
    } else {
      assert lines[..|lines| - 1][..i] == lines[..i];
      FirstErrorStands(lines[..|lines| - 1], i);
    }
  }

  /** Parsing fails exactly at the first malformed line. */
  lemma {:induction false} ErrorIsFirstMalformed(lines: seq<string>, n: nat)
    ensures ReadLines(lines) == Err(n) <==>
            && 0 < n <= |lines| && ReadLine(lines[n - 1]).Malformed?
            && forall i | 0 <= i < n - 1 :: !ReadLine(lines[i]).Malformed?
    ensures ReadLines(lines).Ok? <==> forall i | 0 <= i < |lines| :: !ReadLine(lines[i]).Malformed?
  {
    if lines == [] {
    } else {
      var front := lines[..|lines| - 1];
      ErrorIsFirstMalformed(front, n);
      assert forall i | 0 <= i < |front| :: front[i] == lines[i];
    }
  }

  /** parse_manifest. */
  method ParseManifest(text: string) returns (r: Result<Hashes, nat>)
    ensures r == Parse(text)
  {
    var lines := SplitLines(text);
    var hashes: Hashes := map[];
    for i := 0 to |lines|
      invariant ReadLines(lines[..i]) == Ok(hashes)
    {
      assert lines[..i + 1][..i] == lines[..i];
      var line := ReadLine(lines[i]);
      if line.Skipped? {
        continue;
      }
      if line.Malformed? {
        FirstErrorStands(lines, i + 1);
        return Err(i + 1);
      }
      hashes := hashes[line.path := line.digest];
    }
    assert lines[..|lines|] == lines;
    return Ok(hashes);
  }

  // ---- Which lines are entries ----

  /** Two spaces start at k. */
  predicate PairAt(s: string, k: int) {
    0 <= k < |s| - 1 && s[k] == ' ' && s[k + 1] == ' '
  }

  lemma {:induction false} NoEarlierPair(s: string, k: int)
    requires k < DoubleSpace(s)
    ensures !PairAt(s, k)
  {
    if |s| < 2 || k <= 0 {
    } else {
      NoEarlierPair(s[1..], k - 1);
    }
  }

  lemma {:induction false} PairIsThere(s: string)
    requires DoubleSpace(s) < |s|
    ensures PairAt(s, DoubleSpace(s))
  {
    if s[0] == ' ' && s[1] == ' ' {
    } else {
      PairIsThere(s[1..]);
    }
  }

  lemma {:induction false} BlankIs(line: string)
    ensures Blank(line) <==> forall c | c in line :: IsSpace(c)
  {
    if line == "" {
    } else {
      assert line == [line[0]] + line[1..];
      BlankIs(line[1..]);
    }
  }

  /** A line is skipped when all its characters are spaces. */
  lemma SkippedIsBlank(line: string)
    ensures ReadLine(line) == Skipped <==> forall c | c in line :: IsSpace(c)
  {
    BlankIs(line);
  }

  lemma LineParts(line: string, path: string, digest: string)
    requires |digest| == 64
    ensures line == digest + ("  " + (PREFIX + path)) <==>
            PairAt(line, 64) && line[..64] == digest && line[66..] == PREFIX + path
  {
    if PairAt(line, 64) {
      assert line == line[..64] + (line[64..66] + line[66..]) && line[64..66] == "  ";
    }
    if line == digest + ("  " + (PREFIX + path)) {
      SplitAtGap(digest, PREFIX + path);
    }
  }

  lemma PrefixedName(name: string, path: string)
    ensures PREFIX <= name && name[|PREFIX|..] == path <==> name == PREFIX + path
  {
  }

  /** A line is read as an entry when it is a digest of 64 characters, two spaces, the directory and the path,
      and no two spaces stand together earlier. */
  lemma EntryIsExact(line: string, path: string, digest: string)
    ensures ReadLine(line) == Entry(path, digest) <==>
            && |digest| == 64 && line == digest + ("  " + ("src/junction/_vendor/" + path))
            && forall k | 0 <= k < 64 :: !PairAt(line, k)
  {
    var k := DoubleSpace(line);
    if k < |line| { PairIsThere(line); }
    forall j | 0 <= j < k ensures !PairAt(line, j) { NoEarlierPair(line, j); }
    if |digest| == 64 { LineParts(line, path, digest); }
    if line == digest + ("  " + (PREFIX + path)) {
      PrefixIsPlain();
      assert (PREFIX + path)[0] == PREFIX[0];
      GapLineIsNotBlank(digest, PREFIX + path);
    }
    if k == 64 && 66 <= |line| { PrefixedName(line[66..], path); }
  }

  // ---- What survives being printed and parsed ----

  predicate HasDoubleSpace(s: string) { DoubleSpace(s) < |s| }

  ghost predicate Sound(path: string, digest: string) {
    && |digest| == 64 && digest[63] != ' ' && !HasDoubleSpace(digest)
    && OneLine(digest) && OneLine(path)
  }

  ghost predicate AllSound(h: Hashes) {
    forall p | p in h :: Sound(p, h[p])
  }

  lemma {:induction false} DoubleSpaceAfter(digest: string, rest: string)
    requires digest != "" && digest[|digest| - 1] != ' ' && !HasDoubleSpace(digest)
    ensures DoubleSpace(digest + ("  " + rest)) == |digest|
  {
    var s := digest + ("  " + rest);
    if |digest| == 1 {
      assert s[1..] == "  " + rest;
    } else {
      assert s[1..] == digest[1..] + ("  " + rest);
      DoubleSpaceAfter(digest[1..], rest);
    }
  }

  lemma {:induction false} DoubleSpaceIsFirst(s: string)
    ensures var k := DoubleSpace(s);
            && !HasDoubleSpace(s[..k])
            && (0 < k < |s| ==> s[k - 1] != ' ')
  {
    if |s| >= 2 && !(s[0] == ' ' && s[1] == ' ') {
      var k := DoubleSpace(s);
      DoubleSpaceIsFirst(s[1..]);
      assert s[..k][1..] == s[1..][..k - 1];
      if 1 < k < |s| { assert s[1..][k - 2] == s[k - 1]; }
    }
  }

  lemma {:induction false} NotBlank(line: string, k: nat)
    requires k < |line| && !IsSpace(line[k])
    ensures !Blank(line)
  {
    if k == 0 {
    } else {
      NotBlank(line[1..], k - 1);
    }
  }

  lemma PrefixIsPlain()
    ensures OneLine(PREFIX) && PREFIX != "" && !IsSpace(PREFIX[0])
  {
  }

  lemma SplitAtGap(digest: string, name: string)
    ensures var line := digest + ("  " + name);
            line[..|digest|] == digest && line[|digest| + 2..] == name
  {
    var line := digest + ("  " + name);
    assert line[|digest|..] == "  " + name;
    assert line[|digest|..][2..] == name;
  }

  lemma PrefixStrips(path: string)
    ensures PREFIX <= PREFIX + path && (PREFIX + path)[|PREFIX|..] == path
  {
  }

  lemma SoundLineIsOneLine(path: string, digest: string)
    requires Sound(path, digest)
    ensures OneLine(LineOf(path, digest))
  {
    PrefixIsPlain();
    OneLineJoin(PREFIX, path);
    OneLineJoin("  ", PREFIX + path);
    OneLineJoin(digest, "  " + (PREFIX + path));
  }

  lemma GapLineIsNotBlank(digest: string, name: string)
    requires name != "" && !IsSpace(name[0])
    ensures !Blank(digest + ("  " + name))
  {
    SplitAtGap(digest, name);
    NotBlank(digest + ("  " + name), |digest| + 2);
  }

  lemma SoundLineReadsBack(path: string, digest: string)
    requires Sound(path, digest)
    ensures ReadLine(LineOf(path, digest)) == Entry(path, digest)
  {
    var name := PREFIX + path;
    PrefixIsPlain();
    assert name[0] == PREFIX[0];
    PrefixStrips(path);
    DoubleSpaceAfter(digest, name);
    SplitAtGap(digest, name);
    GapLineIsNotBlank(digest, name);
  }

  lemma {:induction false} SoundLinesReadBack(paths: seq<string>, h: Hashes)
    requires AllSound(h) && forall p | p in paths :: p in h
    ensures ReadLines(LinesOf(paths, h)) == Ok(map p | p in paths :: h[p])
    ensures forall line | line in LinesOf(paths, h) :: OneLine(line)
  {
    if paths == [] {
    } else {
      var front, p := paths[..|paths| - 1], paths[|paths| - 1];
      assert paths == front + [p];
      SoundLinesReadBack(front, h);
      SoundLineReadsBack(p, h[p]);
      SoundLineIsOneLine(p, h[p]);
      ReadOneMore(LinesOf(front, h), LineOf(p, h[p]), p, h[p]);
      assert (map q | q in paths :: h[q]) == (map q | q in front :: h[q])[p := h[p]];
    }
  }

  /** A later entry for a path wins. */
  lemma ReadOneMore(lines: seq<string>, line: string, path: string, digest: string)
    requires ReadLines(lines).Ok? && ReadLine(line) == Entry(path, digest)
    ensures ReadLines(lines + [line]) == Ok(ReadLines(lines).value[path := digest])
  {
    assert (lines + [line])[..|lines|] == lines;
  }

  lemma {:induction false} LinesOfAt(paths: seq<string>, h: Hashes, i: nat)
    requires i < |paths| && forall p | p in paths :: p in h
    ensures |LinesOf(paths, h)| == |paths| && LinesOf(paths, h)[i] == LineOf(paths[i], h[paths[i]])
  {
    var front := paths[..|paths| - 1];
    if i < |front| {
      LinesOfAt(front, h, i);
    } else if front != [] {
      LinesOfAt(front, h, 0);
    }
  }

  /** The printed text of sound hashes: a line for each path in ascending order, with its digest, two spaces, the
      directory and the path. */
  lemma RenderedLine(h: Hashes, i: nat)
    requires AllSound(h) && i < |Sorted(h.Keys)|
    ensures var lines, path := SplitLines(Render(h)), Sorted(h.Keys)[i];
            |lines| == |Sorted(h.Keys)| && lines[i] == h[path] + ("  " + ("src/junction/_vendor/" + path))
  {
    var paths := Sorted(h.Keys);
    assert paths[i] in paths;
    LinesOfAt(paths, h, i);
    SoundLinesReadBack(paths, h);
    EndedLinesReadBack(LinesOf(paths, h), "\n");
  }

  lemma RenderedReadsBack(h: Hashes)
    requires AllSound(h)
    ensures Parse(Render(h)) == Ok(h)
  {
    var paths := Sorted(h.Keys);
    SoundLinesReadBack(paths, h);
    EndedLinesReadBack(LinesOf(paths, h), "\n");
    assert (map p | p in paths :: h[p]) == h;
    if paths == [] {
      assert ReadLines([""][..0]) == Ok(map[]);
    }
  }

  lemma EntryIsSound(line: string)
    requires OneLine(line) && ReadLine(line).Entry?
    ensures Sound(ReadLine(line).path, ReadLine(line).digest)
  {
    DoubleSpaceIsFirst(line);
  }

  lemma {:induction false} ParsedIsSound(lines: seq<string>)
    requires ReadLines(lines).Ok? && forall line | line in lines :: OneLine(line)
    ensures AllSound(ReadLines(lines).value)
  {
    if lines == [] {
    } else {
      var line := lines[|lines| - 1];
      ParsedIsSound(lines[..|lines| - 1]);
      if ReadLine(line).Entry? { EntryIsSound(line); }
    }
  }

  /** A manifest parses back to the hashes it was printed from exactly when every digest has 64 characters,
      no two spaces in a row and no space at the end, and neither digest nor path crosses a line. */
  lemma RoundTripExactly(h: Hashes)
    ensures Parse(Render(h)) == Ok(h) <==> AllSound(h)
  {
    if AllSound(h) {
      RenderedReadsBack(h);
    } else if Parse(Render(h)).Ok? {
      AllLinesAreSingle(Render(h));
      ParsedIsSound(SplitLines(Render(h)));
    }
  }

  /** What any manifest parses to, however it came to be written, prints and parses back unchanged. */
  lemma ParsedTextHasANormalForm(text: string)
    requires Parse(text).Ok?
    ensures Parse(Render(Parse(text).value)) == Parse(text)
  {
    AllLinesAreSingle(text);
    ParsedIsSound(SplitLines(text));
    RenderedReadsBack(Parse(text).value);
  }

  lemma AppendedLine(lines: seq<string>, line: string, path: string, digest: string)
    requires lines != [] && OneLine(line) && forall l | l in lines :: OneLine(l)
    requires ReadLines(lines).Ok? && ReadLine(line) == Entry(path, digest)
    ensures Parse((Join(lines, "\n") + "\n") + (line + "\n")) == Ok(ReadLines(lines).value[path := digest])
  {
    JoinOneMore(lines, line, "\n");
    assert (Join(lines, "\n") + "\n") + (line + "\n") == Join(lines + [line], "\n") + "\n";
    EndedLinesReadBack(lines + [line], "\n");
    ReadOneMore(lines, line, path, digest);
  }

  /** Parsing takes more than what printing emits: a second line for a path is accepted and wins. */
  lemma RepeatedPathIsAccepted(h: Hashes, path: string, digest: string)
    requires AllSound(h) && path in h && Sound(path, digest)
    ensures Parse(Render(h) + (LineOf(path, digest) + "\n")) == Ok(h[path := digest])
  {
    var paths := Sorted(h.Keys);
    SoundLinesReadBack(paths, h);
    assert (map p | p in paths :: h[p]) == h;
    assert path in paths;
    SoundLineReadsBack(path, digest);
    SoundLineIsOneLine(path, digest);
    AppendedLine(LinesOf(paths, h), LineOf(path, digest), path, digest);
  }

  // ---- Which texts are printed ones ----

  lemma {:induction false} DoubleSpaceIsThere(s: string)
    requires HasDoubleSpace(s)
    ensures var k := DoubleSpace(s); s[k] == ' ' && s[k + 1] == ' '
  {
    if s[0] == ' ' && s[1] == ' ' {
    } else {
      DoubleSpaceIsThere(s[1..]);
    }
  }

  /** A line that reads as an entry is the line printed for it. */
  lemma EntryIsPrinted(line: string)
    requires ReadLine(line).Entry?
    ensures line == LineOf(ReadLine(line).path, ReadLine(line).digest)
  {
    var k := DoubleSpace(line);
    DoubleSpaceIsThere(line);
    var name := line[k + 2..];
    assert name == PREFIX + name[|PREFIX|..];
    assert line == line[..k] + ("  " + name);
  }

  ghost predicate AllEntries(lines: seq<string>) {
    forall i | 0 <= i < |lines| :: ReadLine(lines[i]).Entry?
  }

  function PathsIn(lines: seq<string>): (paths: seq<string>)
    ensures |paths| == |lines|
  {
    if lines == [] then []
    else
      var line := ReadLine(lines[|lines| - 1]);
      PathsIn(lines[..|lines| - 1]) + [if line.Entry? then line.path else ""]
  }

  lemma {:induction false} LinesOfAgree(paths: seq<string>, h: Hashes, other: Hashes)
    requires forall p | p in paths :: p in h && p in other && h[p] == other[p]
    ensures LinesOf(paths, h) == LinesOf(paths, other)
  {
    if paths == [] {
    } else {
      assert paths == paths[..|paths| - 1] + [paths[|paths| - 1]];
      LinesOfAgree(paths[..|paths| - 1], h, other);
    }
  }

  lemma AscendingFront(xs: seq<string>, x: string)
    requires Ascending(xs + [x])
    ensures Ascending(xs) && x !in xs
  {
    var all := xs + [x];
    forall i, j | 0 <= i < j < |xs| ensures Le(xs[i], xs[j]) && xs[i] != xs[j] {
      assert all[i] == xs[i] && all[j] == xs[j];
    }
    forall i | 0 <= i < |xs| ensures xs[i] != x { assert all[i] == xs[i] && all[|xs|] == x; }
  }

  /** h records exactly these paths, and prints to these lines. */
  ghost predicate PrintsTo(h: Hashes, paths: seq<string>, lines: seq<string>) {
    (forall p :: p in paths <==> p in h) && LinesOf(paths, h) == lines
  }

  lemma PrintsOneMore(h: Hashes, paths: seq<string>, lines: seq<string>, p: string, digest: string)
    requires PrintsTo(h, paths, lines) && p !in paths
    ensures PrintsTo(h[p := digest], paths + [p], lines + [LineOf(p, digest)])
  {
    assert (paths + [p])[..|paths|] == paths;
    LinesOfAgree(paths, h[p := digest], h);
  }

  lemma EntriesOneMore(lines: seq<string>, line: string)
    requires AllEntries(lines + [line])
    ensures AllEntries(lines) && ReadLine(line).Entry? && PathsIn(lines + [line]) == PathsIn(lines) + [ReadLine(line).path]
  {
    var all := lines + [line];
    assert all[..|lines|] == lines && all[|lines|] == line;
    forall i | 0 <= i < |lines| ensures ReadLine(lines[i]).Entry? { assert all[i] == lines[i]; }
  }

  /** Entries with ascending paths are the lines printed for what they record. */
  lemma {:induction false} EntriesArePrinted(lines: seq<string>)
    requires AllEntries(lines) && Ascending(PathsIn(lines))
    ensures ReadLines(lines).Ok? && PrintsTo(ReadLines(lines).value, PathsIn(lines), lines)
  {
    if lines == [] {
    } else {
      var front, line := lines[..|lines| - 1], lines[|lines| - 1];
      assert lines == front + [line];
      EntriesOneMore(front, line);
      AscendingFront(PathsIn(front), ReadLine(line).path);
      EntriesArePrinted(front);
      EntryIsPrinted(line);
      ReadOneMore(front, line, ReadLine(line).path, ReadLine(line).digest);
      PrintsOneMore(ReadLines(front).value, PathsIn(front), front, ReadLine(line).path, ReadLine(line).digest);
    }
  }

  lemma {:induction false} PrintedAreEntries(paths: seq<string>, h: Hashes)
    requires AllSound(h) && forall p | p in paths :: p in h
    ensures AllEntries(LinesOf(paths, h)) && PathsIn(LinesOf(paths, h)) == paths
  {
    if paths == [] {
    } else {
      var front, p := paths[..|paths| - 1], paths[|paths| - 1];
      assert paths == front + [p];
      PrintedAreEntries(front, h);
      SoundLineReadsBack(p, h[p]);
      assert LinesOf(paths, h) == LinesOf(front, h) + [LineOf(p, h[p])];
      assert LinesOf(paths, h)[..|front|] == LinesOf(front, h);
    }
  }

  /** What printing emits, as lines: one empty line, or entries in ascending order of path. */
  ghost predicate PrintedLines(lines: seq<string>) {
    lines == [""] || (AllEntries(lines) && Ascending(PathsIn(lines)))
  }

  lemma PrintedTextHasTheForm(h: Hashes)
    requires AllSound(h)
    ensures var lines := SplitLines(Render(h)); Render(h) == Join(lines, "\n") + "\n" && PrintedLines(lines)
  {
    var paths := Sorted(h.Keys);
    SoundLinesReadBack(paths, h);
    EndedLinesReadBack(LinesOf(paths, h), "\n");
    PrintedAreEntries(paths, h);
    SortedAscends(h.Keys);
  }

  lemma FormIsPrinted(text: string)
    requires text == Join(SplitLines(text), "\n") + "\n" && PrintedLines(SplitLines(text))
    ensures Parse(text).Ok? && text == Render(Parse(text).value)
  {
    var lines := SplitLines(text);
    if lines == [""] {
      assert ReadLines([""][..0]) == Ok(map[]);
    } else {
      EntriesArePrinted(lines);
      AscendingIsSorted(PathsIn(lines), ReadLines(lines).value.Keys);
    }
  }

  /** Parsing accepts exactly what printing emits only of texts of this form: every line ended by a line
      feed, no blank line unless it is the only one, and the entries in ascending order of path, none twice.
      Any other text that parses (a blank line, another order, another line end, a missing final newline, a
      path given twice) is not one that printing emits. */
  lemma PrintedExactly(text: string)
    ensures Parse(text).Ok? && text == Render(Parse(text).value) <==>
            text == Join(SplitLines(text), "\n") + "\n" && PrintedLines(SplitLines(text))
  {
    if text == Join(SplitLines(text), "\n") + "\n" && PrintedLines(SplitLines(text)) {
      FormIsPrinted(text);
    } else if Parse(text).Ok? && text == Render(Parse(text).value) {
      AllLinesAreSingle(text);
      ParsedIsSound(SplitLines(text));
      PrintedTextHasTheForm(Parse(text).value);
    }
  }

  // ---- Comparing the tree with the manifest ----

  datatype Difference = Difference(modified: seq<string>, missing: seq<string>, unexpected: seq<string>)
  {
    predicate None() { modified == [] && missing == [] && unexpected == [] }
  }

  /** diff_tree_against_manifest. */
  function Diff(actual: Hashes, expected: Hashes): Difference {
    Difference(Sorted(set p | p in expected && p in actual && actual[p] != expected[p]),
               Sorted(set p | p in expected && p !in actual),
               Sorted(set p | p in actual && p !in expected))
  }

  function Lookup(h: Hashes, path: string): Option<string> {
    if path in h then Some(h[path]) else Option.None
  }

  /** Each list is sorted without repetition, no path is on two of them, and together they hold exactly the
      paths the two maps disagree about. */
  lemma DiffIsExact(actual: Hashes, expected: Hashes, p: string)
    ensures var d := Diff(actual, expected);
            && Ascending(d.modified) && Ascending(d.missing) && Ascending(d.unexpected)
            && !(p in d.modified && p in d.missing)
            && !(p in d.modified && p in d.unexpected)
            && !(p in d.missing && p in d.unexpected)
            && (p in d.missing <==> Lookup(actual, p).None? && Lookup(expected, p).Some?)
            && (p in d.unexpected <==> Lookup(actual, p).Some? && Lookup(expected, p).None?)
            && (p in d.modified || p in d.missing || p in d.unexpected <==> Lookup(actual, p) != Lookup(expected, p))
  {
    SortedAscends(set p | p in expected && p in actual && actual[p] != expected[p]);
    SortedAscends(set p | p in expected && p !in actual);
    SortedAscends(set p | p in actual && p !in expected);
  }

  lemma NoDifferenceMeansEqual(actual: Hashes, expected: Hashes)
    ensures Diff(actual, expected).None() <==> actual == expected
  {
    var d := Diff(actual, expected);
    forall p
      ensures p in d.modified || p in d.missing || p in d.unexpected <==> Lookup(actual, p) != Lookup(expected, p)
    {
      DiffIsExact(actual, expected, p);
    }
    if d.None() {
      forall p ensures p in actual <==> p in expected
               ensures p in actual ==> actual[p] == expected[p]
      {
        assert Lookup(actual, p) == Lookup(expected, p);
      }
    }
  }

  /** --check: the manifest parses and the tree matches it. */
  predicate Checks(tree: Hashes, text: string) {
    Parse(text).Ok? && Diff(tree, Parse(text).value).None()
  }

  /** A tree checks clean against the manifest just written from it exactly when its hashes print soundly;
      and then no other tree does. */
  lemma JustWrittenChecksClean(tree: Hashes, other: Hashes)
    ensures Checks(tree, Render(tree)) <==> AllSound(tree)
    ensures AllSound(tree) ==> (Checks(other, Render(tree)) <==> other == tree)
  {
    RoundTripExactly(tree);
    if Parse(Render(tree)).Ok? {
      NoDifferenceMeansEqual(tree, Parse(Render(tree)).value);
      NoDifferenceMeansEqual(other, Parse(Render(tree)).value);
    }
  }
}
