/** Lines with their boundaries, as str.splitlines(keepends=True) gives them, and texts whose boundaries are
    all the same. */
module LineEnds {
  import opened LineText
  import opened Sequences

  /** What follows the first line and its boundary. */
  function AfterFirst(s: string): (rest: string)
    requires LineLength(s) < |s|
    ensures |rest| < |s|
  {
    s[LineLength(s)..][BreakLength(s[LineLength(s)..])..]
  }

  /** The first line boundary. */
  function FirstBoundary(s: string): string
    requires LineLength(s) < |s|
  {
    s[LineLength(s)..][..BreakLength(s[LineLength(s)..])]
  }

  /** str.splitlines(keepends=True) */
  function Pieces(s: string): seq<string>
    decreases |s|
  {
    if s == "" then []
    else if LineLength(s) == |s| then [s]
    else [s[..LineLength(s)] + FirstBoundary(s)] + Pieces(AfterFirst(s))
  }

  /** Every line boundary in s is newline. */
  predicate Uniform(s: string, newline: string)
    decreases |s|
  {
    LineLength(s) == |s| || (FirstBoundary(s) == newline && Uniform(AfterFirst(s), newline))
  }

  predicate EndsInBreak(s: string) {
    s != "" && IsBreak(s[|s| - 1])
  }

  lemma FirstSplit(line: string, newline: string, rest: string)
    requires OneLine(line) && IsNewline(newline)
    ensures var s := line + (newline + rest);
            && LineLength(s) == |line| < |s| && s[..|line|] == line
            && FirstBoundary(s) == newline && AfterFirst(s) == rest
  {
    var s := line + (newline + rest);
    LineLengthOf(line, newline + rest);
    assert s[|line|..] == newline + rest;
    assert (newline + rest)[..|newline|] == newline && (newline + rest)[|newline|..] == rest;
  }

  lemma SplitFirst(s: string)
    requires LineLength(s) < |s|
    ensures OneLine(s[..LineLength(s)])
    ensures s == s[..LineLength(s)] + (FirstBoundary(s) + AfterFirst(s))
    ensures FirstBoundary(s) != "" && IsBreak(FirstBoundary(s)[0])
  {
    FirstLineIsOneLine(s);
    LineLengthEnds(s);
    CutTwice(s, LineLength(s), BreakLength(s[LineLength(s)..]));
  }

  lemma CutTwice(s: string, n: nat, m: nat)
    requires n + m <= |s|
    ensures s == s[..n] + (s[n..][..m] + s[n..][m..])
  {
    assert s[n..] == s[n..][..m] + s[n..][m..];
    assert s == s[..n] + s[n..];
  }

  lemma FirstLineIsOneLine(s: string)
    ensures OneLine(s[..LineLength(s)])
  {
    var n := LineLength(s);
    forall c | c in s[..n] ensures !IsBreak(c) {
      var k :| 0 <= k < n && s[k] == c;
      LineStops(s, k);
    }
  }

  lemma {:induction false} LineLengthEnds(s: string)
    requires LineLength(s) < |s|
    ensures IsBreak(s[LineLength(s)])
  {
    if IsBreak(s[0]) {
    } else {
      LineLengthEnds(s[1..]);
    }
  }

  // ---- Uniform texts are joined lines ----

  lemma {:induction false} JoinedIsUniform(lines: seq<string>, newline: string)
    requires IsNewline(newline) && forall line | line in lines :: OneLine(line)
    ensures Uniform(Join(lines, newline), newline)
    ensures Uniform(Join(lines, newline) + newline, newline)
  {
    if |lines| <= 1 {
      var line := Join(lines, newline);
      assert line + "" == line && newline + "" == newline;
      LineLengthOf(line, "");
      FirstSplit(line, newline, "");
    } else {
      var rest := Join(lines[1..], newline);
      JoinedIsUniform(lines[1..], newline);
      FirstSplit(lines[0], newline, rest);
      JoinEnded(lines, newline);
      FirstSplit(lines[0], newline, rest + newline);
    }
  }

  lemma JoinMore(line: string, lines: seq<string>, newline: string)
    requires lines != []
    ensures Join([line] + lines, newline) == line + (newline + Join(lines, newline))
  {
    assert ([line] + lines)[1..] == lines;
  }

  lemma SameEnd(line: string, newline: string, rest: string)
    requires IsNewline(newline)
    ensures EndsInBreak(line + (newline + rest)) <==> rest == "" || EndsInBreak(rest)
  {
    var s := line + (newline + rest);
    if rest == "" {
      assert s[|s| - 1] == newline[|newline| - 1];
    } else {
      assert s[|s| - 1] == rest[|rest| - 1];
    }
  }

  lemma JoinedStep(line: string, newline: string, rest: string, lines: seq<string>, end: string)
    requires rest == Join(lines, newline) + end
    requires lines == [] ==> rest == "" && end == ""
    ensures line + (newline + rest) ==
            if lines == [] then Join([line], newline) + newline else Join([line] + lines, newline) + end
  {
    if lines != [] { JoinMore(line, lines, newline); }
  }

  lemma {:induction false} NoLinesNoText(s: string)
    ensures SplitLines(s) == [] <==> s == ""
  {
  }

  function FinalBoundary(s: string, newline: string): string {
    if EndsInBreak(s) then newline else ""
  }

  /** s is its lines joined, and ended when it ends in a boundary. */
  ghost predicate IsJoined(s: string, newline: string) {
    s == Join(SplitLines(s), newline) + FinalBoundary(s, newline)
  }

  lemma JoinedFirst(line: string, newline: string, rest: string)
    requires OneLine(line) && IsNewline(newline) && IsJoined(rest, newline)
    ensures IsJoined(line + (newline + rest), newline)
  {
    NoLinesNoText(rest);
    SameEnd(line, newline, rest);
    FirstLine(line, newline, rest);
    JoinedStep(line, newline, rest, SplitLines(rest), FinalBoundary(rest, newline));
    if rest == "" { assert [line] + SplitLines(rest) == [line]; }
  }

  lemma {:induction false} UniformIsJoined(s: string, newline: string)
    requires IsNewline(newline) && Uniform(s, newline)
    ensures IsJoined(s, newline)
    decreases |s|
  {
    if LineLength(s) == |s| {
      FirstLineIsOneLine(s);
      assert s[..|s|] == s;
    } else {
      SplitFirst(s);
      UniformIsJoined(AfterFirst(s), newline);
      JoinedFirst(s[..LineLength(s)], newline, AfterFirst(s));
    }
  }

  // ---- The pieces of joined lines ----

  function EndAll(lines: seq<string>, newline: string): seq<string> {
    if lines == [] then [] else EndAll(lines[..|lines| - 1], newline) + [lines[|lines| - 1] + newline]
  }

  lemma {:induction false} EndAllJoin(a: seq<string>, b: seq<string>, newline: string)
    ensures EndAll(a + b, newline) == EndAll(a, newline) + EndAll(b, newline)
  {
    if b == [] {
      assert a + b == a;
    } else {
      assert (a + b)[..|a + b| - 1] == a + b[..|b| - 1];
      EndAllJoin(a, b[..|b| - 1], newline);
    }
  }

  lemma EndAllFirst(line: string, lines: seq<string>, newline: string)
    ensures EndAll([line] + lines, newline) == [line + newline] + EndAll(lines, newline)
  {
    EndAllJoin([line], lines, newline);
    assert EndAll([line], newline) == [] + [line + newline];
  }

  lemma FirstPiece(line: string, newline: string, rest: string)
    requires OneLine(line) && IsNewline(newline)
    ensures Pieces(line + (newline + rest)) == [line + newline] + Pieces(rest)
  {
    FirstSplit(line, newline, rest);
  }

  lemma {:induction false} EndedPieces(lines: seq<string>, newline: string)
    requires IsNewline(newline) && lines != [] && forall line | line in lines :: OneLine(line)
    ensures Pieces(Join(lines, newline) + newline) == EndAll(lines, newline)
  {
    var first, rest := lines[0], lines[1..];
    assert lines == [first] + rest;
    EndAllFirst(first, rest, newline);
    if rest == [] {
      assert newline + "" == newline;
      FirstPiece(first, newline, "");
    } else {
      JoinEnded(lines, newline);
      EndedPieces(rest, newline);
      FirstPiece(first, newline, Join(rest, newline) + newline);
    }
  }

  /** What the last line leaves when no boundary follows it. */
  function Unended(line: string): seq<string> {
    if line == "" then [] else [line]
  }

  /** The pieces of lines joined without a final boundary. */
  function JoinedEnds(lines: seq<string>, newline: string): seq<string>
    requires lines != []
  {
    EndAll(lines[..|lines| - 1], newline) + Unended(lines[|lines| - 1])
  }

  lemma JoinedEndsFirst(line: string, lines: seq<string>, newline: string)
    requires lines != []
    ensures JoinedEnds([line] + lines, newline) == [line + newline] + JoinedEnds(lines, newline)
  {
    var front := lines[..|lines| - 1];
    assert ([line] + lines)[..|lines|] == [line] + front;
    EndAllFirst(line, front, newline);
    Regroup([line + newline], EndAll(front, newline), Unended(lines[|lines| - 1]));
  }

  lemma {:induction false} JoinedPieces(lines: seq<string>, newline: string)
    requires IsNewline(newline) && lines != [] && forall line | line in lines :: OneLine(line)
    ensures Pieces(Join(lines, newline)) == JoinedEnds(lines, newline)
  {
    var first, rest := lines[0], lines[1..];
    assert lines == [first] + rest;
    if rest == [] {
      assert first + "" == first;
      LineLengthOf(first, "");
      assert lines[..0] == [];
    } else {
      JoinedPieces(rest, newline);
      FirstPiece(first, newline, Join(rest, newline));
      JoinedEndsFirst(first, rest, newline);
    }
  }

  /** A line with no boundary, or with this one. */
  ghost predicate PieceOk(p: string, newline: string) {
    OneLine(p) || EndedPiece(p, newline)
  }

  ghost predicate EndedPiece(p: string, newline: string) {
    |newline| <= |p| && p[|p| - |newline|..] == newline && OneLine(p[..|p| - |newline|])
  }

  lemma {:induction false} EndAllEnds(lines: seq<string>, newline: string, p: string)
    requires p in EndAll(lines, newline) && forall line | line in lines :: OneLine(line)
    ensures EndedPiece(p, newline)
  {
    var front, last := lines[..|lines| - 1], lines[|lines| - 1];
    if p == last + newline {
      assert p[..|last|] == last && p[|last|..] == newline;
    } else {
      EndAllEnds(front, newline, p);
    }
  }

  lemma EndedIsNotOneLine(p: string, newline: string)
    requires EndedPiece(p, newline) && IsNewline(newline)
    ensures !OneLine(p)
  {
    var c := p[|p| - |newline|..][0];
    assert c in p;
  }

  lemma {:induction false} OkPiecesAreUniform(s: string, newline: string)
    requires IsNewline(newline) && forall p | p in Pieces(s) :: PieceOk(p, newline)
    ensures Uniform(s, newline)
    decreases |s|
  {
    if LineLength(s) == |s| {
    } else {
      var p, rest := s[..LineLength(s)] + FirstBoundary(s), AfterFirst(s);
      SplitFirst(s);
      assert Pieces(s) == [p] + Pieces(rest);
      FirstBoundaryIs(s, p, newline);
      OkPiecesAreUniform(rest, newline);
    }
  }

  lemma FirstBoundaryIs(s: string, p: string, newline: string)
    requires LineLength(s) < |s| && p == s[..LineLength(s)] + FirstBoundary(s)
    requires IsNewline(newline) && PieceOk(p, newline)
    ensures FirstBoundary(s) == newline
  {
    SplitFirst(s);
    assert p[LineLength(s)] == FirstBoundary(s)[0] && p[LineLength(s)] in p;
    var line := p[..|p| - |newline|];
    assert p == line + newline;
    LineLengthOf(line, newline);
    LineLengthOf(s[..LineLength(s)], FirstBoundary(s));
    assert p[|line|..] == newline && p[LineLength(s)..] == FirstBoundary(s);
  }

  // ---- Subsequences of pieces ----

  lemma {:induction false} SubsequenceHas(a: seq<string>, b: seq<string>, x: string)
    requires Subsequence(a, b) && x in a
    ensures x in b
  {
    if a[|a| - 1] == b[|b| - 1] && Subsequence(a[..|a| - 1], b[..|b| - 1]) {
      if x != a[|a| - 1] { SubsequenceHas(a[..|a| - 1], b[..|b| - 1], x); }
    } else {
      SubsequenceHas(a, b[..|b| - 1], x);
    }
  }

  lemma {:induction false} SubsequenceFront(a: seq<string>, b: seq<string>)
    requires Subsequence(a, b) && a != []
    ensures Subsequence(a[..|a| - 1], b)
  {
    if a[|a| - 1] == b[|b| - 1] && Subsequence(a[..|a| - 1], b[..|b| - 1]) {
    } else {
      SubsequenceFront(a, b[..|b| - 1]);
    }
  }

  lemma {:induction false} EndAllSubsequence(a: seq<string>, b: seq<string>, newline: string)
    requires Subsequence(a, b)
    ensures Subsequence(EndAll(a, newline), EndAll(b, newline))
  {
    if a == [] {
    } else {
      var front, y := b[..|b| - 1], b[|b| - 1];
      var aFront := a[..|a| - 1];
      SubsequenceStep(EndAll(a, newline), EndAll(front, newline), y + newline);
      if a[|a| - 1] == y && Subsequence(aFront, front) {
        EndAllSubsequence(aFront, front, newline);
        assert EndAll(a, newline)[..|aFront|] == EndAll(aFront, newline) by { EndAllLength(aFront, newline); }
      } else {
        EndAllSubsequence(a, front, newline);
      }
    }
  }

  lemma {:induction false} EndAllLength(lines: seq<string>, newline: string)
    ensures |EndAll(lines, newline)| == |lines|
  {
    if lines == [] {
    } else {
      EndAllLength(lines[..|lines| - 1], newline);
    }
  }

  /** With the same last line, unended in both, the lines before it stay a subsequence and so do the pieces. */
  lemma UnendedSubsequence(a: seq<string>, b: seq<string>, newline: string)
    requires a != [] && b != [] && Subsequence(a, b) && a[|a| - 1] == b[|b| - 1]
    ensures Subsequence(JoinedEnds(a, newline), JoinedEnds(b, newline))
  {
    var x, xs, ys := a[|a| - 1], a[..|a| - 1], b[..|b| - 1];
    if !Subsequence(xs, ys) { SubsequenceFront(a, ys); }
    EndAllSubsequence(xs, ys, newline);
    var p, q := EndAll(xs, newline), EndAll(ys, newline);
    if x == "" {
      assert p + [] == p && q + [] == q;
    } else {
      SubsequenceStep(p + [x], q, x);
      assert (p + [x])[..|p|] == p;
    }
  }
}
