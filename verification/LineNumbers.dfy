/** The two ways scan_source counts lines: by line feeds before an offset, and by splitlines. */
module LineNumbers {
  import opened LineText
  import opened LineEnds
  import opened FocusCue

  lemma {:induction false} NewlinesJoin(a: string, b: string)
    ensures Newlines(a + b) == Newlines(a) + Newlines(b)
  {
    if b == [] {
      assert a + b == a;
    } else {
      assert (a + b)[..|a + b| - 1] == a + b[..|b| - 1];
      NewlinesJoin(a, b[..|b| - 1]);
    }
  }

  lemma {:induction false} NoNewlines(a: string)
    requires '\n' !in a
    ensures Newlines(a) == 0
  {
    if a == [] {
    } else {
      assert forall c | c in a[..|a| - 1] :: c in a;
      NoNewlines(a[..|a| - 1]);
    }
  }

  // ---- Texts as their lines with boundaries ----

  function Text(pieces: seq<string>): string {
    if pieces == [] then "" else pieces[0] + Text(pieces[1..])
  }

  /** A non-empty line with at most its own boundary, in which a line feed can only be last. */
  ghost predicate IsPiece(p: string) {
    p != "" && '\n' !in p[..|p| - 1]
  }

  /** Pieces of which only the last may have no boundary. */
  ghost predicate WellCut(pieces: seq<string>) {
    pieces == [] || (&& IsPiece(pieces[0]) && (|pieces| > 1 ==> EndsInBreak(pieces[0]))
                     && WellCut(pieces[1..]))
  }

  lemma FirstIsPiece(line: string, boundary: string)
    requires OneLine(line) && (boundary == "\r\n" || (|boundary| == 1 && IsBreak(boundary[0])))
    ensures IsPiece(line + boundary) && EndsInBreak(line + boundary)
  {
    var p := line + boundary;
    assert p[|p| - 1] == boundary[|boundary| - 1];
    forall i | 0 <= i < |p| - 1 ensures p[i] != '\n' {
      assert i < |line| ==> line[i] in line;
    }
  }

  lemma BoundaryIs(t: string)
    requires t != "" && IsBreak(t[0])
    ensures var b := t[..BreakLength(t)]; b == "\r\n" || (|b| == 1 && IsBreak(b[0]))
  {
  }

  /** splitlines(keepends=True) cuts a text well, and loses nothing. */
  lemma {:induction false} PiecesAreWellCut(s: string)
    ensures WellCut(Pieces(s)) && Text(Pieces(s)) == s && |Pieces(s)| == |SplitLines(s)|
    decreases |s|
  {
    if s == "" {
    } else if LineLength(s) == |s| {
      UnendedIsPiece(s);
    } else {
      PiecesAreWellCut(AfterFirst(s));
      FirstPieceIs(s);
      TextOfMore(s[..LineLength(s)], FirstBoundary(s), AfterFirst(s), Pieces(AfterFirst(s)));
    }
  }

  lemma UnendedIsPiece(s: string)
    requires LineLength(s) == |s| > 0
    ensures WellCut([s]) && Text([s]) == s
  {
    FirstLineIsOneLine(s);
    assert s[..|s|] == s && forall c | c in s[..|s| - 1] :: c in s;
    assert [s][1..] == [];
  }

  lemma FirstPieceIs(s: string)
    requires LineLength(s) < |s|
    ensures IsPiece(s[..LineLength(s)] + FirstBoundary(s)) && EndsInBreak(s[..LineLength(s)] + FirstBoundary(s))
    ensures s == s[..LineLength(s)] + (FirstBoundary(s) + AfterFirst(s))
  {
    SplitFirst(s);
    LineLengthEnds(s);
    BoundaryIs(s[LineLength(s)..]);
    FirstIsPiece(s[..LineLength(s)], FirstBoundary(s));
  }

  lemma TextOfMore(line: string, boundary: string, rest: string, pieces: seq<string>)
    requires Text(pieces) == rest
    ensures Text([line + boundary] + pieces) == line + (boundary + rest)
    ensures ([line + boundary] + pieces)[1..] == pieces
  {
    assert ([line + boundary] + pieces)[1..] == pieces;
    assert (line + boundary) + rest == line + (boundary + rest);
  }

  // ---- The index of a line ----

  /** The index of the piece that offset k lies in; the end of a text is on its last line, or on the one
      after it if that is ended. */
  function IndexIn(pieces: seq<string>, k: nat): nat {
    if pieces == [] || k < |pieces[0]| || !EndsInBreak(pieces[0]) then 0
    else 1 + IndexIn(pieces[1..], k - |pieces[0]|)
  }

  /** The index that splitlines gives the line offset k lies in. */
  function LineIndex(s: string, k: nat): nat {
    IndexIn(Pieces(s), k)
  }

  /** The offset at which piece i starts. */
  function Offset(pieces: seq<string>, i: nat): nat
    requires i <= |pieces|
  {
    if i == 0 then 0 else |pieces[0]| + Offset(pieces[1..], i - 1)
  }

  lemma {:induction false} IndexIsRight(pieces: seq<string>, k: nat)
    requires WellCut(pieces) && k < |Text(pieces)|
    ensures var i := IndexIn(pieces, k); i < |pieces| && Offset(pieces, i) <= k < Offset(pieces, i + 1)
  {
    if k < |pieces[0]| {
      assert Offset(pieces[1..], 0) == 0;
    } else {
      assert |pieces| == 1 ==> pieces[1..] == [];
      IndexIsRight(pieces[1..], k - |pieces[0]|);
    }
  }

  /** That is what it is: offset k lies within that piece, and splitlines has a line of that index. */
  lemma LineIndexIsRight(s: string, k: nat)
    requires k < |s|
    ensures var i := LineIndex(s, k);
            i < |Pieces(s)| == |SplitLines(s)| && Offset(Pieces(s), i) <= k < Offset(Pieces(s), i + 1)
  {
    PiecesAreWellCut(s);
    IndexIsRight(Pieces(s), k);
  }

  // ---- When counting line feeds gives it ----

  /** Every piece that has a boundary ends in a line feed. */
  predicate Feeds(pieces: seq<string>) {
    pieces == [] || ((EndsInBreak(pieces[0]) ==> pieces[0][|pieces[0]| - 1] == '\n') && Feeds(pieces[1..]))
  }

  /** Every line boundary of s is a line feed, alone or after a carriage return. */
  predicate FeedsOnly(s: string) {
    Feeds(Pieces(s))
  }

  lemma PieceCounts(p: string, k: nat)
    requires IsPiece(p) && k <= |p|
    ensures Newlines(p[..k]) == if k == |p| && p[|p| - 1] == '\n' then 1 else 0
  {
    var front := p[..|p| - 1];
    if k < |p| {
      assert forall c | c in p[..k] :: c in front;
      NoNewlines(p[..k]);
    } else {
      assert p[..k] == front + [p[|p| - 1]];
      NoNewlines(front);
      NewlinesJoin(front, [p[|p| - 1]]);
      assert Newlines([p[|p| - 1]]) == Newlines([]) + if p[|p| - 1] == '\n' then 1 else 0;
    }
  }

  lemma TextPrefix(p: string, rest: string, k: nat)
    requires IsPiece(p) && k <= |p| + |rest|
    ensures k < |p| ==> Newlines((p + rest)[..k]) == 0
    ensures k >= |p| ==>
              Newlines((p + rest)[..k]) == (if p[|p| - 1] == '\n' then 1 else 0) + Newlines(rest[..k - |p|])
  {
    if k < |p| {
      assert (p + rest)[..k] == p[..k];
      PieceCounts(p, k);
    } else {
      assert (p + rest)[..k] == p[..|p|] + rest[..k - |p|];
      NewlinesJoin(p[..|p|], rest[..k - |p|]);
      PieceCounts(p, |p|);
    }
  }

  lemma {:induction false} FeedsAgree(pieces: seq<string>, k: nat)
    requires WellCut(pieces) && Feeds(pieces) && k <= |Text(pieces)|
    ensures Newlines(Text(pieces)[..k]) == IndexIn(pieces, k)
  {
    if pieces == [] {
    } else {
      TextPrefix(pieces[0], Text(pieces[1..]), k);
      if k >= |pieces[0]| { FeedsAgree(pieces[1..], k - |pieces[0]|); }
      if !EndsInBreak(pieces[0]) { assert pieces[1..] == []; }
    }
  }

  lemma {:induction false} OthersDisagree(pieces: seq<string>) returns (k: nat)
    requires WellCut(pieces) && !Feeds(pieces)
    ensures k <= |Text(pieces)| && Newlines(Text(pieces)[..k]) != IndexIn(pieces, k)
  {
    var p, rest := pieces[0], Text(pieces[1..]);
    var later := 0;
    if EndsInBreak(p) ==> p[|p| - 1] == '\n' {
      later := OthersDisagree(pieces[1..]);
    }
    k := |p| + later;
    TextPrefix(p, rest, k);
    assert rest[..0] == [];
  }

  /** The line feeds before offset k are as many as the lines before its line. */
  ghost predicate Agrees(s: string, k: nat)
    requires k <= |s|
  {
    Newlines(s[..k]) == LineIndex(s, k)
  }

  /** Counting line feeds gives the index of the line at every offset of a text exactly when line feeds, alone
      or after carriage returns, are its only line boundaries. After a form feed, a lone carriage return or
      another boundary of splitlines the count falls behind. */
  lemma LineIndicesAgreeExactly(s: string)
    ensures (forall k: nat | k <= |s| :: Agrees(s, k)) <==> FeedsOnly(s)
  {
    PiecesAreWellCut(s);
    if FeedsOnly(s) {
      forall k: nat | k <= |s| ensures Agrees(s, k) { FeedsAgree(Pieces(s), k); }
    } else {
      var k := OthersDisagree(Pieces(s));
      assert !Agrees(s, k);
    }
  }
}
