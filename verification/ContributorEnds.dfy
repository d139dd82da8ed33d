/** What adding contributors does to the line ends of the file. */
module ContributorEnds {
  import opened Wrappers
  import opened StringOrder
  import opened LineText
  import opened LineEnds
  import opened ContributorEntry
  import opened Contributors

  lemma EndedMeansBreak(text: string)
    requires Uniform(text, NewlineOf(text))
    ensures Ended(text) <==> EndsInBreak(text)
  {
    UniformIsJoined(text, NewlineOf(text));
    if EndsInBreak(text) {
      var newline := NewlineOf(text);
      assert text[|text| - 1] == newline[|newline| - 1];
    }
  }

  lemma NoReturnAdded(line: string, rest: string)
    requires OneLine(line) && '\r' !in rest
    ensures '\r' !in line + ("\n" + rest)
  {
    assert IsBreak('\r');
  }

  lemma {:induction false} NoReturns(s: string)
    requires Uniform(s, "\n")
    ensures '\r' !in s
    decreases |s|
  {
    if LineLength(s) == |s| {
      FirstLineIsOneLine(s);
      assert s[..|s|] == s && IsBreak('\r');
    } else {
      SplitFirst(s);
      NoReturns(AfterFirst(s));
      NoReturnAdded(s[..LineLength(s)], AfterFirst(s));
    }
  }

  lemma PairIsFound(s: string)
    requires Uniform(s, "\r\n") && LineLength(s) < |s|
    ensures HasCrLf(s)
  {
    var n := LineLength(s);
    SplitFirst(s);
    assert s[n] == '\r' && s[n + 1] == '\n';
  }

  /** The newline written is the text's own, if all its boundaries are line feeds, or all are the pair of carriage
      return and line feed. */
  lemma NewlineFits(text: string)
    ensures Uniform(text, NewlineOf(text)) <==> Uniform(text, "\n") || Uniform(text, "\r\n")
  {
    if HasCrLf(text) {
      var i :| 0 <= i < |text| - 1 && text[i] == '\r' && text[i + 1] == '\n';
      assert text[i] in text;
    }
    if Uniform(text, "\n") { NoReturns(text); }
    if Uniform(text, "\r\n") && LineLength(text) < |text| { PairIsFound(text); }
  }

  lemma UniformIsWrittenBack(text: string)
    ensures Written(SplitLines(text), text) == text <==> Uniform(text, NewlineOf(text))
  {
    var newline := NewlineOf(text);
    if Uniform(text, newline) {
      EndedMeansBreak(text);
      UniformIsJoined(text, newline);
    }
    AllLinesAreSingle(text);
    JoinedIsUniform(SplitLines(text), newline);
    assert Join(SplitLines(text), newline) + "" == Join(SplitLines(text), newline);
  }

  /** Splitting a text and writing its lines gives the text back exactly when every line boundary in it is
      a line feed, or every one is the pair of carriage return and line feed. */
  lemma WritingBackIsExact(text: string)
    ensures Written(SplitLines(text), text) == text <==> Uniform(text, "\n") || Uniform(text, "\r\n")
  {
    NewlineFits(text);
    UniformIsWrittenBack(text);
  }

  /** With two kinds of line ends, writing the lines back changes one of them. */
  lemma MixedEndsAreRewritten(a: string, b: string)
    requires OneLine(a) && OneLine(b)
    ensures var text := a + ("\n" + (b + ("\r\n" + "")));
            Written(SplitLines(text), text) == a + ("\r\n" + b) + "\r\n" != text
  {
    var rest := b + ("\r\n" + "");
    var text := a + ("\n" + rest);
    FirstLine(a, "\n", rest);
    FirstLine(b, "\r\n", "");
    MixedEnds(a, b);
    assert SplitLines(text) == [a] + [b];
    JoinMore(a, [b], "\r\n");
  }

  lemma MixedEnds(a: string, b: string)
    ensures var text := a + ("\n" + (b + ("\r\n" + ""))); HasCrLf(text) && Ended(text)
  {
    var text := a + ("\n" + (b + ("\r\n" + "")));
    var i := |a| + 1 + |b|;
    assert text[i] == '\r' && text[i + 1] == '\n';
  }

  /** The pieces of the file written for these lines. */
  function WrittenPieces(lines: seq<string>, text: string): seq<string>
    requires lines != []
  {
    if Ended(text) then EndAll(lines, NewlineOf(text)) else JoinedEnds(lines, NewlineOf(text))
  }

  lemma PiecesOfWritten(lines: seq<string>, text: string)
    requires lines != [] && forall line | line in lines :: OneLine(line)
    ensures Pieces(Written(lines, text)) == WrittenPieces(lines, text)
  {
    if Ended(text) {
      EndedPieces(lines, NewlineOf(text));
    } else {
      assert Written(lines, text) == Join(lines, NewlineOf(text));
      JoinedPieces(lines, NewlineOf(text));
    }
  }

  lemma WrittenPieceIs(lines: seq<string>, text: string, p: string)
    requires lines != [] && forall line | line in lines :: OneLine(line)
    requires p in WrittenPieces(lines, text)
    ensures EndedPiece(p, NewlineOf(text)) || (!Ended(text) && p == lines[|lines| - 1])
  {
    if Ended(text) {
      EndAllEnds(lines, NewlineOf(text), p);
    } else if p in EndAll(lines[..|lines| - 1], NewlineOf(text)) {
      EndAllEnds(lines[..|lines| - 1], NewlineOf(text), p);
    }
  }

  /** A uniform text is written for its own lines; when it is not ended, its last line is not empty. */
  lemma UniformText(text: string)
    requires Uniform(text, NewlineOf(text)) && text != ""
    ensures var lines := SplitLines(text);
            && lines != [] && (forall line | line in lines :: OneLine(line))
            && Pieces(text) == WrittenPieces(lines, text)
            && (!Ended(text) ==> lines[|lines| - 1] != "")
  {
    var lines := SplitLines(text);
    AllLinesAreSingle(text);
    NoLinesNoText(text);
    UniformIsWrittenBack(text);
    PiecesOfWritten(lines, text);
    WrittenReadsBack(lines, text);
  }

  /** The kept lines stay with their line ends, when the last of them needs no new end. */
  lemma EndsStay(lines: seq<string>, after: seq<string>, text: string)
    requires lines != [] && after != [] && Subsequence(lines, after)
    requires Ended(text) || lines[|lines| - 1] == after[|after| - 1]
    ensures Subsequence(WrittenPieces(lines, text), WrittenPieces(after, text))
  {
    if Ended(text) {
      EndAllSubsequence(lines, after, NewlineOf(text));
    } else {
      UnendedSubsequence(lines, after, NewlineOf(text));
    }
  }

  lemma KeptPiecesAreUniform(text: string, after: seq<string>)
    requires after != [] && forall line | line in after :: OneLine(line)
    requires Subsequence(Pieces(text), WrittenPieces(after, text))
    ensures Uniform(text, NewlineOf(text))
  {
    forall p | p in Pieces(text) ensures PieceOk(p, NewlineOf(text)) {
      SubsequenceHas(Pieces(text), WrittenPieces(after, text), p);
      WrittenPieceIs(after, text, p);
    }
    OkPiecesAreUniform(text, NewlineOf(text));
  }

  lemma LastLineStays(text: string, after: seq<string>)
    requires after != [] && (forall line | line in after :: OneLine(line)) && text != "" && !Ended(text)
    requires Uniform(text, NewlineOf(text)) && Subsequence(Pieces(text), WrittenPieces(after, text))
    ensures SplitLines(text) != []
    ensures SplitLines(text)[|SplitLines(text)| - 1] == after[|after| - 1]
  {
    UniformText(text);
    var lines := SplitLines(text);
    var last := lines[|lines| - 1];
    assert last in Unended(last) && last in Pieces(text);
    SubsequenceHas(Pieces(text), WrittenPieces(after, text), last);
    WrittenPieceIs(after, text, last);
    if EndedPiece(last, NewlineOf(text)) { EndedIsNotOneLine(last, NewlineOf(text)); }
  }

  // ---- Which line is last ----

  lemma InsertHas(block: seq<string>, r: Record, g: Grammar, line: string)
    ensures line in Insert(block, r, g) <==> line in block || line == g.entry(r)
  {
    var p := Position(block, g.Key(r), g);
    assert block == block[..p] + block[p..];
  }

  lemma InsertedAfter(block: seq<string>, r: Record, key: string, g: Grammar)
    requires Coherent(g) && g.valid(r.login)
    ensures SomeAfter(Insert(block, r, g), key, g) <==> SomeAfter(block, key, g) || !Le(g.Key(r), key)
  {
    var now, x := Insert(block, r, g), g.entry(r);
    forall line ensures line in now <==> line in block || line == x { InsertHas(block, r, g, line); }
    assert g.entryLogin(x) == Some(r.login);
    assert g.After(x, key) <==> !Le(g.Key(r), key);
    assert x in now;
    if line :| line in block && g.After(line, key) { assert line in now; }
  }

  /** What comes after r, which comes after the key, comes after the key. */
  lemma AfterIsTransitive(block: seq<string>, r: Record, key: string, g: Grammar)
    requires SomeAfter(block, g.Key(r), g) && !Le(g.Key(r), key)
    ensures SomeAfter(block, key, g)
  {
    var line :| line in block && g.After(line, g.Key(r));
    var own := g.fold(g.entryLogin(line).value);
    LeTotal(g.Key(r), key);
    if Le(own, key) { LeTransitive(own, key, g.Key(r)); }
    assert g.After(line, key);
  }

  /** Every record has an entry of the block after it. */
  ghost predicate AllHaveAfter(block: seq<string>, rs: seq<Record>, g: Grammar) {
    rs == [] || (AllHaveAfter(block, rs[..|rs| - 1], g) && SomeAfter(block, g.Key(rs[|rs| - 1]), g))
  }

  /** As long as every record inserted has an entry after it in the block, that stays true of no more keys. */
  lemma {:induction false} AfterStays(block: seq<string>, rs: seq<Record>, key: string, g: Grammar)
    requires Coherent(g) && (forall r | r in rs :: g.valid(r.login)) && AllHaveAfter(block, rs, g)
    ensures SomeAfter(InsertAll(block, rs, g), key, g) <==> SomeAfter(block, key, g)
  {
    if rs == [] {
    } else {
      var front, r := rs[..|rs| - 1], rs[|rs| - 1];
      assert rs == front + [r];
      AfterStays(block, front, key, g);
      InsertedAfter(InsertAll(block, front, g), r, key, g);
      if !Le(g.Key(r), key) { AfterIsTransitive(block, r, key, g); }
    }
  }

  lemma LastAfterInsert(block: seq<string>, r: Record, g: Grammar)
    requires block != []
    ensures var now := Insert(block, r, g);
            now != [] && now[|now| - 1] == if SomeAfter(block, g.Key(r), g) then block[|block| - 1] else g.entry(r)
  {
    AppendedExactly(block, g.Key(r), g);
  }

  /** The last line of the block stays last when every record inserted has an entry after it there; otherwise
      one of the new entries ends up last. */
  lemma {:induction false} LastOfBlock(block: seq<string>, rs: seq<Record>, g: Grammar)
    requires Coherent(g) && (forall r | r in rs :: g.valid(r.login)) && block != []
    ensures var now := InsertAll(block, rs, g);
            && now != []
            && (AllHaveAfter(block, rs, g) ==> now[|now| - 1] == block[|block| - 1])
            && (!AllHaveAfter(block, rs, g) ==> exists r | r in rs :: now[|now| - 1] == g.entry(r))
  {
    if rs == [] {
    } else {
      var front, r := rs[..|rs| - 1], rs[|rs| - 1];
      assert rs == front + [r];
      LastOfBlock(block, front, g);
      LastAfterInsert(InsertAll(block, front, g), r, g);
      if AllHaveAfter(block, front, g) { AfterStays(block, front, g.Key(r), g); }
    }
  }

  /** A new entry is none of the old lines. */
  lemma NewEntryIsNew(lines: seq<string>, taken: set<string>, records: seq<Record>, g: Grammar, r: Record, i: nat)
    requires Coherent(g) && Credits(lines, g) <= taken && r in Novel(records, taken, g) && i < |lines|
    ensures g.entry(r) != lines[i]
  {
    NovelAre(records, taken, g, r);
    assert g.Enters(g.entry(r), g.Key(r));
    assert lines == lines[..i] + ([lines[i]] + lines[i + 1..]);
    CreditsJoin(lines[..i], [lines[i]] + lines[i + 1..], g);
    CreditsJoin([lines[i]], lines[i + 1..], g);
    assert Credits([lines[i]], g) == Credits([], g) + g.credits(lines[i]);
  }

  /** A text's last line stays last: the block is followed by something, or everybody added has an entry after
      them in it. */
  ghost predicate LastStaysLast(lines: seq<string>, start: nat, end: nat, rs: seq<Record>, g: Grammar)
    requires start <= end <= |lines|
  {
    end < |lines| || AllHaveAfter(lines[start..end], rs, g)
  }

  lemma LastOfThree(pre: seq<string>, block: seq<string>, post: seq<string>)
    requires block != []
    ensures var all := pre + (block + post);
            all != [] && all[|all| - 1] == if post == [] then block[|block| - 1] else post[|post| - 1]
  {
  }

  /** The last line of the block, one of the old lines, stays its last exactly then. */
  lemma BlockLastStays(lines: seq<string>, block: seq<string>, last: nat, records: seq<Record>, taken: set<string>,
                       g: Grammar)
    requires Coherent(g) && Credits(lines, g) <= taken
    requires block != [] && last < |lines| && block[|block| - 1] == lines[last]
    ensures var rs := Novel(records, taken, g);
            var now := InsertAll(block, rs, g);
            now != [] && (now[|now| - 1] == block[|block| - 1] <==> AllHaveAfter(block, rs, g))
  {
    var rs := Novel(records, taken, g);
    forall r | r in rs ensures g.valid(r.login) && g.entry(r) != lines[last] {
      NovelAre(records, taken, g, r);
      NewEntryIsNew(lines, taken, records, g, r, last);
    }
    LastOfBlock(block, rs, g);
  }

  lemma LastLineStaysExactly(lines: seq<string>, start: nat, end: nat, records: seq<Record>, optout: set<string>,
                             g: Grammar)
    requires Coherent(g) && IsBlock(lines, start, end, g)
    ensures var rs := Chosen(lines, records, optout, g);
            var after := WithNew(lines, start, end, rs, g);
            && after != []
            && (lines[|lines| - 1] == after[|after| - 1] <==> LastStaysLast(lines, start, end, rs, g))
  {
    var rs := Chosen(lines, records, optout, g);
    var block := lines[start..end];
    LastOfThree(lines[..start], block, lines[end..]);
    AroundBlock(lines, start, end);
    assert block[|block| - 1] == lines[end - 1];
    BlockLastStays(lines, block, end - 1, records, Credits(lines, g) + optout, g);
    LastOfThree(lines[..start], InsertAll(block, rs, g), lines[end..]);
  }

  /** What is written when somebody is added. */
  lemma AddedText(text: string, records: seq<Record>, optout: set<string>, g: Grammar, start: nat, end: nat)
    requires IsBlock(SplitLines(text), start, end, g) && Chosen(SplitLines(text), records, optout, g) != []
    ensures var lines := SplitLines(text);
            var after := WithNew(lines, start, end, Chosen(lines, records, optout, g), g);
            Add(text, records, optout, g).Ok? && Add(text, records, optout, g).value.text == Written(after, text)
  {
    BlockIsExact(SplitLines(text), g, start, end);
  }

  /** The new lines are single lines, among them the old ones in order. */
  lemma NewLines(lines: seq<string>, records: seq<Record>, optout: set<string>, g: Grammar, start: nat, end: nat)
    requires Coherent(g) && PrintsLines(records, g) && IsBlock(lines, start, end, g)
    requires forall line | line in lines :: OneLine(line)
    ensures var after := WithNew(lines, start, end, Chosen(lines, records, optout, g), g);
            after != [] && (forall line | line in after :: OneLine(line)) && Subsequence(lines, after)
  {
    var rs := Chosen(lines, records, optout, g);
    ChosenAreValid(lines, records, optout, g);
    AroundBlock(lines, start, end);
    InsertAllKeepsLines(lines[..start], lines[start..end], lines[end..], rs, g);
    NewLinesAreLines(lines, start, end, rs, g);
    NewBlockIsBlock(lines, start, end, rs, g);
  }

  /** The line ends of a text are kept in another: its lines with their ends are among the other's. */
  ghost predicate EndsKept(text: string, other: string) {
    Subsequence(Pieces(text), Pieces(other))
  }

  lemma LinesToWrite(text: string, records: seq<Record>, optout: set<string>, g: Grammar, start: nat, end: nat)
    returns (after: seq<string>)
    requires Coherent(g) && PrintsLines(records, g) && IsBlock(SplitLines(text), start, end, g)
    ensures after == WithNew(SplitLines(text), start, end, Chosen(SplitLines(text), records, optout, g), g)
    ensures after != [] && (forall line | line in after :: OneLine(line)) && Subsequence(SplitLines(text), after)
  {
    after := WithNew(SplitLines(text), start, end, Chosen(SplitLines(text), records, optout, g), g);
    AllLinesAreSingle(text);
    NewLines(SplitLines(text), records, optout, g, start, end);
  }

  lemma LastFlag(lines: seq<string>, after: seq<string>, records: seq<Record>, optout: set<string>, g: Grammar,
                 start: nat, end: nat) returns (last: bool)
    requires Coherent(g) && IsBlock(lines, start, end, g)
    requires after != [] && after == WithNew(lines, start, end, Chosen(lines, records, optout, g), g)
    ensures last <==> LastStaysLast(lines, start, end, Chosen(lines, records, optout, g), g)
    ensures last <==> lines[|lines| - 1] == after[|after| - 1]
  {
    last := lines[|lines| - 1] == after[|after| - 1];
    LastLineStaysExactly(lines, start, end, records, optout, g);
  }

  lemma EndsKeptExactly(text: string, records: seq<Record>, optout: set<string>, g: Grammar, start: nat, end: nat)
    requires Coherent(g) && PrintsLines(records, g) && IsBlock(SplitLines(text), start, end, g)
    ensures var lines := SplitLines(text);
            var rs := Chosen(lines, records, optout, g);
            EndsKept(text, Written(WithNew(lines, start, end, rs, g), text)) <==>
            Uniform(text, NewlineOf(text)) && (Ended(text) || LastStaysLast(lines, start, end, rs, g))
  {
    var after := LinesToWrite(text, records, optout, g, start, end);
    var last := LastFlag(SplitLines(text), after, records, optout, g, start, end);
    WrittenEndsStay(text, after, last);
  }

  /** When somebody is added, every existing line keeps its place and its own line end exactly when all line
      ends of the text are line feeds, or all are the pair, and the last line, if it has no end, stays last: it stands
      after the block, or everybody added belongs before some entry of the block. */
  lemma LineEndsStayExactly(text: string, records: seq<Record>, optout: set<string>, g: Grammar,
                            start: nat, end: nat)
    requires Coherent(g) && PrintsLines(records, g) && IsBlock(SplitLines(text), start, end, g)
    requires Chosen(SplitLines(text), records, optout, g) != []
    ensures Add(text, records, optout, g).Ok?
    ensures var lines := SplitLines(text);
            EndsKept(text, Add(text, records, optout, g).value.text) <==>
            && (Uniform(text, "\n") || Uniform(text, "\r\n"))
            && (Ended(text) || LastStaysLast(lines, start, end, Chosen(lines, records, optout, g), g))
  {
    NewlineFits(text);
    AddedText(text, records, optout, g, start, end);
    EndsKeptExactly(text, records, optout, g, start, end);
  }

  lemma WrittenEndsStay(text: string, after: seq<string>, last: bool)
    requires after != [] && (forall line | line in after :: OneLine(line)) && Subsequence(SplitLines(text), after)
    requires SplitLines(text) != []
    requires last <==> SplitLines(text)[|SplitLines(text)| - 1] == after[|after| - 1]
    ensures EndsKept(text, Written(after, text)) <==> Uniform(text, NewlineOf(text)) && (Ended(text) || last)
  {
    PiecesOfWritten(after, text);
    PiecesStayExactly(text, after);
  }

  lemma PiecesStayExactly(text: string, after: seq<string>)
    requires text != "" && after != [] && forall line | line in after :: OneLine(line)
    requires SplitLines(text) != [] && Subsequence(SplitLines(text), after)
    ensures var lines := SplitLines(text);
            Subsequence(Pieces(text), WrittenPieces(after, text)) <==>
            Uniform(text, NewlineOf(text)) && (Ended(text) || lines[|lines| - 1] == after[|after| - 1])
  {
    if Subsequence(Pieces(text), WrittenPieces(after, text)) {
      KeptPiecesAreUniform(text, after);
      if !Ended(text) { LastLineStays(text, after); }
    } else if Uniform(text, NewlineOf(text)) {
      UniformText(text);
      if Ended(text) || SplitLines(text)[|SplitLines(text)| - 1] == after[|after| - 1] {
        EndsStay(SplitLines(text), after, text);
      }
    }
  }
}
