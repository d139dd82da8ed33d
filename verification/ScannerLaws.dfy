/** What the comment scanner does to each kind of text, told from the text alone. */
module ScannerLaws {
  import opened FocusCue

  // ---- A scan of a text is the same further on ----

  lemma {:induction false} BlockEndShift(pre: string, s: string, i: nat)
    requires i <= |s|
    ensures BlockEnd(pre + s, |pre| + i) == |pre| + BlockEnd(s, i)
    decreases |s| - i
  {
    if i == |s| {
    } else {
      BlockEndShift(pre, s, i + 1);
    }
  }

  lemma {:induction false} LineEndShift(pre: string, s: string, i: nat)
    requires i <= |s|
    ensures LineEnd(pre + s, |pre| + i) == |pre| + LineEnd(s, i)
    decreases |s| - i
  {
    if i == |s| {
    } else {
      LineEndShift(pre, s, i + 1);
    }
  }

  lemma {:induction false} QuoteEndShift(pre: string, s: string, i: nat, quote: char)
    requires i <= |s| + 1
    ensures QuoteEnd(pre + s, |pre| + i, quote) == |pre| + QuoteEnd(s, i, quote)
    decreases |s| + 2 - i
  {
    if i >= |s| || s[i] == quote {
    } else if s[i] == '\\' {
      QuoteEndShift(pre, s, i + 2, quote);
    } else {
      QuoteEndShift(pre, s, i + 1, quote);
    }
  }

  lemma NextShift(pre: string, s: string, i: nat)
    requires i < |s|
    ensures KindAt(pre + s, |pre| + i) == KindAt(s, i)
    ensures Next(pre + s, |pre| + i) == |pre| + Next(s, i)
  {
    if TwoAt(s, i, '/', '*') { BlockEndShift(pre, s, i + 2); }
    LineEndShift(pre, s, i);
    QuoteEndShift(pre, s, i + 1, s[i]);
  }

  lemma BlankStep(s: string, i: nat, head: string)
    requires i < |s| && head == s[i..Next(s, i)]
    ensures Blank(s, i) == (if IsComment(s, i) then BlankOut(head) else head) + Blank(s, Next(s, i))
  {
  }

  lemma SliceShift(pre: string, s: string, i: nat, j: nat)
    requires i <= j <= |s|
    ensures (pre + s)[|pre| + i..|pre| + j] == s[i..j]
  {
  }

  /** Two scans that take the same step over the same characters, and go on alike. */
  lemma StepsAlike(s: string, i: nat, next: nat, t: string, j: nat, after: nat)
    requires i < |s| && j < |t| && next == Next(s, i) && after == Next(t, j)
    requires KindAt(s, i) == KindAt(t, j) && s[i..next] == t[j..after] && Blank(s, next) == Blank(t, after)
    ensures Blank(t, j) == Blank(s, i)
  {
    BlankStep(s, i, s[i..next]);
    BlankStep(t, j, t[j..after]);
  }

  lemma {:induction false} BlankShift(pre: string, s: string, i: nat)
    requires i <= |s|
    ensures Blank(pre + s, |pre| + i) == Blank(s, i)
    decreases |s| - i
  {
    if i == |s| {
    } else {
      var next := Next(s, i);
      NextShift(pre, s, i);
      BlankShift(pre, s, next);
      SliceShift(pre, s, i, next);
      StepsAlike(s, i, next, pre + s, |pre| + i, |pre| + next);
    }
  }

  /** If the first step of a scan is over a prefix, the rest is scanned on its own. */
  lemma FirstStep(head: string, tail: string)
    requires head != "" && Next(head + tail, 0) == |head|
    ensures Blank(head + tail, 0) == (if IsComment(head + tail, 0) then BlankOut(head) else head) + Blank(tail, 0)
  {
    var s := head + tail;
    BlankShift(head, tail, 0);
    assert s[0..|head|] == head;
  }

  // ---- Characters that are neither comment nor string ----

  /** Such a character is kept: it is no quote, and no slash before a slash or a star. */
  lemma PlainIsKept(c: char, tail: string)
    requires c != '"' && c != '\'' && c != '`'
    requires c == '/' && tail != "" ==> tail[0] != '/' && tail[0] != '*'
    ensures Blank([c] + tail, 0) == [c] + Blank(tail, 0)
  {
    FirstStep([c], tail);
  }

  // ---- Strings ----

  /** Characters other than the quote, a backslash always with the one after it. */
  predicate Within(body: string, quote: char) {
    || body == ""
    || (body[0] != quote && body[0] != '\\' && Within(body[1..], quote))
    || (|body| > 1 && body[0] == '\\' && Within(body[2..], quote))
  }

  lemma {:induction false} QuoteEndAfter(pre: string, body: string, quote: char, tail: string)
    requires Within(body, quote) && quote != '\\'
    ensures var s := pre + (body + tail); QuoteEnd(s, |pre|, quote) == QuoteEnd(s, |pre| + |body|, quote)
    decreases |body|
  {
    var s := pre + (body + tail);
    if body == "" {
    } else if body[0] != quote && body[0] != '\\' {
      assert s == (pre + body[..1]) + (body[1..] + tail);
      assert s[|pre|] == body[0];
      QuoteEndAfter(pre + body[..1], body[1..], quote, tail);
    } else {
      assert s == (pre + body[..2]) + (body[2..] + tail);
      assert s[|pre|] == body[0];
      QuoteEndAfter(pre + body[..2], body[2..], quote, tail);
    }
  }

  /** A string in any of the three quotes is kept, whatever stands in it, comment marks included, and the scan
      goes on after it. */
  lemma QuotedIsKept(quote: char, body: string, tail: string)
    requires quote == '"' || quote == '\'' || quote == '`'
    requires Within(body, quote)
    ensures var string_ := [quote] + body + [quote];
            Blank(string_ + tail, 0) == string_ + Blank(tail, 0)
  {
    var string_ := [quote] + body + [quote];
    var s := string_ + tail;
    assert s == [quote] + (body + ([quote] + tail));
    QuoteEndAfter([quote], body, quote, [quote] + tail);
    FirstStep(string_, tail);
  }

  /** So is one that is never closed, even if a lone backslash ends it. */
  lemma UnclosedIsKept(quote: char, body: string, end: string)
    requires quote == '"' || quote == '\'' || quote == '`'
    requires Within(body, quote) && (end == "" || end == "\\")
    ensures Blank([quote] + body + end, 0) == [quote] + body + end
  {
    var s := [quote] + body + end;
    assert s == [quote] + (body + end);
    QuoteEndAfter([quote], body, quote, end);
    assert s + "" == s;
    FirstStep(s, "");
  }

  // ---- Comments ----

  /** No closing mark in it. */
  predicate NoClose(body: string) {
    forall i | 0 <= i < |body| - 1 :: !(body[i] == '*' && body[i + 1] == '/')
  }

  lemma {:induction false} BlockEndIs(s: string, i: nat, end: nat)
    requires i <= end <= |s|
    requires forall k | i <= k < end :: !TwoAt(s, k, '*', '/')
    requires end < |s| ==> TwoAt(s, end, '*', '/')
    ensures BlockEnd(s, i) == if end == |s| then |s| else end + 2
    decreases end - i
  {
    if i == end {
    } else {
      BlockEndIs(s, i + 1, end);
    }
  }

  lemma NoCloseIn(s: string, body: string, k: nat)
    requires |s| > 2 + |body| ==> s[2 + |body|] != '/'
    requires NoClose(body) && 2 + |body| <= |s| && s[2..2 + |body|] == body && 2 <= k < 2 + |body|
    ensures !TwoAt(s, k, '*', '/')
  {
    assert s[k] == body[k - 2];
    if k + 1 < 2 + |body| { assert s[k + 1] == body[k - 1]; }
  }

  /** A block comment is blanked as a whole, its newlines kept, and the scan goes on after it. */
  lemma BlockIsBlanked(body: string, tail: string)
    requires NoClose(body)
    ensures var comment := "/*" + body + "*/";
            Blank(comment + tail, 0) == BlankOut(comment) + Blank(tail, 0)
  {
    var comment := "/*" + body + "*/";
    var s := comment + tail;
    assert s[2..2 + |body|] == body;
    forall k | 2 <= k < 2 + |body| ensures !TwoAt(s, k, '*', '/') { NoCloseIn(s, body, k); }
    BlockEndIs(s, 2, 2 + |body|);
    FirstStep(comment, tail);
  }

  /** One that is never closed, to the end. */
  lemma UnclosedBlockIsBlanked(body: string)
    requires NoClose(body)
    ensures Blank("/*" + body, 0) == BlankOut("/*" + body)
  {
    var s := "/*" + body;
    assert s[2..2 + |body|] == body;
    forall k | 2 <= k < |s| ensures !TwoAt(s, k, '*', '/') { NoCloseIn(s, body, k); }
    BlockEndIs(s, 2, |s|);
    assert s + "" == s;
    FirstStep(s, "");
  }

  lemma {:induction false} LineEndIs(s: string, i: nat, end: nat)
    requires i <= end <= |s| && '\n' !in s[i..end] && (end < |s| ==> s[end] == '\n')
    ensures LineEnd(s, i) == end
    decreases end - i
  {
    if i == end {
    } else {
      assert s[i] == s[i..end][0] && forall c | c in s[i + 1..end] :: c in s[i..end];
      LineEndIs(s, i + 1, end);
    }
  }

  /** A line comment is blanked up to the newline, or the end. */
  lemma LineIsBlanked(body: string, tail: string)
    requires '\n' !in body && (tail != "" ==> tail[0] == '\n')
    ensures Blank("//" + body + tail, 0) == BlankOut("//" + body) + Blank(tail, 0)
  {
    var comment := "//" + body;
    var s := comment + tail;
    assert s[0..|comment|] == comment;
    LineEndIs(s, 0, |comment|);
    FirstStep(comment, tail);
  }

  /** What blanking leaves of a comment: a newline for each newline, a space for every other character. */
  lemma BlankOutIs(s: string, k: nat)
    requires k < |s|
    ensures |BlankOut(s)| == |s| && BlankOut(s)[k] == if s[k] == '\n' then '\n' else ' '
  {
    BlankOutAt(s, k);
  }
}
