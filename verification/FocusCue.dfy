/** The comment-blanking scanner of the focus-cue gate. */
module FocusCue {
  import opened Sequences

  // ---- Where the region that starts at a loop head ends ----

  predicate TwoAt(s: string, i: nat, a: char, b: char) {
    i + 1 < |s| && s[i] == a && s[i + 1] == b
  }

  /** One past the first closing mark at or after i, or the end of s. */
  function BlockEnd(s: string, i: nat): (end: nat)
    requires i <= |s|
    ensures i <= end <= |s|
    decreases |s| - i
  {
    if i == |s| then i else if TwoAt(s, i, '*', '/') then i + 2 else BlockEnd(s, i + 1)
  }

  /** The first newline at or after i, or the end of s. */
  function LineEnd(s: string, i: nat): (end: nat)
    requires i <= |s|
    ensures i <= end <= |s|
    decreases |s| - i
  {
    if i == |s| || s[i] == '\n' then i else LineEnd(s, i + 1)
  }

  /** One past the quote that closes a string whose content starts at i. A backslash skips the character
      after it, so at the end of s the result may lie up to two beyond it. */
  function QuoteEnd(s: string, i: nat, quote: char): (end: nat)
    requires i <= |s| + 1
    ensures i < end <= |s| + 2
    decreases |s| + 2 - i
  {
    if i >= |s| || s[i] == quote then i + 1
    else if s[i] == '\\' then QuoteEnd(s, i + 2, quote)
    else QuoteEnd(s, i + 1, quote)
  }

  function Clip(s: string, i: nat): nat { if i <= |s| then i else |s| }

  datatype Kind = Block | Line | Quoted | Plain

  function KindAt(s: string, i: nat): Kind
    requires i < |s|
  {
    if TwoAt(s, i, '/', '*') then Block
    else if TwoAt(s, i, '/', '/') then Line
    else if s[i] == '"' || s[i] == '\'' || s[i] == '`' then Quoted
    else Plain
  }

  /** The next loop head. */
  function Next(s: string, i: nat): (next: nat)
    requires i < |s|
    ensures i < next <= |s|
  {
    match KindAt(s, i)
    case Block => BlockEnd(s, i + 2)
    case Line => LineEnd(s, i)
    case Quoted => Clip(s, QuoteEnd(s, i + 1, s[i]))
    case Plain => i + 1
  }

  predicate IsComment(s: string, i: nat)
    requires i < |s|
  {
    KindAt(s, i).Block? || KindAt(s, i).Line?
  }

  function BlankChar(c: char): char { if c == '\n' then '\n' else ' ' }

  function BlankOut(s: string): (r: string)
    ensures |r| == |s|
  {
    if s == [] then [] else BlankOut(s[..|s| - 1]) + [BlankChar(s[|s| - 1])]
  }

  lemma {:induction false} BlankOutAt(s: string, k: nat)
    requires k < |s|
    ensures BlankOut(s)[k] == BlankChar(s[k])
  {
    if k >= |s| - 1 {
    } else {
      BlankOutAt(s[..|s| - 1], k);
    }
  }

  /** The scan from head i to the end: comments blanked, everything else kept. */
  function Blank(s: string, i: nat): (r: string)
    requires i <= |s|
    ensures |r| == |s| - i
    decreases |s| - i
  {
    if i == |s| then []
    else
      var next := Next(s, i);
      (if IsComment(s, i) then BlankOut(s[i..next]) else s[i..next]) + Blank(s, next)
  }

  /** Position k lies in a comment, going by the scan from head i. */
  predicate InComment(s: string, i: nat, k: nat)
    requires i <= k < |s|
    decreases |s| - i
  {
    if k < Next(s, i) then IsComment(s, i) else InComment(s, Next(s, i), k)
  }

  // ---- The scanner as written, over an array ----

  /** The two blanking loops. (A line comment holds no newline, so its loop need not look for one.) */
  method BlankRange(out: array<char>, i: nat, j: nat)
    requires i <= j <= out.Length
    modifies out
    ensures out[..i] == old(out[..i]) && out[j..] == old(out[j..])
    ensures out[i..j] == BlankOut(old(out[i..j]))
  {
    for k := i to j
      invariant out[..i] == old(out[..i]) && out[k..] == old(out[k..])
      invariant out[i..k] == BlankOut(old(out[i..k]))
    {
      assert out[k] == out[k..][0] == old(out[k..])[0];
      assert out[k..][1..] == out[k + 1..] && old(out[k..])[1..] == old(out[k + 1..]);
      ghost var before := old(out[i..k + 1]);
      assert before[..|before| - 1] == old(out[i..k]);
      if out[k] != '\n' {
        out[k] := ' ';
      }
      assert out[i..k + 1] == out[i..k] + [out[k]];
    }
  }

  /** The loop that skips a quoted string. */
  method SkipQuoted(src: string, start: nat) returns (i: nat)
    requires start < |src|
    ensures i == QuoteEnd(src, start + 1, src[start])
  {
    var quote := src[start];
    i := start + 1;
    while i < |src| && src[i] != quote
      invariant i <= |src| + 1
      invariant QuoteEnd(src, i, quote) == QuoteEnd(src, start + 1, quote)
      decreases |src| + 1 - i
    {
      i := i + if src[i] == '\\' then 2 else 1;
    }
    i := i + 1;
  }

  /** now is what the array holds when the scan stands at i. */
  ghost predicate Scanned(src: string, i: nat, now: string) {
    && i <= |src| == |now|
    && now[i..] == src[i..]
    && now[..i] + Blank(src, i) == Blank(src, 0)
  }

  lemma DropDrop(s: string, i: nat, j: nat, k: nat)
    requires i <= j <= k <= |s|
    ensures s[i..][j - i..] == s[j..] && s[i..][..k - i] == s[i..k]
  {
  }

  lemma Advance(src: string, i: nat, now: string, later: string)
    requires i < |src| && Scanned(src, i, now) && |later| == |src|
    requires later[..i] == now[..i] && later[Next(src, i)..] == now[Next(src, i)..]
    requires later[i..Next(src, i)] ==
             if IsComment(src, i) then BlankOut(now[i..Next(src, i)]) else now[i..Next(src, i)]
    ensures Scanned(src, Next(src, i), later)
  {
    var next := Next(src, i);
    DropDrop(now, i, next, next);
    DropDrop(src, i, next, next);
    assert now[i..next] == src[i..next] && now[next..] == src[next..];
    assert later[..next] == later[..i] + later[i..next];
    assert Blank(src, i) == later[i..next] + Blank(src, next);
    Regroup(now[..i], later[i..next], Blank(src, next));
  }

  /** blank_comments. */
  method BlankComments(src: string) returns (result: string)
    ensures result == Blank(src, 0)
  {
    var n := |src|;
    var out := new char[n](k requires 0 <= k < n => src[k]);
    var i: nat := 0;
    assert out[..] == src;
    while i < n
      invariant out.Length == n
      invariant Scanned(src, Clip(src, i), out[..])
      decreases n + 2 - i
    {
      ghost var head, before := i, out[..];
      if TwoAt(src, i, '/', '*') {
        var j := BlockEnd(src, i + 2);
        BlankRange(out, i, j);
        i := j;
      } else if TwoAt(src, i, '/', '/') {
        var j := LineEnd(src, i);
        BlankRange(out, i, j);
        i := j;
      } else if src[i] == '"' || src[i] == '\'' || src[i] == '`' {
        i := SkipQuoted(src, i);
      } else {
        i := i + 1;
      }
      assert Clip(src, i) == Next(src, head);
      Advance(src, head, before, out[..]);
    }
    result := out[..];
    assert result[..n] + Blank(src, n) == result;
  }

  // ---- What the scan promises ----

  lemma {:induction false} BlankFrom(s: string, i: nat, k: nat)
    requires i <= k < |s|
    ensures Blank(s, i)[k - i] == if InComment(s, i, k) then BlankChar(s[k]) else s[k]
    decreases |s| - i
  {
    var next := Next(s, i);
    if k < next {
      if IsComment(s, i) { BlankOutAt(s[i..next], k - i); }
    } else {
      BlankFrom(s, next, k);
    }
  }

  /** Character by character: the text keeps its length; a character in a comment becomes a space unless it
      is a newline; every other character, those of quoted strings included, is untouched. */
  lemma BlankAt(s: string, k: nat)
    requires k < |s|
    ensures |Blank(s, 0)| == |s|
    ensures Blank(s, 0)[k] == if InComment(s, 0, k) && s[k] != '\n' then ' ' else s[k]
    ensures Blank(s, 0)[k] == '\n' <==> s[k] == '\n'
  {
    BlankFrom(s, 0, k);
  }

  function Newlines(s: string): nat {
    if s == [] then 0 else Newlines(s[..|s| - 1]) + if s[|s| - 1] == '\n' then 1 else 0
  }

  /** So a line number counted in the blanked text is the line number in the original, at every offset:
      what scan_source relies on. */
  lemma {:induction false} LineNumbersAgree(s: string, k: nat)
    requires k <= |s|
    ensures Newlines(Blank(s, 0)[..k]) == Newlines(s[..k])
  {
    if k == 0 {
    } else {
      LineNumbersAgree(s, k - 1);
      BlankAt(s, k - 1);
      assert s[..k][..k - 1] == s[..k - 1];
      assert Blank(s, 0)[..k][..k - 1] == Blank(s, 0)[..k - 1];
    }
  }

  lemma BlankIsPlain(t: string, i: nat)
    requires i < |t| && (t[i] == ' ' || t[i] == '\n')
    ensures Blank(t, i) == t[i..i + 1] + Blank(t, i + 1)
  {
    assert KindAt(t, i) == Plain && Next(t, i) == i + 1;
  }

  /** Where a scan of its own output passes over what was blanked, it changes nothing. */
  lemma {:induction false} BlanksArePlain(t: string, i: nat, j: nat)
    requires i <= j <= |t|
    requires forall k | i <= k < j :: t[k] == ' ' || t[k] == '\n'
    ensures Blank(t, i) == t[i..j] + Blank(t, j)
    decreases j - i
  {
    if i == j {
    } else {
      BlankIsPlain(t, i);
      BlanksArePlain(t, i + 1, j);
      assert t[i..j] == t[i..i + 1] + t[i + 1..j];
      Regroup(t[i..i + 1], t[i + 1..j], Blank(t, j));
    }
  }

  /** A string ends at the same place in two texts that agree up to where it ends in one. */
  lemma {:induction false} QuoteEndAgrees(s: string, t: string, i: nat, quote: char)
    requires |s| == |t| && i <= |s| + 1
    requires forall k | i <= k < Clip(s, QuoteEnd(s, i, quote)) :: s[k] == t[k]
    ensures QuoteEnd(t, i, quote) == QuoteEnd(s, i, quote)
    decreases |s| + 2 - i
  {
    if i < |s| && s[i] != quote {
      if s[i] == '\\' {
        QuoteEndAgrees(s, t, i + 2, quote);
      } else {
        QuoteEndAgrees(s, t, i + 1, quote);
      }
    }
  }

  lemma KeptRegionScansAlike(s: string, t: string, i: nat)
    requires i < |s| == |t| && !IsComment(s, i)
    requires forall k | i <= k < Next(s, i) :: t[k] == s[k]
    requires Next(s, i) < |s| ==> t[Next(s, i)] == s[Next(s, i)] || t[Next(s, i)] == ' '
    ensures KindAt(t, i) == KindAt(s, i) && Next(t, i) == Next(s, i)
  {
    if KindAt(s, i) == Quoted {
      QuoteEndAgrees(s, t, i + 1, s[i]);
    }
  }

  /** t continues, from i on, with the blanked text of s. */
  ghost predicate Continues(s: string, t: string, i: nat) {
    i <= |s| == |t| && t[i..] == Blank(s, i)
  }

  lemma ContinuesAt(s: string, t: string, i: nat, k: nat)
    requires Continues(s, t, i) && i <= k < |s|
    ensures t[k] == if InComment(s, i, k) then BlankChar(s[k]) else s[k]
  {
    assert t[k] == t[i..][k - i];
    BlankFrom(s, i, k);
  }

  lemma ContinuesNext(s: string, t: string, i: nat)
    requires Continues(s, t, i) && i < |s|
    ensures Continues(s, t, Next(s, i))
  {
    var next := Next(s, i);
    assert t[next..] == t[i..][next - i..];
  }

  /** k is a loop head of the scan of s that starts at i. */
  predicate IsHead(s: string, i: nat, k: nat)
    requires i <= |s|
    decreases |s| - i
  {
    k == i || (i < |s| && IsHead(s, Next(s, i), k))
  }

  lemma {:induction false} HeadsChain(t: string, i: nat, j: nat, k: nat)
    requires i <= |t| && j <= |t| && IsHead(t, i, j) && IsHead(t, j, k)
    ensures IsHead(t, i, k)
    decreases |t| - i
  {
    if i == j {
    } else {
      HeadsChain(t, Next(t, i), j, k);
    }
  }

  /** Over what was blanked every position is a head. */
  lemma {:induction false} BlanksLeadOn(t: string, i: nat, j: nat)
    requires i <= j <= |t|
    requires forall k | i <= k < j :: t[k] == ' ' || t[k] == '\n'
    ensures IsHead(t, i, j)
    decreases j - i
  {
    if i == j {
    } else {
      assert KindAt(t, i) == Plain && Next(t, i) == i + 1;
      BlanksLeadOn(t, i + 1, j);
    }
  }

  lemma HeadLeadsOn(s: string, t: string, i: nat)
    requires Continues(s, t, i) && i < |s|
    ensures IsHead(t, i, Next(s, i))
    ensures Blank(t, Next(s, i)) == t[Next(s, i)..] ==> Blank(t, i) == t[i..]
  {
    var next := Next(s, i);
    forall k | i <= k < next ensures t[k] == if IsComment(s, i) then BlankChar(s[k]) else s[k] {
      ContinuesAt(s, t, i, k);
    }
    if IsComment(s, i) {
      BlanksArePlain(t, i, next);
      BlanksLeadOn(t, i, next);
    } else {
      if next < |s| { ContinuesAt(s, t, next, next); }
      KeptRegionScansAlike(s, t, i);
    }
    assert t[i..next] + t[next..] == t[i..];
  }

  /** The scan of the output passes through every loop head of the original scan, and changes nothing. */
  lemma {:induction false} RescanFrom(s: string, t: string, i: nat)
    requires Continues(s, t, i)
    ensures Blank(t, i) == t[i..]
    ensures forall k | IsHead(s, i, k) :: IsHead(t, i, k)
    decreases |s| - i
  {
    if i == |s| {
    } else {
      var next := Next(s, i);
      ContinuesNext(s, t, i);
      RescanFrom(s, t, next);
      HeadLeadsOn(s, t, i);
      forall k | IsHead(s, i, k) ensures IsHead(t, i, k) {
        if k != i { HeadsChain(t, i, next, k); }
      }
    }
  }

  /** Blanking twice is blanking once, for every text: escapes, unterminated comments and strings included. */
  lemma BlankIsIdempotent(s: string)
    ensures Blank(Blank(s, 0), 0) == Blank(s, 0)
  {
    var t := Blank(s, 0);
    assert t[0..] == t;
    RescanFrom(s, t, 0);
  }
}
