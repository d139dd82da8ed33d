/** Text, its lines and its words, as str.splitlines(), str.split() and str.join() relate them. */
module LineText {
  import opened Sequences

  /** A character that ends a line on its own. */
  predicate IsBreak(c: char) {
    || '\n' <= c <= '\r' || '\U{001C}' <= c <= '\U{001E}'
    || c == '\U{0085}' || c == '\U{2028}' || c == '\U{2029}'
  }

  ghost predicate OneLine(s: string) {
    forall c | c in s :: !IsBreak(c)
  }

  function LineLength(s: string): (n: nat)
    ensures n <= |s|
  {
    if s == "" || IsBreak(s[0]) then 0 else 1 + LineLength(s[1..])
  }

  /** The length of the line boundary s starts with: carriage return and line feed are one boundary. */
  function BreakLength(s: string): (n: nat)
    requires s != ""
    ensures 0 < n <= |s|
  {
    if |s| > 1 && s[0] == '\r' && s[1] == '\n' then 2 else 1
  }

  /** str.splitlines() */
  function SplitLines(s: string): seq<string>
    decreases |s|
  {
    if s == "" then []
    else
      var n := LineLength(s);
      if n == |s| then [s]
      else [s[..n]] + SplitLines(s[n..][BreakLength(s[n..])..])
  }

  /** newline.join(lines) */
  function Join(lines: seq<string>, newline: string): string {
    if lines == [] then ""
    else if |lines| == 1 then lines[0]
    else lines[0] + (newline + Join(lines[1..], newline))
  }

  predicate IsNewline(newline: string) {
    newline == "\n" || newline == "\r\n"
  }

  lemma {:induction false} LineLengthOf(line: string, rest: string)
    requires OneLine(line)
    requires rest == "" || IsBreak(rest[0])
    ensures LineLength(line + rest) == |line|
  {
    if line == "" {
      assert line + rest == rest;
    } else {
      assert line[0] in line;
      assert (line + rest)[1..] == line[1..] + rest;
      LineLengthOf(line[1..], rest);
    }
  }

  /** What may end a line before this rest: carriage return and line feed together, or one character of the ten
      that is not the first half of such a pair. */
  ghost predicate Ends(end: string, rest: string) {
    || end == "\r\n"
    || (|end| == 1 && IsBreak(end[0]) && !(end == "\r" && rest != "" && rest[0] == '\n'))
  }

  /** A line and its end come off the front of a text. */
  lemma LineApart(line: string, end: string, rest: string)
    requires OneLine(line) && Ends(end, rest)
    ensures SplitLines(line + (end + rest)) == [line] + SplitLines(rest)
  {
    var s := line + (end + rest);
    LineLengthOf(line, end + rest);
    assert s[..|line|] == line;
    assert s[|line|..] == end + rest;
    assert (end + rest)[|end|..] == rest;
  }

  lemma FirstLine(line: string, newline: string, rest: string)
    requires OneLine(line) && IsNewline(newline)
    ensures SplitLines(line + (newline + rest)) == [line] + SplitLines(rest)
  {
    LineApart(line, newline, rest);
  }

  lemma OnlyLine(line: string)
    requires OneLine(line)
    ensures SplitLines(line) == if line == "" then [] else [line]
  {
    assert line + "" == line;
    LineLengthOf(line, "");
  }

  lemma {:induction false} JoinOneMore(lines: seq<string>, line: string, newline: string)
    requires lines != []
    ensures Join(lines + [line], newline) == Join(lines, newline) + (newline + line)
  {
    if |lines| > 1 {
      JoinOneMore(lines[1..], line, newline);
      assert (lines + [line])[1..] == lines[1..] + [line];
    } else {
      assert (lines + [line])[1..] == [line];
    }
  }

  lemma JoinEnded(lines: seq<string>, newline: string)
    requires |lines| > 1
    ensures Join(lines, newline) + newline == lines[0] + (newline + (Join(lines[1..], newline) + newline))
  {
  }

  /** Lines joined and ended with a newline split into themselves; no lines at all into one empty line. */
  lemma {:induction false} EndedLinesReadBack(lines: seq<string>, newline: string)
    requires IsNewline(newline) && forall line | line in lines :: OneLine(line)
    ensures SplitLines(Join(lines, newline) + newline) == if lines == [] then [""] else lines
  {
    if |lines| <= 1 {
      var line := if lines == [] then "" else lines[0];
      assert newline + "" == newline;
      FirstLine(line, newline, "");
    } else {
      var rest := lines[1..];
      EndedLinesReadBack(rest, newline);
      JoinEnded(lines, newline);
      FirstLine(lines[0], newline, Join(rest, newline) + newline);
      assert lines == [lines[0]] + rest;
    }
  }

  function WithoutEmptyEnd(lines: seq<string>): seq<string> {
    if lines != [] && lines[|lines| - 1] == "" then lines[..|lines| - 1] else lines
  }

  lemma EmptyEndOfMore(line: string, rest: seq<string>)
    requires rest != []
    ensures WithoutEmptyEnd([line] + rest) == [line] + WithoutEmptyEnd(rest)
  {
    assert ([line] + rest)[..|rest|] == [line] + rest[..|rest| - 1];
  }

  /** Joined without a final newline they do too, but a last line that is empty is lost. */
  lemma {:induction false} JoinedLinesReadBack(lines: seq<string>, newline: string)
    requires IsNewline(newline) && forall line | line in lines :: OneLine(line)
    requires lines != []
    ensures SplitLines(Join(lines, newline)) == WithoutEmptyEnd(lines)
  {
    if |lines| == 1 {
      OnlyLine(lines[0]);
    } else {
      var rest := lines[1..];
      JoinedLinesReadBack(rest, newline);
      FirstLine(lines[0], newline, Join(rest, newline));
      EmptyEndOfMore(lines[0], rest);
      assert lines == [lines[0]] + rest;
    }
  }

  lemma OneLineJoin(a: string, b: string)
    requires OneLine(a) && OneLine(b)
    ensures OneLine(a + b)
  {
  }

  lemma {:induction false} JoinIsOneLine(parts: seq<string>, separator: string)
    requires OneLine(separator) && forall part | part in parts :: OneLine(part)
    ensures OneLine(Join(parts, separator))
  {
    if |parts| <= 1 {
    } else {
      JoinIsOneLine(parts[1..], separator);
      OneLineJoin(separator, Join(parts[1..], separator));
      OneLineJoin(parts[0], separator + Join(parts[1..], separator));
    }
  }

  lemma {:induction false} LineStops(s: string, k: nat)
    requires k < LineLength(s)
    ensures !IsBreak(s[k])
  {
    if k == 0 {
    } else {
      LineStops(s[1..], k - 1);
    }
  }

  lemma {:induction false} LinesAreSingle(s: string, line: string)
    requires line in SplitLines(s)
    ensures OneLine(line)
    decreases |s|
  {
    var n := LineLength(s);
    if line == s[..n] {
      forall c | c in line ensures !IsBreak(c) {
        var k :| 0 <= k < |line| && line[k] == c;
        LineStops(s, k);
      }
    } else {
      LinesAreSingle(s[n..][BreakLength(s[n..])..], line);
    }
  }

  lemma AllLinesAreSingle(s: string)
    ensures forall line | line in SplitLines(s) :: OneLine(line)
  {
    forall line | line in SplitLines(s) ensures OneLine(line) { LinesAreSingle(s, line); }
  }

  /** a is b with some lines left out. */
  ghost predicate Subsequence(a: seq<string>, b: seq<string>) {
    a == []
    || (b != []
        && ((a[|a| - 1] == b[|b| - 1] && Subsequence(a[..|a| - 1], b[..|b| - 1])) || Subsequence(a, b[..|b| - 1])))
  }

  lemma {:induction false} SubsequenceOfItself(a: seq<string>)
    ensures Subsequence(a, a)
  {
    if a == [] {
    } else {
      SubsequenceOfItself(a[..|a| - 1]);
    }
  }

  lemma SubsequenceStep(a: seq<string>, b: seq<string>, y: string)
    ensures Subsequence(a, b + [y]) <==>
            a == [] || (a[|a| - 1] == y && Subsequence(a[..|a| - 1], b)) || Subsequence(a, b)
  {
    assert (b + [y])[..|b|] == b;
  }

  lemma MoveLast(a: seq<string>, b: seq<string>, c: seq<string>, y: string)
    ensures a + (b + (c + [y])) == (a + (b + c)) + [y]
    ensures a + (c + [y]) == (a + c) + [y]
  {
  }

  /** Putting one more line in keeps every line there was, in order. */
  lemma {:induction false} SubsequenceAfterInsert(a: seq<string>, front: seq<string>, x: string, back: seq<string>)
    requires Subsequence(a, front + back)
    ensures Subsequence(a, front + ([x] + back))
  {
    if back == [] {
      assert front + back == front;
      assert front + ([x] + back) == front + [x];
      SubsequenceStep(a, front, x);
    } else {
      var rest, y := back[..|back| - 1], back[|back| - 1];
      assert back == rest + [y];
      MoveLast(front, [x], rest, y);
      SubsequenceStep(a, front + rest, y);
      SubsequenceStep(a, front + ([x] + rest), y);
      if a != [] && Subsequence(a[..|a| - 1], front + rest) {
        SubsequenceAfterInsert(a[..|a| - 1], front, x, rest);
      }
      if Subsequence(a, front + rest) {
        SubsequenceAfterInsert(a, front, x, rest);
      }
    }
  }

  // ---- Words ----

  /** str.isspace for one character. */
  predicate IsSpace(c: char) {
    || IsBreak(c) || c == '\t' || c == ' ' || c == '\U{001F}' || c == '\U{00A0}' || c == '\U{1680}'
    || '\U{2000}' <= c <= '\U{200A}' || c == '\U{202F}' || c == '\U{205F}' || c == '\U{3000}'
  }

  ghost predicate IsWord(w: string) {
    w != "" && forall c | c in w :: !IsSpace(c)
  }

  function WordLength(s: string): (n: nat)
    ensures n <= |s|
    ensures s != "" && !IsSpace(s[0]) ==> n > 0
  {
    if s == "" || IsSpace(s[0]) then 0 else 1 + WordLength(s[1..])
  }

  /** str.split(): the maximal runs of characters that are not spaces. */
  function Words(s: string): seq<string> {
    if s == "" then []
    else if IsSpace(s[0]) then Words(s[1..])
    else [s[..WordLength(s)]] + Words(s[WordLength(s)..])
  }

  lemma {:induction false} WordLengthOf(w: string, rest: string)
    requires forall c | c in w :: !IsSpace(c)
    requires rest == "" || IsSpace(rest[0])
    ensures WordLength(w + rest) == |w|
  {
    if w == "" {
      assert w + rest == rest;
    } else {
      assert w[0] in w;
      assert (w + rest)[1..] == w[1..] + rest;
      WordLengthOf(w[1..], rest);
    }
  }

  lemma FirstWord(w: string, rest: string)
    requires IsWord(w) && (rest == "" || IsSpace(rest[0]))
    ensures Words(w + rest) == [w] + Words(rest)
  {
    var s := w + rest;
    WordLengthOf(w, rest);
    assert s[0] == w[0] && w[0] in w;
    assert s[..|w|] == w && s[|w|..] == rest;
  }

  lemma SkipSpace(c: char, rest: string)
    requires IsSpace(c)
    ensures Words([c] + rest) == Words(rest)
  {
    assert ([c] + rest)[1..] == rest;
  }

  lemma {:induction false} WordLengthStops(s: string, k: nat)
    requires k < WordLength(s)
    ensures !IsSpace(s[k])
  {
    if k == 0 {
    } else {
      WordLengthStops(s[1..], k - 1);
    }
  }

  /** The words of s are words, made of characters of s. */
  lemma {:induction false} WordsAreWords(s: string, w: string)
    requires w in Words(s)
    ensures IsWord(w) && forall c | c in w :: c in s
  {
    if IsSpace(s[0]) {
      WordsAreWords(s[1..], w);
    } else {
      var n := WordLength(s);
      if w == s[..n] {
        forall c | c in w ensures !IsSpace(c) {
          var k :| 0 <= k < |w| && w[k] == c;
          WordLengthStops(s, k);
        }
      } else {
        WordsAreWords(s[n..], w);
      }
    }
  }

  lemma {:induction false} WordLengthEnds(s: string)
    ensures WordLength(s) == |s| || IsSpace(s[WordLength(s)])
  {
    if s == "" || IsSpace(s[0]) {
    } else {
      WordLengthEnds(s[1..]);
    }
  }

  lemma FrontWord(s: string) returns (w: string, rest: string)
    requires s != "" && !IsSpace(s[0])
    ensures s == w + rest && IsWord(w) && (rest == "" || IsSpace(rest[0]))
  {
    var n := WordLength(s);
    w, rest := s[..n], s[n..];
    WordLengthEnds(s);
    forall k | 0 <= k < n ensures !IsSpace(w[k]) { WordLengthStops(s, k); }
  }

  /** A space between two texts separates their words. */
  lemma {:induction false} WordsApart(a: string, c: char, b: string)
    requires IsSpace(c)
    ensures Words(a + ([c] + b)) == Words(a) + Words(b)
    decreases |a|
  {
    if a == "" {
      assert a + ([c] + b) == [c] + b;
      SkipSpace(c, b);
    } else if IsSpace(a[0]) {
      assert a == [a[0]] + a[1..] && a + ([c] + b) == [a[0]] + (a[1..] + ([c] + b));
      SkipSpace(a[0], a[1..] + ([c] + b));
      WordsApart(a[1..], c, b);
    } else {
      var w, rest := FrontWord(a);
      WordsApart(rest, c, b);
      FirstWord(w, rest);
      FirstWord(w, rest + ([c] + b));
      Regroup(w, rest, [c] + b);
      Regroup([w], Words(rest), Words(b));
    }
  }

  // ---- The characters ----

  const BREAKS := "\n\r\U{000B}\U{000C}\U{001C}\U{001D}\U{001E}\U{0085}\U{2028}\U{2029}"

  const OTHER_SPACES := "\t \U{001F}\U{00A0}\U{1680}\U{202F}\U{205F}\U{3000}"

  const WIDTH_SPACES :=
    "\U{2000}\U{2001}\U{2002}\U{2003}\U{2004}\U{2005}\U{2006}\U{2007}\U{2008}\U{2009}\U{200A}"

  /** The ten line boundaries, and the characters that are spaces without being one. */
  lemma CharactersAre(c: char)
    ensures IsBreak(c) <==> c in BREAKS
    ensures IsSpace(c) <==> c in BREAKS || c in OTHER_SPACES || c in WIDTH_SPACES
  {
    BreaksAre(c);
    OtherSpacesAre(c);
  }

  lemma BreaksAre(c: char)
    ensures IsBreak(c) <==> c in BREAKS
  {
  }

  lemma OtherSpacesAre(c: char)
    ensures c in OTHER_SPACES || c in WIDTH_SPACES <==> IsSpace(c) && !IsBreak(c)
  {
  }
}
