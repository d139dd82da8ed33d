/** The append-only changelog gate: a line-oriented section parser, a first-wins fold onto releases, and
    the comparison of a base changelog with a head. */
module ChangelogHistory {
  import opened Wrappers
  import opened Sequences
  import opened StringOrder

  /** A line with its line end, and a changelog as its lines. */
  type Line = string
  type Text = seq<Line>

  /** One checkout's grammar, as functions of a line: the stripped version of a versioned heading, whether
      a line is a level-2 heading, and the release a version belongs to. */
  datatype Grammar = Grammar(section: Line -> Option<string>, h2: Line -> bool, fold: string -> string)

  /** What does not depend on the checkout: str.isdigit, a heading line without its hashes and blanks, and
      whether a text has a bracketed level-2 heading of any kind. */
  datatype Lexis = Lexis(isDigit: char -> bool, title: Line -> string, anyBracketH2: Text -> bool)

  datatype Heading = Heading(raw: string, folded: string, block: Text)

  predicate IsShipped(version: string, g: Grammar, x: Lexis) {
    version != "" && x.isDigit(version[0]) && g.fold(version) == version
  }

  // ---- Parsing ----

  /** How many lines from the front of text precede its first level-2 heading. */
  function BodyLength(text: Text, g: Grammar): (n: nat)
    ensures n <= |text|
  {
    if text == [] || g.h2(text[0]) then 0 else 1 + BodyLength(text[1..], g)
  }

  function Headings(text: Text, g: Grammar): seq<Heading>
    decreases |text|
  {
    if text == [] then []
    else if g.section(text[0]).None? then Headings(text[1..], g)
    else
      var raw := g.section(text[0]).value;
      var end := 1 + BodyLength(text[1..], g);
      [Heading(raw, g.fold(raw), text[..end])] + Headings(text[end..], g)
  }

  /** out lists the headings of text before `from`. */
  ghost predicate Parsed(text: Text, g: Grammar, from: nat, out: seq<Heading>)
    requires from <= |text|
  {
    out + Headings(text[from..], g) == Headings(text, g)
  }

  lemma SkipLine(text: Text, g: Grammar, from: nat, out: seq<Heading>)
    requires from < |text| && g.section(text[from]).None? && Parsed(text, g, from, out)
    ensures Parsed(text, g, from + 1, out)
  {
    assert text[from..][1..] == text[from + 1..];
  }

  lemma TakeSection(text: Text, g: Grammar, from: nat, end: nat, out: seq<Heading>)
    requires from < end <= |text| && g.section(text[from]).Some? && Parsed(text, g, from, out)
    requires end == from + 1 + BodyLength(text[from + 1..], g)
    ensures var raw := g.section(text[from]).value;
            Parsed(text, g, end, out + [Heading(raw, g.fold(raw), text[from..end])])
  {
    var tail := text[from..];
    var raw := g.section(text[from]).value;
    var h := Heading(raw, g.fold(raw), text[from..end]);
    assert tail != [] && tail[0] == text[from];
    assert tail[1..] == text[from + 1..];
    assert tail[..end - from] == text[from..end];
    assert tail[end - from..] == text[end..];
    assert Headings(tail, g) == [h] + Headings(text[end..], g);
    Regroup(out, [h], Headings(text[end..], g));
  }

  /** The inner loop of _headings: the lines from index up to the next level-2 heading. */
  method TakeBody(lines: Text, start: nat, g: Grammar) returns (body: Text)
    requires start <= |lines|
    ensures |body| == BodyLength(lines[start..], g) <= |lines| - start
    ensures body == lines[start..start + |body|]
  {
    var index := start;
    body := [];
    while index < |lines| && !g.h2(lines[index])
      invariant start <= index <= |lines|
      invariant body == lines[start..index]
      invariant BodyLength(lines[start..], g) == |body| + BodyLength(lines[index..], g)
    {
      assert lines[index..][1..] == lines[index + 1..];
      body := body + [lines[index]];
      index := index + 1;
    }
  }

  /** _headings. */
  method ParseHeadings(lines: Text, g: Grammar) returns (out: seq<Heading>)
    ensures out == Headings(lines, g)
  {
    out := [];
    var index := 0;
    assert lines[0..] == lines;
    while index < |lines|
      invariant index <= |lines|
      invariant Parsed(lines, g, index, out)
    {
      var headingLine := lines[index];
      var heading := g.section(headingLine);
      if heading.None? {
        SkipLine(lines, g, index, out);
        index := index + 1;
      } else {
        var body := TakeBody(lines, index + 1, g);
        var end := index + 1 + |body|;
        TakeSection(lines, g, index, end, out);
        assert [headingLine] + body == lines[index..end];
        out := out + [Heading(heading.value, g.fold(heading.value), [headingLine] + body)];
        index := end;
      }
    }
    assert lines[|lines|..] == [];
  }

  /** The headings that fold onto one release, in document order. */
  function HeadingsFor(hs: seq<Heading>, v: string): seq<Heading> {
    if hs == [] then []
    else if hs[0].folded == v then [hs[0]] + HeadingsFor(hs[1..], v)
    else HeadingsFor(hs[1..], v)
  }

  lemma {:induction false} InHeadingsFor(hs: seq<Heading>, v: string, h: Heading)
    ensures h in HeadingsFor(hs, v) <==> h in hs && h.folded == v
  {
    if hs == [] {
    } else {
      InHeadingsFor(hs[1..], v, h);
    }
  }

  /** What the renderer shows: for each release the FIRST block folding onto it. */
  function Resolve(hs: seq<Heading>): map<string, Text> {
    if hs == [] then map[]
    else
      var rest := Resolve(hs[1..]);
      if hs[0].folded == "" then rest else rest[hs[0].folded := hs[0].block]
  }

  lemma {:induction false} ResolveIsFirst(hs: seq<Heading>, v: string)
    ensures v in Resolve(hs) <==> v != "" && HeadingsFor(hs, v) != []
    ensures v in Resolve(hs) ==> Resolve(hs)[v] == HeadingsFor(hs, v)[0].block
  {
    if hs == [] {
    } else {
      ResolveIsFirst(hs[1..], v);
    }
  }

  lemma {:induction false} ResolveOneMore(hs: seq<Heading>, h: Heading)
    ensures Resolve(hs + [h]) ==
            if h.folded == "" || h.folded in Resolve(hs) then Resolve(hs) else Resolve(hs)[h.folded := h.block]
  {
    if hs == [] {
      assert hs + [h] == [h];
    } else {
      assert (hs + [h])[1..] == hs[1..] + [h];
      ResolveOneMore(hs[1..], h);
    }
  }

  /** resolve_as_rendered: the setdefault loop. */
  method ResolveAsRendered(text: Text, g: Grammar) returns (resolved: map<string, Text>)
    ensures resolved == Resolve(Headings(text, g))
  {
    var hs := ParseHeadings(text, g);
    resolved := map[];
    for i := 0 to |hs|
      invariant resolved == Resolve(hs[..i])
    {
      assert hs[..i + 1] == hs[..i] + [hs[i]];
      ResolveOneMore(hs[..i], hs[i]);
      if hs[i].folded != "" && hs[i].folded !in resolved {
        resolved := resolved[hs[i].folded := hs[i].block];
      }
    }
    assert hs[..|hs|] == hs;
  }

  /** The shipped releases a text documents: the versions parse_sections lists. */
  function Shipped(hs: seq<Heading>, g: Grammar, x: Lexis): set<string> {
    set h | h in hs && IsShipped(h.raw, g, x) :: h.raw
  }

  // ---- Draft headings ----

  /** What a level-2 heading line names. */
  function Named(line: Line, g: Grammar, x: Lexis): string {
    if g.section(line).Some? then g.section(line).value else x.title(line)
  }

  function Drafts(text: Text, g: Grammar, x: Lexis): seq<string> {
    if text == [] then []
    else
      var line := text[|text| - 1];
      var before := Drafts(text[..|text| - 1], g, x);
      if g.h2(line) && !IsShipped(Named(line, g, x), g, x) then before + [Named(line, g, x)] else before
  }

  /** draft_headings. */
  method DraftHeadings(text: Text, g: Grammar, x: Lexis) returns (drafts: seq<string>)
    ensures drafts == Drafts(text, g, x)
  {
    drafts := [];
    for i := 0 to |text|
      invariant drafts == Drafts(text[..i], g, x)
    {
      assert text[..i + 1][..i] == text[..i];
      if g.h2(text[i]) {
        var raw := if g.section(text[i]).Some? then g.section(text[i]).value else x.title(text[i]);
        if !IsShipped(raw, g, x) {
          drafts := drafts + [raw];
        }
      }
    }
    assert text[..|text|] == text;
  }

  lemma {:induction false} NoDraftsMeansAllShipped(text: Text, g: Grammar, x: Lexis)
    ensures Drafts(text, g, x) == [] <==>
            forall i | 0 <= i < |text| && g.h2(text[i]) ::
              var name := if g.section(text[i]).Some? then g.section(text[i]).value else x.title(text[i]);
              name != "" && x.isDigit(name[0]) && g.fold(name) == name
  {
    if text == [] {
    } else {
      NoDraftsMeansAllShipped(text[..|text| - 1], g, x);
    }
  }

  /** A draft is what a level-2 line names, if that is nothing, or does not start with a digit, or is only a
      spelling of some release. */
  lemma {:induction false} DraftsAre(text: Text, g: Grammar, x: Lexis, name: string)
    ensures name in Drafts(text, g, x) <==>
            exists line | line in text ::
              && g.h2(line)
              && name == (if g.section(line).Some? then g.section(line).value else x.title(line))
              && (name == "" || !x.isDigit(name[0]) || g.fold(name) != name)
  {
    if text == [] {
    } else {
      var front, last := text[..|text| - 1], text[|text| - 1];
      assert text == front + [last];
      DraftsAre(front, g, x, name);
      assert forall line :: line in text <==> line in front || line == last;
    }
  }

  /** A release is shipped if some heading spells it bare. */
  lemma ShippedAre(hs: seq<Heading>, g: Grammar, x: Lexis, v: string)
    ensures v in Shipped(hs, g, x) <==>
            (exists h | h in hs :: h.raw == v) && v != "" && x.isDigit(v[0]) && g.fold(v) == v
  {
  }

  lemma {:induction false} DraftsJoin(a: Text, b: Text, g: Grammar, x: Lexis)
    ensures Drafts(a + b, g, x) == Drafts(a, g, x) + Drafts(b, g, x)
  {
    if b == [] {
      assert a + b == a;
    } else {
      assert (a + b)[..|a + b| - 1] == a + b[..|b| - 1];
      DraftsJoin(a, b[..|b| - 1], g, x);
    }
  }

  // ---- The comparison ----

  datatype Problem = NothingParsed | Gone(v: string) | Differs(v: string) | Duplicated(v: string) | StoodIn(v: string)

  /** First rule, for one shipped release. */
  function ResolvedCheck(v: string, base: map<string, Text>, head: map<string, Text>): seq<Problem> {
    if v !in head then [Gone(v)]
    else if v !in base || head[v] != base[v] then [Differs(v)]
    else []
  }

  /** Second rule, for one release with headings at head. */
  function HeadingCheck(v: string, shipped: set<string>, hs: seq<Heading>): seq<Problem>
    requires hs != []
  {
    if |hs| > 1 && (v in shipped || exists h | h in hs :: h.raw == v) then [Duplicated(v)]
    else if v in shipped && hs[0].raw != v then [StoodIn(v)]
    else []
  }

  function ResolvedChecks(vs: seq<string>, base: map<string, Text>, head: map<string, Text>): seq<Problem> {
    if vs == [] then []
    else ResolvedChecks(vs[..|vs| - 1], base, head) + ResolvedCheck(vs[|vs| - 1], base, head)
  }

  function HeadingChecks(vs: seq<string>, shipped: set<string>, hs: seq<Heading>): seq<Problem>
    requires forall v | v in vs :: HeadingsFor(hs, v) != []
  {
    if vs == [] then []
    else
      var last := vs[|vs| - 1];
      HeadingChecks(vs[..|vs| - 1], shipped, hs) + HeadingCheck(last, shipped, HeadingsFor(hs, last))
  }

  /** The releases with a heading. */
  function Folds(hs: seq<Heading>): (r: set<string>)
    ensures forall v :: v in r <==> v != "" && HeadingsFor(hs, v) != []
  {
    assert forall h | h in hs :: HeadingsFor(hs, h.folded) != [] by {
      forall h | h in hs ensures HeadingsFor(hs, h.folded) != [] { InHeadingsFor(hs, h.folded, h); }
    }
    assert forall v | HeadingsFor(hs, v) != [] :: exists h | h in hs :: h.folded == v by {
      forall v | HeadingsFor(hs, v) != [] ensures exists h | h in hs :: h.folded == v {
        InHeadingsFor(hs, v, HeadingsFor(hs, v)[0]);
      }
    }
    set h | h in hs && h.folded != "" :: h.folded
  }

  function Problems(base: Text, head: Text, gb: Grammar, gh: Grammar, x: Lexis): seq<Problem> {
    var bs, hs := Headings(base, gb), Headings(head, gh);
    var shipped := Shipped(bs, gb, x);
    if shipped == {} then (if x.anyBracketH2(base) then [NothingParsed] else [])
    else ResolvedChecks(Sorted(shipped), Resolve(bs), Resolve(hs)) + HeadingChecks(Sorted(Folds(hs)), shipped, hs)
  }

  method CheckResolved(versions: seq<string>, base: map<string, Text>, head: map<string, Text>)
    returns (problems: seq<Problem>)
    ensures problems == ResolvedChecks(versions, base, head)
  {
    problems := [];
    for i := 0 to |versions|
      invariant problems == ResolvedChecks(versions[..i], base, head)
    {
      var v := versions[i];
      assert versions[..i + 1][..i] == versions[..i];
      if v !in head {
        problems := problems + [Gone(v)];
      } else if v !in base || head[v] != base[v] {
        problems := problems + [Differs(v)];
      }
    }
    assert versions[..|versions|] == versions;
  }

  method CheckHeadings(versions: seq<string>, shipped: set<string>, hs: seq<Heading>)
    returns (problems: seq<Problem>)
    requires forall v | v in versions :: HeadingsFor(hs, v) != []
    ensures problems == HeadingChecks(versions, shipped, hs)
  {
    problems := [];
    for i := 0 to |versions|
      invariant problems == HeadingChecks(versions[..i], shipped, hs)
    {
      var v := versions[i];
      assert v in versions;
      assert versions[..i + 1][..i] == versions[..i];
      var mine := HeadingsFor(hs, v);
      if |mine| > 1 && (v in shipped || exists h | h in mine :: h.raw == v) {
        problems := problems + [Duplicated(v)];
      } else if v in shipped && mine[0].raw != v {
        problems := problems + [StoodIn(v)];
      }
    }
    assert versions[..|versions|] == versions;
  }

  /** compare. */
  method Compare(base: Text, head: Text, gb: Grammar, gh: Grammar, x: Lexis) returns (problems: seq<Problem>)
    ensures problems == Problems(base, head, gb, gh, x)
  {
    var bs := ParseHeadings(base, gb);
    var shipped := Shipped(bs, gb, x);
    if shipped == {} {
      if x.anyBracketH2(base) {
        return [NothingParsed];
      }
      return [];
    }
    var baseResolved := ResolveAsRendered(base, gb);
    var headResolved := ResolveAsRendered(head, gh);
    var hs := ParseHeadings(head, gh);
    var first := CheckResolved(Sorted(shipped), baseResolved, headResolved);
    var second := CheckHeadings(Sorted(Folds(hs)), shipped, hs);
    problems := first + second;
  }

  // ---- What an accepted change is ----

  lemma ResolvedChecksOneMore(vs: seq<string>, v: string, base: map<string, Text>, head: map<string, Text>)
    ensures ResolvedChecks(vs + [v], base, head) == ResolvedChecks(vs, base, head) + ResolvedCheck(v, base, head)
  {
    assert (vs + [v])[..|vs|] == vs;
  }

  lemma {:induction false} ResolvedChecksClean(vs: seq<string>, base: map<string, Text>, head: map<string, Text>)
    ensures ResolvedChecks(vs, base, head) == [] <==> forall v | v in vs :: ResolvedCheck(v, base, head) == []
  {
    if vs == [] {
    } else {
      var front, last := vs[..|vs| - 1], vs[|vs| - 1];
      assert vs == front + [last];
      ResolvedChecksClean(front, base, head);
      ResolvedChecksOneMore(front, last, base, head);
    }
  }

  lemma {:induction false} HeadingChecksClean(vs: seq<string>, shipped: set<string>, hs: seq<Heading>)
    requires forall v | v in vs :: HeadingsFor(hs, v) != []
    ensures HeadingChecks(vs, shipped, hs) == [] <==>
            forall v | v in vs :: HeadingCheck(v, shipped, HeadingsFor(hs, v)) == []
  {
    if vs == [] {
    } else {
      var front, last := vs[..|vs| - 1], vs[|vs| - 1];
      HeadingChecksClean(front, shipped, hs);
      assert vs == front + [last];
      assert HeadingChecks(vs, shipped, hs) ==
             HeadingChecks(front, shipped, hs) + HeadingCheck(last, shipped, HeadingsFor(hs, last));
      assert forall v :: v in vs <==> v in front || v == last;
    }
  }

  /** A shipped release is documented at head by exactly one heading, spelled bare, over the same lines. */
  ghost predicate Preserved(v: string, bs: seq<Heading>, hs: seq<Heading>) {
    && HeadingsFor(bs, v) != []
    && HeadingsFor(hs, v) == [Heading(v, v, HeadingsFor(bs, v)[0].block)]
  }

  /** A release that has a bare heading has no other. */
  ghost predicate BareStandsAlone(v: string, hs: seq<Heading>) {
    (exists h | h in HeadingsFor(hs, v) :: h.raw == v) ==> |HeadingsFor(hs, v)| == 1
  }

  /** What an accepted change does to release v. */
  ghost predicate Kept(v: string, shipped: set<string>, bs: seq<Heading>, hs: seq<Heading>) {
    (v in shipped ==> Preserved(v, bs, hs)) && BareStandsAlone(v, hs)
  }

  /** Neither rule of compare complains about v. */
  ghost predicate Passes(v: string, shipped: set<string>, bs: seq<Heading>, hs: seq<Heading>) {
    && (v in shipped ==> ResolvedCheck(v, Resolve(bs), Resolve(hs)) == [])
    && (HeadingsFor(hs, v) != [] ==> HeadingCheck(v, shipped, HeadingsFor(hs, v)) == [])
  }

  lemma PassesMeansKept(v: string, shipped: set<string>, bs: seq<Heading>, hs: seq<Heading>)
    requires v != "" && (v in shipped ==> HeadingsFor(bs, v) != [])
    ensures Passes(v, shipped, bs, hs) <==> Kept(v, shipped, bs, hs)
  {
    ResolveIsFirst(bs, v);
    ResolveIsFirst(hs, v);
    if HeadingsFor(hs, v) != [] {
      InHeadingsFor(hs, v, HeadingsFor(hs, v)[0]);
    }
  }

  /** Every shipped release of the base is preserved, and no bare heading at head shares its release with
      another; but a base with no shipped release asks for nothing except that it have no bracketed
      heading. */
  ghost predicate Accepted(base: Text, head: Text, gb: Grammar, gh: Grammar, x: Lexis) {
    var bs, hs := Headings(base, gb), Headings(head, gh);
    var shipped := Shipped(bs, gb, x);
    if shipped == {} then !x.anyBracketH2(base) else forall v | v != "" :: Kept(v, shipped, bs, hs)
  }

  lemma ShippedHasHeading(v: string, hs: seq<Heading>, g: Grammar, x: Lexis)
    requires v in Shipped(hs, g, x) && forall h | h in hs :: h.folded == g.fold(h.raw)
    ensures v != "" && HeadingsFor(hs, v) != []
  {
    var h :| h in hs && h.raw == v;
    InHeadingsFor(hs, v, h);
  }

  lemma {:induction false} HeadingsFold(text: Text, g: Grammar)
    ensures forall h | h in Headings(text, g) :: h.folded == g.fold(h.raw)
    decreases |text|
  {
    if text == [] {
    } else {
      if g.section(text[0]).None? {
        HeadingsFold(text[1..], g);
      } else {
        HeadingsFold(text[1 + BodyLength(text[1..], g)..], g);
      }
    }
  }

  lemma ChecksAreEmptyWhenAllPass(vs: seq<string>, fs: seq<string>, shipped: set<string>,
                                  bs: seq<Heading>, hs: seq<Heading>)
    requires "" !in shipped
    requires forall v :: v in vs <==> v in shipped
    requires forall v :: v in fs <==> v != "" && HeadingsFor(hs, v) != []
    ensures ResolvedChecks(vs, Resolve(bs), Resolve(hs)) == [] && HeadingChecks(fs, shipped, hs) == []
            <==> forall v | v != "" :: Passes(v, shipped, bs, hs)
  {
    ResolvedChecksClean(vs, Resolve(bs), Resolve(hs));
    HeadingChecksClean(fs, shipped, hs);
    if forall v | v != "" :: Passes(v, shipped, bs, hs) {
      forall v | v in vs ensures ResolvedCheck(v, Resolve(bs), Resolve(hs)) == [] {
        assert Passes(v, shipped, bs, hs);
      }
      forall v | v in fs ensures HeadingCheck(v, shipped, HeadingsFor(hs, v)) == [] {
        assert Passes(v, shipped, bs, hs);
      }
    } else {
      var v :| v != "" && !Passes(v, shipped, bs, hs);
      assert v in vs || v in fs;
    }
  }

  /** compare has no complaint exactly when the change is accepted in that sense. */
  lemma CompareAcceptsExactly(base: Text, head: Text, gb: Grammar, gh: Grammar, x: Lexis)
    ensures Problems(base, head, gb, gh, x) == [] <==> Accepted(base, head, gb, gh, x)
  {
    var bs, hs := Headings(base, gb), Headings(head, gh);
    var shipped := Shipped(bs, gb, x);
    HeadingsFold(base, gb);
    ChecksAreEmptyWhenAllPass(Sorted(shipped), Sorted(Folds(hs)), shipped, bs, hs);
    forall v | v != "" ensures Passes(v, shipped, bs, hs) <==> Kept(v, shipped, bs, hs) {
      if v in shipped { ShippedHasHeading(v, bs, gb, x); }
      PassesMeansKept(v, shipped, bs, hs);
    }
  }

  /** The release a complaint is about. */
  function About(p: Problem): string {
    match p
    case NothingParsed => ""
    case Gone(v) => v
    case Differs(v) => v
    case Duplicated(v) => v
    case StoodIn(v) => v
  }

  lemma {:induction false} ResolvedReports(vs: seq<string>, base: map<string, Text>, head: map<string, Text>, p: Problem)
    ensures p in ResolvedChecks(vs, base, head) <==> About(p) in vs && ResolvedCheck(About(p), base, head) == [p]
  {
    if vs == [] {
    } else {
      var front, last := vs[..|vs| - 1], vs[|vs| - 1];
      assert vs == front + [last];
      ResolvedReports(front, base, head, p);
      ResolvedChecksOneMore(front, last, base, head);
      assert p in ResolvedCheck(last, base, head) <==> About(p) == last && ResolvedCheck(last, base, head) == [p];
    }
  }

  lemma HeadingChecksOneMore(vs: seq<string>, v: string, shipped: set<string>, hs: seq<Heading>)
    requires forall u | u in vs + [v] :: HeadingsFor(hs, u) != []
    ensures v in vs + [v] && forall u | u in vs :: u in vs + [v]
    ensures HeadingChecks(vs + [v], shipped, hs) ==
            HeadingChecks(vs, shipped, hs) + HeadingCheck(v, shipped, HeadingsFor(hs, v))
  {
    assert (vs + [v])[..|vs|] == vs && (vs + [v])[|vs|] == v;
  }

  /** What the second rule says of v, if it has headings. */
  function HeadingCheckOf(v: string, shipped: set<string>, hs: seq<Heading>): seq<Problem> {
    if HeadingsFor(hs, v) == [] then [] else HeadingCheck(v, shipped, HeadingsFor(hs, v))
  }

  lemma {:induction false} HeadingReports(vs: seq<string>, shipped: set<string>, hs: seq<Heading>, p: Problem)
    requires forall v | v in vs :: HeadingsFor(hs, v) != []
    ensures p in HeadingChecks(vs, shipped, hs) <==> About(p) in vs && HeadingCheckOf(About(p), shipped, hs) == [p]
  {
    if vs == [] {
    } else {
      var front, last := vs[..|vs| - 1], vs[|vs| - 1];
      assert vs == front + [last];
      HeadingChecksOneMore(front, last, shipped, hs);
      HeadingReports(front, shipped, hs, p);
      assert p in HeadingCheckOf(last, shipped, hs) <==> About(p) == last && HeadingCheckOf(last, shipped, hs) == [p];
    }
  }

  lemma ReportsAre(base: Text, head: Text, gb: Grammar, gh: Grammar, x: Lexis, p: Problem)
    requires Shipped(Headings(base, gb), gb, x) != {}
    ensures var bs, hs := Headings(base, gb), Headings(head, gh);
            var shipped := Shipped(bs, gb, x);
            p in Problems(base, head, gb, gh, x) <==>
            || (About(p) in shipped && ResolvedCheck(About(p), Resolve(bs), Resolve(hs)) == [p])
            || (About(p) in Folds(hs) && HeadingCheckOf(About(p), shipped, hs) == [p])
  {
    var bs, hs := Headings(base, gb), Headings(head, gh);
    var shipped := Shipped(bs, gb, x);
    ResolvedReports(Sorted(shipped), Resolve(bs), Resolve(hs), p);
    HeadingReports(Sorted(Folds(hs)), shipped, hs, p);
  }

  lemma FirstRuleOf(v: string, bs: seq<Heading>, hs: seq<Heading>)
    requires v != "" && HeadingsFor(bs, v) != []
    ensures ResolvedCheck(v, Resolve(bs), Resolve(hs)) == [Gone(v)] <==> HeadingsFor(hs, v) == []
    ensures ResolvedCheck(v, Resolve(bs), Resolve(hs)) == [Differs(v)]
            <==> HeadingsFor(hs, v) != [] && HeadingsFor(hs, v)[0].block != HeadingsFor(bs, v)[0].block
  {
    ResolveIsFirst(bs, v);
    ResolveIsFirst(hs, v);
  }

  lemma SecondRuleOf(v: string, shipped: set<string>, hs: seq<Heading>)
    ensures var mine := HeadingsFor(hs, v);
            && (HeadingCheckOf(v, shipped, hs) == [Duplicated(v)]
                <==> |mine| > 1 && (v in shipped || exists h | h in mine :: h.raw == v))
            && (HeadingCheckOf(v, shipped, hs) == [StoodIn(v)] <==> v in shipped && |mine| == 1 && mine[0].raw != v)
  {
  }

  lemma RulesKeepApart(v: string, base: map<string, Text>, head: map<string, Text>, shipped: set<string>,
                       hs: seq<Heading>)
    ensures HeadingCheckOf(v, shipped, hs) != [Gone(v)] && HeadingCheckOf(v, shipped, hs) != [Differs(v)]
    ensures ResolvedCheck(v, base, head) != [Duplicated(v)] && ResolvedCheck(v, base, head) != [StoodIn(v)]
  {
  }

  /** What the first rule's complaints mean: a shipped release has no heading left, or its first heading shows
      other lines than the base's. */
  lemma FirstRuleSays(base: Text, head: Text, gb: Grammar, gh: Grammar, x: Lexis, v: string)
    requires v in Shipped(Headings(base, gb), gb, x)
    ensures var bs, hs := Headings(base, gb), Headings(head, gh);
            && HeadingsFor(bs, v) != []
            && (Gone(v) in Problems(base, head, gb, gh, x) <==> HeadingsFor(hs, v) == [])
            && (Differs(v) in Problems(base, head, gb, gh, x)
                <==> HeadingsFor(hs, v) != [] && HeadingsFor(hs, v)[0].block != HeadingsFor(bs, v)[0].block)
  {
    var bs, hs := Headings(base, gb), Headings(head, gh);
    HeadingsFold(base, gb);
    ShippedHasHeading(v, bs, gb, x);
    FirstRuleOf(v, bs, hs);
    RulesKeepApart(v, Resolve(bs), Resolve(hs), Shipped(bs, gb, x), hs);
    ReportsAre(base, head, gb, gh, x, Gone(v));
    ReportsAre(base, head, gb, gh, x, Differs(v));
  }

  lemma SecondRuleReports(base: Text, head: Text, gb: Grammar, gh: Grammar, x: Lexis, p: Problem)
    requires About(p) != "" && Shipped(Headings(base, gb), gb, x) != {} && (p.Duplicated? || p.StoodIn?)
    ensures p in Problems(base, head, gb, gh, x)
            <==> HeadingCheckOf(About(p), Shipped(Headings(base, gb), gb, x), Headings(head, gh)) == [p]
  {
    var bs, hs := Headings(base, gb), Headings(head, gh);
    RulesKeepApart(About(p), Resolve(bs), Resolve(hs), Shipped(bs, gb, x), hs);
    ReportsAre(base, head, gb, gh, x, p);
  }

  /** And the second's: a release has several headings though it is shipped or one of them is bare, or the only
      heading of a shipped release is another spelling of it. */
  lemma SecondRuleSays(base: Text, head: Text, gb: Grammar, gh: Grammar, x: Lexis, v: string)
    requires v != "" && Shipped(Headings(base, gb), gb, x) != {}
    ensures var shipped, mine := Shipped(Headings(base, gb), gb, x), HeadingsFor(Headings(head, gh), v);
            && (Duplicated(v) in Problems(base, head, gb, gh, x)
                <==> |mine| > 1 && (v in shipped || exists h | h in mine :: h.raw == v))
            && (StoodIn(v) in Problems(base, head, gb, gh, x)
                <==> v in shipped && |mine| == 1 && mine[0].raw != v)
  {
    SecondRuleOf(v, Shipped(Headings(base, gb), gb, x), Headings(head, gh));
    SecondRuleReports(base, head, gb, gh, x, Duplicated(v));
    SecondRuleReports(base, head, gb, gh, x, StoodIn(v));
  }

  // ---- Whole histories ----

  /** The changelog and the grammar of one commit. */
  datatype Commit = Commit(text: Text, grammar: Grammar)

  ghost predicate StepAccepted(c: Commit, d: Commit, x: Lexis) {
    Problems(c.text, d.text, c.grammar, d.grammar, x) == []
  }

  ghost predicate AcceptedChain(cs: seq<Commit>, x: Lexis) {
    forall i, j | 0 <= i < j < |cs| && j == i + 1 :: StepAccepted(cs[i], cs[j], x)
  }

  function HeadingsOf(c: Commit): seq<Heading> { Headings(c.text, c.grammar) }

  function ShippedOf(c: Commit, x: Lexis): set<string> { Shipped(HeadingsOf(c), c.grammar, x) }

  lemma PreservedIsShipped(v: string, shipped: set<string>, bs: seq<Heading>, hs: seq<Heading>, g: Grammar, x: Lexis)
    requires v in shipped && Kept(v, shipped, bs, hs)
    requires v != "" && x.isDigit(v[0]) && forall h | h in hs :: h.folded == g.fold(h.raw)
    ensures v in Shipped(hs, g, x)
  {
    var h := HeadingsFor(hs, v)[0];
    InHeadingsFor(hs, v, h);
  }

  lemma StepPreserves(c: Commit, d: Commit, x: Lexis, v: string)
    requires StepAccepted(c, d, x) && v in ShippedOf(c, x)
    ensures v in ShippedOf(d, x) && Preserved(v, HeadingsOf(c), HeadingsOf(d))
  {
    CompareAcceptsExactly(c.text, d.text, c.grammar, d.grammar, x);
    HeadingsFold(d.text, d.grammar);
    PreservedIsShipped(v, ShippedOf(c, x), HeadingsOf(c), HeadingsOf(d), d.grammar, x);
  }

  /** v has one heading in hs, spelled bare, over these lines. */
  ghost predicate Documents(hs: seq<Heading>, v: string, block: Text) {
    HeadingsFor(hs, v) == [Heading(v, v, block)]
  }

  /** Immutability over any history of accepted changes, each judged under its own two grammars: a release
      shipped at commit i is documented at every later commit by exactly one heading, spelled bare, whose
      lines, heading included, are the ones commit i resolved; and it still counts as shipped there. */
  lemma {:induction false} HistoryIsImmutable(cs: seq<Commit>, x: Lexis, i: nat, j: nat, v: string)
    requires AcceptedChain(cs, x) && i < j < |cs| && v in ShippedOf(cs[i], x)
    ensures v in Resolve(HeadingsOf(cs[i]))
    ensures v in ShippedOf(cs[j], x) && Documents(HeadingsOf(cs[j]), v, Resolve(HeadingsOf(cs[i]))[v])
    decreases j - i
  {
    var k := j - 1;
    assert StepAccepted(cs[k], cs[j], x);
    if i >= k {
    } else {
      HistoryIsImmutable(cs, x, i, k, v);
    }
    StepPreserves(cs[k], cs[j], x, v);
    ShippedIsNamed(v, HeadingsOf(cs[i]), cs[i].grammar, x);
    ResolveIsFirst(HeadingsOf(cs[i]), v);
    if i == k { assert Preserved(v, HeadingsOf(cs[i]), HeadingsOf(cs[j])); }
  }

  lemma ShippedIsNamed(v: string, hs: seq<Heading>, g: Grammar, x: Lexis)
    requires v in Shipped(hs, g, x)
    ensures v != ""
  {
  }

  /** A versioned heading is a level-2 heading. */
  ghost predicate SectionsAreH2(g: Grammar) {
    forall line :: g.section(line).Some? ==> g.h2(line)
  }

  lemma {:induction false} HeadingHasLine(text: Text, g: Grammar, h: Heading)
    requires h in Headings(text, g)
    ensures exists line | line in text :: g.section(line) == Some(h.raw)
    decreases |text|
  {
    if g.section(text[0]).None? {
      HeadingHasLine(text[1..], g, h);
    } else if h != Headings(text, g)[0] {
      HeadingHasLine(text[1 + BodyLength(text[1..], g)..], g, h);
    } else {
      assert text[0] in text;
    }
  }

  lemma DraftFreeHeadingIsShipped(text: Text, g: Grammar, x: Lexis, h: Heading)
    requires Drafts(text, g, x) == [] && SectionsAreH2(g) && h in Headings(text, g)
    ensures IsShipped(h.raw, g, x)
  {
    HeadingHasLine(text, g, h);
    NoDraftsMeansAllShipped(text, g, x);
    var line :| line in text && g.section(line) == Some(h.raw);
    var i :| 0 <= i < |text| && text[i] == line;
    assert IsShipped(Named(text[i], g, x), g, x);
  }

  lemma BareHeadingIsSole(hs: seq<Heading>, h: Heading)
    requires h in hs && h.raw == h.folded && BareStandsAlone(h.raw, hs)
    ensures HeadingsFor(hs, h.raw) == [h]
  {
    InHeadingsFor(hs, h.raw, h);
  }

  /** Both invariants together: after an accepted, draft-free change to a changelog that had shipped
      anything, the headings of the file ARE its releases, one bare heading each. */
  lemma DraftFreeHeadingsAreReleases(c: Commit, d: Commit, x: Lexis, h: Heading)
    requires StepAccepted(c, d, x) && ShippedOf(c, x) != {}
    requires Drafts(d.text, d.grammar, x) == [] && SectionsAreH2(d.grammar)
    requires h in HeadingsOf(d)
    ensures h.raw == h.folded && h.raw in ShippedOf(d, x) && HeadingsFor(HeadingsOf(d), h.raw) == [h]
  {
    DraftFreeHeadingIsShipped(d.text, d.grammar, x, h);
    HeadingsFold(d.text, d.grammar);
    CompareAcceptsExactly(c.text, d.text, c.grammar, d.grammar, x);
    assert Kept(h.raw, ShippedOf(c, x), HeadingsOf(c), HeadingsOf(d));
    BareHeadingIsSole(HeadingsOf(d), h);
  }

  // ---- Prepending, and what else is accepted ----

  ghost predicate NoH2(text: Text, g: Grammar) {
    forall line | line in text :: !g.h2(line)
  }

  /** A heading line and its body: no level-2 heading inside. */
  ghost predicate IsBlock(block: Text, g: Grammar) {
    block != [] && g.section(block[0]).Some? && NoH2(block[1..], g)
  }

  function BlockHeading(block: Text, g: Grammar): Heading
    requires block != [] && g.section(block[0]).Some?
  {
    var raw := g.section(block[0]).value;
    Heading(raw, g.fold(raw), block)
  }

  /** Nothing, or text that starts with a level-2 heading. */
  ghost predicate StartsAtH2(text: Text, g: Grammar) {
    text == [] || g.h2(text[0])
  }

  lemma {:induction false} HeadingsSkipPreamble(pre: Text, rest: Text, g: Grammar)
    requires SectionsAreH2(g) && NoH2(pre, g)
    ensures Headings(pre + rest, g) == Headings(rest, g)
  {
    if pre == [] {
      assert pre + rest == rest;
    } else {
      assert pre[0] in pre;
      assert (pre + rest)[1..] == pre[1..] + rest;
      HeadingsSkipPreamble(pre[1..], rest, g);
    }
  }

  lemma {:induction false} BodyLengthOf(body: Text, rest: Text, g: Grammar)
    requires NoH2(body, g) && StartsAtH2(rest, g)
    ensures BodyLength(body + rest, g) == |body|
  {
    if body == [] {
      assert body + rest == rest;
    } else {
      assert body[0] in body;
      assert (body + rest)[1..] == body[1..] + rest;
      BodyLengthOf(body[1..], rest, g);
    }
  }

  lemma HeadingsOfBlock(block: Text, rest: Text, g: Grammar)
    requires IsBlock(block, g) && StartsAtH2(rest, g)
    ensures Headings(block + rest, g) == [BlockHeading(block, g)] + Headings(rest, g)
  {
    var text := block + rest;
    BodyLengthOf(block[1..], rest, g);
    assert text[1..] == block[1..] + rest;
    assert text[..|block|] == block;
    assert text[|block|..] == rest;
  }

  ghost predicate OneHeadingPerRelease(hs: seq<Heading>) {
    forall v | v != "" :: |HeadingsFor(hs, v)| <= 1
  }

  lemma SoleHeadingIsBare(v: string, text: Text, g: Grammar, x: Lexis)
    requires var hs := Headings(text, g); v in Shipped(hs, g, x) && OneHeadingPerRelease(hs)
    ensures var hs := Headings(text, g);
            v != "" && |HeadingsFor(hs, v)| == 1
            && HeadingsFor(hs, v)[0] == Heading(v, v, HeadingsFor(hs, v)[0].block)
  {
    var hs := Headings(text, g);
    HeadingsFold(text, g);
    var h :| h in hs && h.raw == v;
    InHeadingsFor(hs, v, h);
  }

  /** A new section above the others is read as one more heading, and nothing else changes. */
  lemma PrependAddsOneHeading(pre: Text, block: Text, rest: Text, g: Grammar)
    requires SectionsAreH2(g) && NoH2(pre, g) && IsBlock(block, g) && StartsAtH2(rest, g)
    ensures Headings(pre + block + rest, g) == [BlockHeading(block, g)] + Headings(pre + rest, g)
  {
    HeadingsSkipPreamble(pre, rest, g);
    HeadingsSkipPreamble(pre, block + rest, g);
    HeadingsOfBlock(block, rest, g);
    Regroup(pre, block, rest);
  }

  /** Prepending is accepted exactly when the new heading's release is new to the file, or is one it only
      has a draft of and the new heading is a draft of it too. In particular a new release always is. */
  lemma PrependIsAccepted(pre: Text, block: Text, rest: Text, g: Grammar, x: Lexis)
    requires SectionsAreH2(g) && NoH2(pre, g) && IsBlock(block, g) && StartsAtH2(rest, g)
    requires var bs := Headings(pre + rest, g); OneHeadingPerRelease(bs) && Shipped(bs, g, x) != {}
    ensures var bs := Headings(pre + rest, g);
            var h := BlockHeading(block, g);
            Problems(pre + rest, pre + block + rest, g, g, x) == [] <==>
            || h.folded == ""
            || HeadingsFor(bs, h.folded) == []
            || (&& h.raw != h.folded
                && h.folded !in Shipped(bs, g, x)
                && HeadingsFor(bs, h.folded)[0].raw != h.folded)
  {
    var base, head := pre + rest, pre + block + rest;
    var bs := Headings(base, g);
    var shipped := Shipped(bs, g, x);
    PrependAddsOneHeading(pre, block, rest, g);
    CompareAcceptsExactly(base, head, g, g, x);
    forall v | v in shipped
      ensures v != "" && |HeadingsFor(bs, v)| == 1 && HeadingsFor(bs, v)[0] == Heading(v, v, HeadingsFor(bs, v)[0].block)
    {
      SoleHeadingIsBare(v, base, g, x);
    }
    OneMoreHeadingIsKept(bs, BlockHeading(block, g), shipped);
  }

  lemma OneMoreHeadingIsKept(bs: seq<Heading>, h: Heading, shipped: set<string>)
    requires OneHeadingPerRelease(bs)
    requires forall v | v in shipped ::
               v != "" && |HeadingsFor(bs, v)| == 1 && HeadingsFor(bs, v)[0] == Heading(v, v, HeadingsFor(bs, v)[0].block)
    ensures (forall v | v != "" :: Kept(v, shipped, bs, [h] + bs)) <==>
            || h.folded == ""
            || HeadingsFor(bs, h.folded) == []
            || (&& h.raw != h.folded
                && h.folded !in shipped
                && HeadingsFor(bs, h.folded)[0].raw != h.folded)
  {
    PrependKeeps(h, bs, shipped);
    forall v | v != "" && v != h.folded ensures Kept(v, shipped, bs, [h] + bs) {
      assert ([h] + bs)[1..] == bs;
      assert |HeadingsFor(bs, v)| <= 1;
    }
    if h.folded != "" { assert |HeadingsFor(bs, h.folded)| <= 1; }
  }

  lemma PrependKeeps(h: Heading, bs: seq<Heading>, shipped: set<string>)
    requires h.folded in shipped ==> HeadingsFor(bs, h.folded) != []
    ensures Kept(h.folded, shipped, bs, [h] + bs) <==>
            || HeadingsFor(bs, h.folded) == []
            || (&& h.raw != h.folded
                && h.folded !in shipped
                && forall b | b in HeadingsFor(bs, h.folded) :: b.raw != h.folded)
  {
    var hs := [h] + bs;
    var v := h.folded;
    assert hs[1..] == bs;
    assert HeadingsFor(hs, v) == [h] + HeadingsFor(bs, v);
    assert forall b | b in HeadingsFor(bs, v) :: b in HeadingsFor(hs, v);
  }

  lemma ExchangeKeepsAll(ha: Heading, hb: Heading, tail: seq<Heading>, base: Text, g: Grammar, x: Lexis)
    requires ha.folded != hb.folded && Headings(base, g) == [ha, hb] + tail
    requires OneHeadingPerRelease(Headings(base, g))
    ensures var bs, hs := [ha, hb] + tail, [hb, ha] + tail;
            forall v | v != "" :: Kept(v, Shipped(bs, g, x), bs, hs)
  {
    var bs, hs := [ha, hb] + tail, [hb, ha] + tail;
    forall v | v != "" ensures Kept(v, Shipped(bs, g, x), bs, hs) {
      if v in Shipped(bs, g, x) { SoleHeadingIsBare(v, base, g, x); }
      ExchangedHeadings(ha, hb, tail, v);
      assert |HeadingsFor(bs, v)| <= 1;
    }
  }

  /** Neither rule checks order: exchanging two whole sections is accepted and makes no draft of anything,
      though nothing was prepended. */
  lemma ExchangeIsAccepted(pre: Text, a: Text, b: Text, rest: Text, g: Grammar, x: Lexis)
    requires SectionsAreH2(g) && NoH2(pre, g) && IsBlock(a, g) && IsBlock(b, g) && StartsAtH2(rest, g)
    requires var ha, hb := BlockHeading(a, g), BlockHeading(b, g); ha.folded != hb.folded
    requires var bs := Headings(pre + a + b + rest, g); OneHeadingPerRelease(bs) && Shipped(bs, g, x) != {}
    ensures Problems(pre + a + b + rest, pre + b + a + rest, g, g, x) == []
    ensures Drafts(pre + b + a + rest, g, x) == [] <==> Drafts(pre + a + b + rest, g, x) == []
    ensures pre + a + b + rest != pre + b + a + rest
  {
    var base, head := pre + a + b + rest, pre + b + a + rest;
    TwoSections(pre, a, b, rest, g);
    TwoSections(pre, b, a, rest, g);
    CompareAcceptsExactly(base, head, g, g, x);
    ExchangeKeepsAll(BlockHeading(a, g), BlockHeading(b, g), Headings(rest, g), base, g, x);
    ExchangedDrafts(pre, a, b, rest, g, x);
    ExchangedDiffer(pre, a, b, rest);
  }

  lemma ExchangedDiffer(pre: Text, a: Text, b: Text, rest: Text)
    requires a != [] && b != [] && a[0] != b[0]
    ensures pre + a + b + rest != pre + b + a + rest
  {
    assert (pre + a + b + rest)[|pre|] == a[0] && (pre + b + a + rest)[|pre|] == b[0];
  }

  lemma ExchangedDrafts(pre: Text, a: Text, b: Text, rest: Text, g: Grammar, x: Lexis)
    ensures Drafts(pre + b + a + rest, g, x) == [] <==> Drafts(pre + a + b + rest, g, x) == []
  {
    DraftsOfFour(pre, a, b, rest, g, x);
    DraftsOfFour(pre, b, a, rest, g, x);
  }

  lemma DraftsOfFour(pre: Text, a: Text, b: Text, rest: Text, g: Grammar, x: Lexis)
    ensures Drafts(pre + a + b + rest, g, x) == Drafts(pre, g, x) + Drafts(a, g, x) + Drafts(b, g, x) + Drafts(rest, g, x)
  {
    DraftsJoin(pre + a + b, rest, g, x);
    DraftsJoin(pre + a, b, g, x);
    DraftsJoin(pre, a, g, x);
  }

  lemma TwoSections(pre: Text, a: Text, b: Text, rest: Text, g: Grammar)
    requires SectionsAreH2(g) && NoH2(pre, g) && IsBlock(a, g) && IsBlock(b, g) && StartsAtH2(rest, g)
    ensures Headings(pre + a + b + rest, g) == [BlockHeading(a, g), BlockHeading(b, g)] + Headings(rest, g)
  {
    assert pre + a + b + rest == pre + (a + (b + rest));
    HeadingsSkipPreamble(pre, a + (b + rest), g);
    assert (b + rest)[0] == b[0];
    HeadingsOfBlock(a, b + rest, g);
    HeadingsOfBlock(b, rest, g);
  }

  lemma ExchangedHeadings(a: Heading, b: Heading, tail: seq<Heading>, v: string)
    requires a.folded != b.folded
    ensures HeadingsFor([a, b] + tail, v) == HeadingsFor([b, a] + tail, v)
  {
    assert ([a, b] + tail)[1..] == [b] + tail && ([b] + tail)[1..] == tail;
    assert ([b, a] + tail)[1..] == [a] + tail && ([a] + tail)[1..] == tail;
  }
}
