/** What the two rules of the changelog gate, immutability and no drafts, leave of a change together. */
module ChangelogShape {
  import opened Sequences
  import opened ChangelogHistory

  // ---- Headings of joined texts ----

  lemma {:induction false} BodyLengthJoin(a: Text, b: Text, g: Grammar)
    requires StartsAtH2(b, g)
    ensures BodyLength(a + b, g) == BodyLength(a, g)
  {
    if a == [] {
      assert a + b == b;
    } else {
      assert (a + b)[1..] == a[1..] + b;
      BodyLengthJoin(a[1..], b, g);
    }
  }

  lemma {:induction false} HeadingsJoin(a: Text, b: Text, g: Grammar)
    requires StartsAtH2(b, g)
    ensures Headings(a + b, g) == Headings(a, g) + Headings(b, g)
    decreases |a|
  {
    if a == [] {
      assert a + b == b;
    } else {
      assert (a + b)[0] == a[0] && (a + b)[1..] == a[1..] + b;
      if g.section(a[0]).None? {
        HeadingsJoin(a[1..], b, g);
      } else {
        var end := 1 + BodyLength(a[1..], g);
        BodyLengthJoin(a[1..], b, g);
        assert (a + b)[..end] == a[..end] && (a + b)[end..] == a[end..] + b;
        HeadingsJoin(a[end..], b, g);
        var raw := g.section(a[0]).value;
        Regroup([Heading(raw, g.fold(raw), a[..end])], Headings(a[end..], g), Headings(b, g));
      }
    }
  }

  lemma {:induction false} NoSectionsNoHeadings(text: Text, g: Grammar)
    requires forall line | line in text :: g.section(line).None?
    ensures Headings(text, g) == []
  {
    if text == [] {
    } else {
      assert text[0] in text;
      NoSectionsNoHeadings(text[1..], g);
    }
  }

  // ---- The two rules together ----

  /** Every heading is spelled bare and is the only one of its release. */
  ghost predicate SoleAndBare(hs: seq<Heading>) {
    forall h | h in hs :: HeadingsFor(hs, h.raw) == [h]
  }

  /** hs has, unchanged, the heading that bs resolves each release to. */
  ghost predicate Carries(bs: seq<Heading>, hs: seq<Heading>) {
    forall v | HeadingsFor(bs, v) != [] :: HeadingsFor(bs, v)[0] in hs
  }

  /** Every heading names its own release, and that a shipped one. */
  ghost predicate Released(hs: seq<Heading>, g: Grammar, x: Lexis) {
    forall h | h in hs :: h.raw != "" && h.raw == h.folded && h.raw in Shipped(hs, g, x)
  }

  lemma DraftFreeIsReleased(text: Text, g: Grammar, x: Lexis)
    requires Drafts(text, g, x) == [] && SectionsAreH2(g)
    ensures Released(Headings(text, g), g, x)
  {
    HeadingsFold(text, g);
    forall h | h in Headings(text, g) ensures IsShipped(h.raw, g, x) {
      DraftFreeHeadingIsShipped(text, g, x, h);
    }
  }

  lemma SoleWhenKept(hs: seq<Heading>, shipped: set<string>, bs: seq<Heading>, g: Grammar, x: Lexis)
    requires Released(hs, g, x) && forall v | v != "" :: Kept(v, shipped, bs, hs)
    ensures SoleAndBare(hs)
  {
    forall h | h in hs ensures HeadingsFor(hs, h.raw) == [h] {
      assert Kept(h.raw, shipped, bs, hs);
      BareHeadingIsSole(hs, h);
    }
  }

  lemma CarriedWhenKept(bs: seq<Heading>, hs: seq<Heading>, g: Grammar, x: Lexis)
    requires Released(bs, g, x) && forall v | v != "" :: Kept(v, Shipped(bs, g, x), bs, hs)
    ensures Carries(bs, hs)
  {
    forall v | HeadingsFor(bs, v) != [] ensures HeadingsFor(bs, v)[0] in hs {
      var h := HeadingsFor(bs, v)[0];
      InHeadingsFor(bs, v, h);
      assert Kept(v, Shipped(bs, g, x), bs, hs);
      InHeadingsFor(hs, v, h);
    }
  }

  lemma KeptWhenCarried(v: string, bs: seq<Heading>, hs: seq<Heading>, g: Grammar, x: Lexis)
    requires Released(bs, g, x) && SoleAndBare(hs) && Carries(bs, hs)
    ensures Kept(v, Shipped(bs, g, x), bs, hs)
  {
    if v in Shipped(bs, g, x) {
      var b :| b in bs && b.raw == v;
      InHeadingsFor(bs, v, b);
      var h := HeadingsFor(bs, v)[0];
      InHeadingsFor(bs, v, h);
      assert HeadingsFor(hs, h.raw) == [h];
    }
    if h :| h in HeadingsFor(hs, v) && h.raw == v {
      InHeadingsFor(hs, v, h);
    }
  }

  /** From a draft-free changelog that has shipped something, the two rules together leave exactly this: the
      new one is draft-free, its headings are releases spelled bare, one for each, and among them, anywhere
      and in any order, is every heading the old one resolved, unchanged. */
  lemma TwoRulesLeaveExactly(base: Text, head: Text, gb: Grammar, gh: Grammar, x: Lexis)
    requires SectionsAreH2(gb) && SectionsAreH2(gh)
    requires Drafts(base, gb, x) == [] && Shipped(Headings(base, gb), gb, x) != {}
    ensures Problems(base, head, gb, gh, x) == [] && Drafts(head, gh, x) == [] <==>
            && Drafts(head, gh, x) == []
            && SoleAndBare(Headings(head, gh))
            && Carries(Headings(base, gb), Headings(head, gh))
  {
    var bs, hs := Headings(base, gb), Headings(head, gh);
    CompareAcceptsExactly(base, head, gb, gh, x);
    DraftFreeIsReleased(base, gb, x);
    if Drafts(head, gh, x) == [] {
      DraftFreeIsReleased(head, gh, x);
      if Problems(base, head, gb, gh, x) == [] {
        SoleWhenKept(hs, Shipped(bs, gb, x), bs, gh, x);
        CarriedWhenKept(bs, hs, gb, x);
      }
      if SoleAndBare(hs) && Carries(bs, hs) {
        forall v | v != "" ensures Kept(v, Shipped(bs, gb, x), bs, hs) { KeptWhenCarried(v, bs, hs, gb, x); }
      }
    }
  }

  // ---- When it is a prepend ----

  ghost predicate IsSuffix<T(!new)>(a: seq<T>, b: seq<T>) {
    |a| <= |b| && b[|b| - |a|..] == a
  }

  function Names(hs: seq<Heading>): (names: seq<string>)
    ensures |names| == |hs|
  {
    if hs == [] then [] else Names(hs[..|hs| - 1]) + [hs[|hs| - 1].raw]
  }

  lemma {:induction false} NameAt(hs: seq<Heading>, i: nat)
    requires i < |hs|
    ensures Names(hs)[i] == hs[i].raw
  {
    if i == |hs| - 1 {
    } else {
      NameAt(hs[..|hs| - 1], i);
    }
  }

  lemma SameNameSameHeading(bs: seq<Heading>, hs: seq<Heading>, b: Heading, h: Heading)
    requires SoleAndBare(bs) && SoleAndBare(hs) && Carries(bs, hs)
    requires b in bs && h in hs && b.raw == h.raw
    ensures b == h
  {
    assert HeadingsFor(bs, b.raw) == [b];
    assert HeadingsFor(hs, b.raw) == [h];
    assert b in hs;
  }

  lemma {:induction false} NamesSlice(hs: seq<Heading>, k: nat, i: nat)
    requires k + i < |hs|
    ensures Names(hs)[k..][i] == hs[k..][i].raw
  {
    NameAt(hs, k + i);
  }

  lemma SuffixNames(bs: seq<Heading>, hs: seq<Heading>)
    requires IsSuffix(bs, hs)
    ensures IsSuffix(Names(bs), Names(hs))
  {
    var k := |hs| - |bs|;
    forall i | 0 <= i < |bs| ensures Names(hs)[k..][i] == Names(bs)[i] {
      NamesSlice(hs, k, i);
      NameAt(bs, i);
    }
  }

  lemma SuffixOfNames(bs: seq<Heading>, hs: seq<Heading>)
    requires SoleAndBare(bs) && SoleAndBare(hs) && Carries(bs, hs) && IsSuffix(Names(bs), Names(hs))
    ensures IsSuffix(bs, hs)
  {
    var k := |hs| - |bs|;
    forall i | 0 <= i < |bs| ensures hs[k..][i] == bs[i] {
      NamesSlice(hs, k, i);
      NameAt(bs, i);
      SameNameSameHeading(bs, hs, bs[i], hs[k + i]);
    }
  }

  /** Such a change is a prepend, the old headings standing unchanged at the end of the new ones, exactly when
      the versions the new changelog lists end with those the old one listed. */
  lemma PrependMeansNamesLast(bs: seq<Heading>, hs: seq<Heading>)
    requires SoleAndBare(bs) && SoleAndBare(hs) && Carries(bs, hs)
    ensures IsSuffix(bs, hs) <==> IsSuffix(Names(bs), Names(hs))
  {
    if IsSuffix(bs, hs) { SuffixNames(bs, hs); }
    if IsSuffix(Names(bs), Names(hs)) { SuffixOfNames(bs, hs); }
  }

  /** The sections of a text, one after another. */
  function Sections(hs: seq<Heading>): Text {
    if hs == [] then [] else hs[0].block + Sections(hs[1..])
  }

  function Preamble(text: Text, g: Grammar): Text {
    text[..BodyLength(text, g)]
  }

  /** Every level-2 heading is a versioned one. */
  ghost predicate OnlySections(text: Text, g: Grammar) {
    forall line | line in text && g.h2(line) :: g.section(line).Some?
  }

  lemma {:induction false} BodyLengthStops(text: Text, g: Grammar)
    ensures StartsAtH2(text[BodyLength(text, g)..], g)
  {
    if text == [] || g.h2(text[0]) {
      assert text[0..] == text;
    } else {
      BodyLengthStops(text[1..], g);
      assert text[BodyLength(text, g)..] == text[1..][BodyLength(text[1..], g)..];
    }
  }

  lemma PreambleStep(text: Text, g: Grammar)
    requires text != [] && !g.h2(text[0])
    ensures Preamble(text, g) == [text[0]] + Preamble(text[1..], g)
  {
  }

  lemma {:induction false} TextIsItsSections(text: Text, g: Grammar)
    requires SectionsAreH2(g) && OnlySections(text, g)
    ensures text == Preamble(text, g) + Sections(Headings(text, g))
    decreases |text|
  {
    if text == [] {
    } else if g.section(text[0]).None? {
      assert text[0] in text && !g.h2(text[0]);
      TextIsItsSections(text[1..], g);
      assert text == [text[0]] + text[1..];
      PreambleStep(text, g);
      Regroup([text[0]], Preamble(text[1..], g), Sections(Headings(text[1..], g)));
    } else {
      var end := 1 + BodyLength(text[1..], g);
      var rest := text[end..];
      BodyLengthStops(text[1..], g);
      assert rest == text[1..][end - 1..];
      TextIsItsSections(rest, g);
      assert Preamble(rest, g) == [];
      assert text == text[..end] + rest;
      SectionsOfFirst(text, g);
    }
  }

  lemma SectionsOfFirst(text: Text, g: Grammar)
    requires SectionsAreH2(g) && text != [] && g.section(text[0]).Some?
    ensures var end := 1 + BodyLength(text[1..], g);
            Sections(Headings(text, g)) == text[..end] + Sections(Headings(text[end..], g))
  {
    var end := 1 + BodyLength(text[1..], g);
    var raw := g.section(text[0]).value;
    var h := Heading(raw, g.fold(raw), text[..end]);
    assert Headings(text, g) == [h] + Headings(text[end..], g);
  }

  lemma BodyHasNoH2(text: Text, g: Grammar)
    ensures NoH2(text[..BodyLength(text, g)], g)
    decreases |text|
  {
    if text == [] || g.h2(text[0]) {
    } else {
      BodyHasNoH2(text[1..], g);
      assert text[..BodyLength(text, g)] == [text[0]] + text[1..][..BodyLength(text[1..], g)];
    }
  }

  lemma OneMoreSection(text: Text, g: Grammar)
    requires text != [] && g.section(text[0]).Some? && OnlySections(text[1 + BodyLength(text[1..], g)..], g)
    ensures OnlySections(text, g)
  {
    var end := 1 + BodyLength(text[1..], g);
    var body := text[1..][..end - 1];
    BodyHasNoH2(text[1..], g);
    assert text[1..] == body + text[1..][end - 1..];
    assert text == [text[0]] + text[1..] && text[1..][end - 1..] == text[end..];
  }

  /** Preamble and sections are never longer than the text, and as long only when every level-2 heading in it
      heads a section: the lines under any other are in neither. */
  lemma {:induction false} SectionsMeasure(text: Text, g: Grammar)
    requires SectionsAreH2(g)
    ensures |Preamble(text, g)| + |Sections(Headings(text, g))| <= |text|
    ensures |Preamble(text, g)| + |Sections(Headings(text, g))| == |text| ==> OnlySections(text, g)
    decreases |text|
  {
    if text == [] {
    } else if g.section(text[0]).None? {
      SectionsMeasure(text[1..], g);
      assert text == [text[0]] + text[1..];
      if !g.h2(text[0]) { PreambleStep(text, g); }
    } else {
      var end := 1 + BodyLength(text[1..], g);
      SectionsMeasure(text[end..], g);
      SectionsOfFirst(text, g);
      if OnlySections(text[end..], g) { OneMoreSection(text, g); }
    }
  }

  /** A text is wholly its preamble and its sections, the parts the two rules speak of, exactly when every
      level-2 heading in it is a versioned one. */
  lemma CoveredExactly(text: Text, g: Grammar)
    requires SectionsAreH2(g)
    ensures text == Preamble(text, g) + Sections(Headings(text, g)) <==> OnlySections(text, g)
  {
    SectionsMeasure(text, g);
    if OnlySections(text, g) { TextIsItsSections(text, g); }
  }

  lemma {:induction false} SectionsJoin(a: seq<Heading>, b: seq<Heading>)
    ensures Sections(a + b) == Sections(a) + Sections(b)
  {
    if a == [] {
      assert a + b == b;
    } else {
      assert (a + b)[1..] == a[1..] + b;
      SectionsJoin(a[1..], b);
      Regroup(a[0].block, Sections(a[1..]), Sections(b));
    }
  }

  /** In the text: a prepend leaves everything from the first old section on as it was, below the new
      sections. (The lines above the first section are under no rule.) */
  lemma PrependInText(base: Text, head: Text, gb: Grammar, gh: Grammar)
    requires SectionsAreH2(gb) && SectionsAreH2(gh) && OnlySections(base, gb) && OnlySections(head, gh)
    requires IsSuffix(Headings(base, gb), Headings(head, gh))
    ensures var bs, hs := Headings(base, gb), Headings(head, gh);
            && base == Preamble(base, gb) + Sections(bs)
            && head == Preamble(head, gh) + (Sections(hs[..|hs| - |bs|]) + Sections(bs))
  {
    var bs, hs := Headings(base, gb), Headings(head, gh);
    TextIsItsSections(base, gb);
    TextIsItsSections(head, gh);
    assert hs == hs[..|hs| - |bs|] + bs;
    SectionsJoin(hs[..|hs| - |bs|], bs);
  }

  // ---- What the two rules do not see ----

  lemma SameHeadingsAreAccepted(base: Text, head: Text, g: Grammar, x: Lexis)
    requires Headings(base, g) == Headings(head, g)
    requires OneHeadingPerRelease(Headings(base, g)) && Shipped(Headings(base, g), g, x) != {}
    ensures Problems(base, head, g, g, x) == []
  {
    var hs := Headings(base, g);
    CompareAcceptsExactly(base, head, g, g, x);
    forall v | v != "" ensures Kept(v, Shipped(hs, g, x), hs, hs) {
      if v in Shipped(hs, g, x) { SoleHeadingIsBare(v, base, g, x); }
      assert |HeadingsFor(hs, v)| <= 1;
    }
  }

  /** A level-2 heading that is no version but whose words pass for one, with the lines below it. */
  ghost predicate IsStray(stray: Text, g: Grammar, x: Lexis) {
    && stray != [] && g.h2(stray[0]) && g.section(stray[0]).None? && NoH2(stray[1..], g)
    && IsShipped(x.title(stray[0]), g, x)
  }

  lemma OnlyFirstIsH2(block: Text, g: Grammar)
    requires block != [] && NoH2(block[1..], g)
    ensures forall i | 0 < i < |block| :: !g.h2(block[i])
  {
    forall i | 0 < i < |block| ensures !g.h2(block[i]) {
      assert block[i] == block[1..][i - 1];
    }
  }

  lemma StrayIsInvisible(stray: Text, g: Grammar, x: Lexis)
    requires IsStray(stray, g, x) && SectionsAreH2(g)
    ensures Headings(stray, g) == [] && Drafts(stray, g, x) == []
  {
    assert stray == [stray[0]] + stray[1..];
    forall line | line in stray ensures g.section(line).None? {
      if line != stray[0] { assert line in stray[1..]; }
    }
    NoSectionsNoHeadings(stray, g);
    OnlyFirstIsH2(stray, g);
    NoDraftsMeansAllShipped(stray, g, x);
  }

  lemma HeadinglessPart(pre: Text, part: Text, rest: Text, g: Grammar)
    requires Headings(part, g) == [] && part != [] && StartsAtH2(part, g) && StartsAtH2(rest, g)
    ensures Headings(pre + (part + rest), g) == Headings(pre + rest, g)
  {
    assert (part + rest)[0] == part[0];
    HeadingsJoin(pre, rest, g);
    HeadingsJoin(part, rest, g);
    HeadingsJoin(pre, part + rest, g);
  }

  lemma DraftlessPart(pre: Text, part: Text, rest: Text, g: Grammar, x: Lexis)
    requires Drafts(part, g, x) == []
    ensures Drafts(pre + (part + rest), g, x) == Drafts(pre + rest, g, x)
  {
    DraftsJoin(pre, part + rest, g, x);
    DraftsJoin(part, rest, g, x);
    DraftsJoin(pre, rest, g, x);
  }

  /** Such a part is neither a draft nor protected: both rules let it be added to a changelog, and be removed
      from it again, at any section boundary. */
  lemma StrayHeadingIsUnprotected(pre: Text, stray: Text, rest: Text, g: Grammar, x: Lexis)
    requires SectionsAreH2(g) && IsStray(stray, g, x) && StartsAtH2(rest, g)
    requires var bs := Headings(pre + rest, g); OneHeadingPerRelease(bs) && Shipped(bs, g, x) != {}
    ensures var without, with_ := pre + rest, pre + (stray + rest);
            && Problems(without, with_, g, g, x) == [] && Problems(with_, without, g, g, x) == []
            && Drafts(with_, g, x) == Drafts(without, g, x)
  {
    var without, with_ := pre + rest, pre + (stray + rest);
    StrayIsInvisible(stray, g, x);
    HeadinglessPart(pre, stray, rest, g);
    DraftlessPart(pre, stray, rest, g, x);
    SameHeadingsAreAccepted(without, with_, g, x);
    SameHeadingsAreAccepted(with_, without, g, x);
  }

  lemma BlockHasNoDraft(block: Text, g: Grammar, x: Lexis)
    requires IsBlock(block, g) && IsShipped(BlockHeading(block, g).raw, g, x)
    ensures Drafts(block, g, x) == []
  {
    OnlyFirstIsH2(block, g);
    NoDraftsMeansAllShipped(block, g, x);
  }

  /** A base that ships nothing, and has no bracketed heading, accepts any head: even one that introduces a
      release twice, with two accounts of it. */
  lemma FirstReleaseMayRepeat(base: Text, a: Text, b: Text, g: Grammar, x: Lexis)
    requires Shipped(Headings(base, g), g, x) == {} && !x.anyBracketH2(base)
    requires SectionsAreH2(g) && IsBlock(a, g) && IsBlock(b, g)
    requires var v := BlockHeading(a, g).raw; v == BlockHeading(b, g).raw && IsShipped(v, g, x)
    ensures Problems(base, a + b, g, g, x) == [] && Drafts(a + b, g, x) == []
    ensures HeadingsFor(Headings(a + b, g), BlockHeading(a, g).raw) == [BlockHeading(a, g), BlockHeading(b, g)]
  {
    var ha, hb := BlockHeading(a, g), BlockHeading(b, g);
    BlockHasNoDraft(a, g, x);
    BlockHasNoDraft(b, g, x);
    DraftsJoin(a, b, g, x);
    HeadingsOfBlock(a, b, g);
    assert b + [] == b;
    HeadingsOfBlock(b, [], g);
    var hs := [ha] + ([hb] + []);
    assert Headings(a + b, g) == hs;
    assert hs[1..] == [hb] && [hb][1..] == [];
    assert HeadingsFor([hb], ha.raw) == [hb] + HeadingsFor([], ha.raw);
  }
}
