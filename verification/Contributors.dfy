/** Adding authors to the contributor block of a README without touching what is there. */
module Contributors {
  import opened Wrappers
  import opened StringOrder
  import opened LineText
  import opened Sequences
  import opened ContributorEntry

  datatype Error = NoBlock | NotContiguous

  /** The patterns the script matches with, and how it prints a record: the login of an entry line, the
      logins that are valid, the folding of case, the folded logins of the profile links on a line. */
  datatype Grammar = Grammar(entryLogin: string -> Option<string>, valid: string -> bool,
                             fold: string -> string, credits: string -> set<string>,
                             entry: Record -> string)
  {
    predicate IsEntry(line: string) { entryLogin(line).Some? }

    function Key(r: Record): string { fold(r.login) }

    /** The line is an entry whose login comes after the key. */
    predicate After(line: string, key: string) {
      entryLogin(line).Some? && !Le(fold(entryLogin(line).value), key)
    }

    /** The line is an entry for a valid login that folds to the key. */
    predicate Enters(line: string, key: string) {
      && entryLogin(line).Some? && valid(entryLogin(line).value) && fold(entryLogin(line).value) == key
    }
  }

  /** The patterns agree with each other: an entry printed for a valid login is an entry line for it, an
      entry line for a valid login links its profile, and an empty line is no entry and credits nobody. */
  ghost predicate Coherent(g: Grammar) {
    && (forall r: Record | g.valid(r.login) :: g.entryLogin(g.entry(r)) == Some(r.login))
    && (forall line, key | g.Enters(line, key) :: key in g.credits(line))
    && !g.IsEntry("") && g.credits("") == {}
  }

  // ---- The block ----

  ghost predicate IsBlock(lines: seq<string>, start: int, end: int, g: Grammar) {
    && 0 <= start < end <= |lines|
    && forall i | 0 <= i < |lines| :: g.IsEntry(lines[i]) <==> start <= i < end
  }

  /** _find_block: the one run that holds all the entries, or the reason there is none. */
  method FindBlock(lines: seq<string>, g: Grammar) returns (r: Result<(nat, nat), Error>)
    ensures r == Block(lines, g)
  {
    var start, end := -1, -1;
    for i := 0 to |lines|
      invariant start == FirstEntry(lines[..i], g) && end == EndOfEntries(lines[..i], g)
    {
      assert lines[..i + 1][..i] == lines[..i];
      if g.IsEntry(lines[i]) {
        if start == -1 {
          start := i;
        }
        end := i + 1;
      }
    }
    assert lines[..|lines|] == lines;
    EntriesLieBetween(lines, g);
    if start == -1 {
      return Err(NoBlock);
    }
    for i := start to end
      invariant AllEntries(lines[start..i], g)
    {
      assert lines[start..i + 1] == lines[start..i] + [lines[i]];
      if !g.IsEntry(lines[i]) {
        assert lines[start..end][i - start] == lines[i];
        return Err(NotContiguous);
      }
    }
    return Ok((start, end));
  }

  function FirstEntry(lines: seq<string>, g: Grammar): int {
    if lines == [] then -1
    else
      var before := FirstEntry(lines[..|lines| - 1], g);
      if before == -1 && g.IsEntry(lines[|lines| - 1]) then |lines| - 1 else before
  }

  function EndOfEntries(lines: seq<string>, g: Grammar): int {
    if lines == [] then -1
    else if g.IsEntry(lines[|lines| - 1]) then |lines|
    else EndOfEntries(lines[..|lines| - 1], g)
  }

  predicate AllEntries(lines: seq<string>, g: Grammar) {
    forall i | 0 <= i < |lines| :: g.IsEntry(lines[i])
  }

  lemma {:induction false} EntriesLieBetween(lines: seq<string>, g: Grammar)
    ensures var start, end := FirstEntry(lines, g), EndOfEntries(lines, g);
            && (start == -1 <==> end == -1)
            && (start != -1 ==> 0 <= start < end <= |lines| && g.IsEntry(lines[start]) && g.IsEntry(lines[end - 1]))
            && (forall i | 0 <= i < |lines| && g.IsEntry(lines[i]) :: start <= i < end)
  {
    if lines == [] {
    } else {
      EntriesLieBetween(lines[..|lines| - 1], g);
    }
  }

  function Block(lines: seq<string>, g: Grammar): Result<(nat, nat), Error> {
    var start, end := FirstEntry(lines, g), EndOfEntries(lines, g);
    EntriesLieBetween(lines, g);
    if start == -1 then Err(NoBlock)
    else if AllEntries(lines[start..end], g) then Ok((start, end))
    else Err(NotContiguous)
  }

  lemma BlockIsFound(lines: seq<string>, g: Grammar, start: nat, end: nat)
    requires IsBlock(lines, start, end, g)
    ensures Block(lines, g) == Ok((start, end))
  {
    EntriesLieBetween(lines, g);
    assert g.IsEntry(lines[start]) && g.IsEntry(lines[end - 1]);
  }

  /** A block is found exactly when the entries are one contiguous run, and it is that run; otherwise the
      error says whether there are none or there is a gap. */
  lemma BlockIsExact(lines: seq<string>, g: Grammar, start: nat, end: nat)
    ensures Block(lines, g) == Ok((start, end)) <==> IsBlock(lines, start, end, g)
    ensures Block(lines, g) == Err(NoBlock) <==> forall i | 0 <= i < |lines| :: !g.IsEntry(lines[i])
  {
    EntriesLieBetween(lines, g);
    if IsBlock(lines, start, end, g) {
      BlockIsFound(lines, g, start, end);
    } else if Block(lines, g).Ok? {
      var (s, e) := Block(lines, g).value;
      forall i | s <= i < e ensures g.IsEntry(lines[i]) {
        assert lines[s..e][i - s] == lines[i];
      }
    }
  }

  // ---- Who is new ----

  function Keys(rs: seq<Record>, g: Grammar): set<string> {
    set r | r in rs :: g.Key(r)
  }

  function Logins(rs: seq<Record>): set<string> {
    set r | r in rs :: r.login
  }

  predicate IsNovel(r: Record, before: seq<Record>, taken: set<string>, g: Grammar) {
    g.valid(r.login) && g.Key(r) !in taken && g.Key(r) !in Keys(before, g)
  }

  /** The first record of each valid login, by key, that is not taken. */
  function Novel(records: seq<Record>, taken: set<string>, g: Grammar): seq<Record> {
    if records == [] then []
    else
      var before, r := Novel(records[..|records| - 1], taken, g), records[|records| - 1];
      if IsNovel(r, before, taken, g) then before + [r] else before
  }

  lemma NovelOneMore(records: seq<Record>, r: Record, taken: set<string>, g: Grammar)
    ensures var before := Novel(records, taken, g);
            Novel(records + [r], taken, g) == if IsNovel(r, before, taken, g) then before + [r] else before
  {
    assert (records + [r])[..|records|] == records;
  }

  lemma KeysOneMore(rs: seq<Record>, r: Record, g: Grammar)
    ensures Keys(rs + [r], g) == Keys(rs, g) + {g.Key(r)}
    ensures Logins(rs + [r]) == Logins(rs) + {r.login}
  {
    assert forall x :: x in rs + [r] <==> x in rs || x == r;
    assert r in rs + [r];
  }

  lemma {:induction false} NovelAre(records: seq<Record>, taken: set<string>, g: Grammar, x: Record)
    requires x in Novel(records, taken, g)
    ensures x in records && g.valid(x.login) && g.Key(x) !in taken
  {
    var before, r := Novel(records[..|records| - 1], taken, g), records[|records| - 1];
    if x in before { NovelAre(records[..|records| - 1], taken, g, x); }
  }

  lemma {:induction false} NovelKeysDiffer(records: seq<Record>, taken: set<string>, g: Grammar, x: Record, y: Record)
    requires x in Novel(records, taken, g) && y in Novel(records, taken, g) && g.Key(x) == g.Key(y)
    ensures x == y
  {
    var before := Novel(records[..|records| - 1], taken, g);
    if x in before && y in before { NovelKeysDiffer(records[..|records| - 1], taken, g, x, y); }
  }

  lemma {:induction false} NovelOnlyGrows(records: seq<Record>, i: nat, taken: set<string>, g: Grammar, x: Record)
    requires i <= |records| && x in Novel(records[..i], taken, g)
    ensures x in Novel(records, taken, g)
  {
    if i == |records| {
      assert records[..i] == records;
    } else {
      assert records[..|records| - 1][..i] == records[..i];
      NovelOnlyGrows(records[..|records| - 1], i, taken, g, x);
    }
  }

  /** Every valid login in the batch is taken, or is new under some spelling. */
  lemma {:induction false} NovelCoverAll(records: seq<Record>, taken: set<string>, g: Grammar, r: Record)
    requires r in records && g.valid(r.login)
    ensures g.Key(r) in taken || g.Key(r) in Keys(Novel(records, taken, g), g)
  {
    var front, last := records[..|records| - 1], records[|records| - 1];
    var before := Novel(front, taken, g);
    assert records == front + [last];
    KeysOneMore(before, last, g);
    if r in front { NovelCoverAll(front, taken, g, r); }
  }

  /** records[i] is the first of its valid login, by key, and not taken. */
  predicate IsFirst(records: seq<Record>, i: nat, taken: set<string>, g: Grammar)
    requires i < |records|
  {
    && g.valid(records[i].login) && g.Key(records[i]) !in taken
    && forall j | 0 <= j < i :: !(g.valid(records[j].login) && g.Key(records[j]) == g.Key(records[i]))
  }

  function FirstsFrom(records: seq<Record>, i: nat, taken: set<string>, g: Grammar): seq<Record>
    requires i <= |records|
    decreases |records| - i
  {
    if i == |records| then []
    else (if IsFirst(records, i, taken, g) then [records[i]] else []) + FirstsFrom(records, i + 1, taken, g)
  }

  lemma NovelIsFirst(records: seq<Record>, i: nat, taken: set<string>, g: Grammar)
    requires i < |records|
    ensures IsNovel(records[i], Novel(records[..i], taken, g), taken, g) <==> IsFirst(records, i, taken, g)
  {
    var before := Novel(records[..i], taken, g);
    forall j | 0 <= j < i && g.valid(records[j].login) && g.Key(records[j]) !in taken
      ensures g.Key(records[j]) in Keys(before, g)
    {
      assert records[..i][j] == records[j];
      NovelCoverAll(records[..i], taken, g, records[j]);
    }
    if g.Key(records[i]) in Keys(before, g) {
      var x :| x in before && g.Key(x) == g.Key(records[i]);
      NovelAre(records[..i], taken, g, x);
    }
  }

  lemma {:induction false} NovelThenFirsts(records: seq<Record>, i: nat, taken: set<string>, g: Grammar)
    requires i <= |records|
    ensures Novel(records, taken, g) == Novel(records[..i], taken, g) + FirstsFrom(records, i, taken, g)
    decreases |records| - i
  {
    if i == |records| {
      assert records[..i] == records;
    } else {
      NovelThenFirsts(records, i + 1, taken, g);
      assert records[..i + 1] == records[..i] + [records[i]];
      NovelOneMore(records[..i], records[i], taken, g);
      NovelIsFirst(records, i, taken, g);
      Regroup(Novel(records[..i], taken, g), [records[i]], FirstsFrom(records, i + 1, taken, g));
    }
  }

  /** Whom the first pass chooses: of each login that is valid and not taken its first record, in the order of
      the batch. */
  lemma NovelAreFirsts(records: seq<Record>, taken: set<string>, g: Grammar)
    ensures Novel(records, taken, g) == FirstsFrom(records, 0, taken, g)
  {
    NovelThenFirsts(records, 0, taken, g);
    assert Novel(records[..0], taken, g) == [];
  }

  /** The second pass over the batch, which inserts a record when its login is still pending, meets exactly
      the records the first pass chose. */
  lemma PendingMeansNovel(records: seq<Record>, i: nat, taken: set<string>, g: Grammar)
    requires i < |records|
    ensures records[i].login in Logins(Novel(records, taken, g)) - Logins(Novel(records[..i], taken, g)) <==>
            IsNovel(records[i], Novel(records[..i], taken, g), taken, g)
  {
    var r, before, all := records[i], Novel(records[..i], taken, g), Novel(records, taken, g);
    if IsNovel(r, before, taken, g) {
      assert records[..i + 1] == records[..i] + [r];
      NovelOneMore(records[..i], r, taken, g);
      assert r in before + [r];
      NovelOnlyGrows(records, i + 1, taken, g, r);
    } else if r.login in Logins(all) && r.login !in Logins(before) {
      var x :| x in all && x.login == r.login;
      NovelAre(records, taken, g, x);
      var y :| y in before && g.Key(y) == g.Key(r);
      NovelOnlyGrows(records, i, taken, g, y);
      NovelKeysDiffer(records, taken, g, x, y);
    }
  }

  // ---- Inserting ----

  /** Where a key goes: before the first entry after it, or at the end. */
  function Position(block: seq<string>, key: string, g: Grammar): (p: nat)
    ensures p <= |block|
  {
    if block == [] || g.After(block[0], key) then 0 else 1 + Position(block[1..], key, g)
  }

  lemma {:induction false} PositionIs(block: seq<string>, key: string, g: Grammar, p: nat)
    requires p <= |block| && forall j | 0 <= j < p :: !g.After(block[j], key)
    requires p < |block| ==> g.After(block[p], key)
    ensures Position(block, key, g) == p
  {
    if p == 0 {
    } else {
      assert forall j | 0 <= j < p - 1 :: block[1..][j] == block[j + 1];
      PositionIs(block[1..], key, g, p - 1);
    }
  }

  lemma {:induction false} PositionStops(block: seq<string>, key: string, g: Grammar)
    ensures var p := Position(block, key, g);
            && (p < |block| ==> g.After(block[p], key))
            && forall j | 0 <= j < p :: !g.After(block[j], key)
  {
    if block != [] && !g.After(block[0], key) {
      PositionStops(block[1..], key, g);
      forall j | 0 <= j < Position(block, key, g) ensures !g.After(block[j], key) {
        if j > 0 { assert block[j] == block[1..][j - 1]; }
      }
    }
  }

  ghost predicate SomeAfter(block: seq<string>, key: string, g: Grammar) {
    exists line | line in block :: g.After(line, key)
  }

  /** An entry is appended exactly when no entry of the block comes after it; sorted or not, it is otherwise
      put before the first that does. */
  lemma AppendedExactly(block: seq<string>, key: string, g: Grammar)
    ensures Position(block, key, g) == |block| <==> !SomeAfter(block, key, g)
  {
    PositionStops(block, key, g);
    if Position(block, key, g) < |block| {
      assert block[Position(block, key, g)] in block;
    }
  }

  function Insert(block: seq<string>, r: Record, g: Grammar): seq<string> {
    var p := Position(block, g.Key(r), g);
    block[..p] + ([g.entry(r)] + block[p..])
  }

  function InsertAll(block: seq<string>, rs: seq<Record>, g: Grammar): seq<string> {
    if rs == [] then block else Insert(InsertAll(block, rs[..|rs| - 1], g), rs[|rs| - 1], g)
  }

  lemma InsertAllOneMore(block: seq<string>, rs: seq<Record>, r: Record, g: Grammar)
    ensures InsertAll(block, rs + [r], g) == Insert(InsertAll(block, rs, g), r, g)
  {
    assert (rs + [r])[..|rs|] == rs;
  }

  /** The search for the position of one entry, and its insertion. */
  method InsertEntry(block: seq<string>, r: Record, g: Grammar) returns (new_: seq<string>)
    ensures new_ == Insert(block, r, g)
  {
    var pos := |block|;
    for i := 0 to |block|
      invariant pos == |block|
      invariant forall j | 0 <= j < i :: !g.After(block[j], g.Key(r))
    {
      if g.After(block[i], g.Key(r)) {
        pos := i;
        break;
      }
    }
    PositionIs(block, g.Key(r), g, pos);
    new_ := block[..pos] + ([g.entry(r)] + block[pos..]);
  }

  function Spellings(rs: seq<Record>): seq<string> {
    if rs == [] then [] else Spellings(rs[..|rs| - 1]) + [rs[|rs| - 1].login]
  }

  /** The first pass: who is new, in order. */
  method ChooseNew(records: seq<Record>, taken: set<string>, g: Grammar) returns (added: seq<string>)
    ensures added == Spellings(Novel(records, taken, g))
  {
    var seen: set<string> := {};
    added := [];
    for i := 0 to |records|
      invariant added == Spellings(Novel(records[..i], taken, g))
      invariant seen == Keys(Novel(records[..i], taken, g), g)
    {
      var r, before := records[i], Novel(records[..i], taken, g);
      assert records[..i + 1] == records[..i] + [r];
      NovelOneMore(records[..i], r, taken, g);
      KeysOneMore(before, r, g);
      assert (before + [r])[..|before|] == before;
      if !g.valid(r.login) {
        continue;
      }
      if g.Key(r) in taken || g.Key(r) in seen {
        continue;
      }
      seen := seen + {g.Key(r)};
      added := added + [r.login];
    }
    assert records[..|records|] == records;
  }

  lemma PendingStep(block: seq<string>, records: seq<Record>, i: nat, taken: set<string>, g: Grammar)
    requires i < |records|
    ensures var r, all := records[i], Logins(Novel(records, taken, g));
            var before, next := Novel(records[..i], taken, g), Novel(records[..i + 1], taken, g);
            if r.login in all - Logins(before)
            then Logins(next) == Logins(before) + {r.login}
                 && InsertAll(block, next, g) == Insert(InsertAll(block, before, g), r, g)
            else next == before
  {
    var r, before := records[i], Novel(records[..i], taken, g);
    assert records[..i + 1] == records[..i] + [r];
    NovelOneMore(records[..i], r, taken, g);
    KeysOneMore(before, r, g);
    PendingMeansNovel(records, i, taken, g);
    InsertAllOneMore(block, before, r, g);
  }

  /** The second pass: insert each pending login once. */
  method InsertPending(block: seq<string>, records: seq<Record>, added: seq<string>, taken: set<string>, g: Grammar)
    returns (newBlock: seq<string>)
    requires added == Spellings(Novel(records, taken, g))
    ensures newBlock == InsertAll(block, Novel(records, taken, g), g)
  {
    SpellingsAreLogins(Novel(records, taken, g));
    var pending := set login | login in added;
    newBlock := block;
    for i := 0 to |records|
      invariant pending == Logins(Novel(records, taken, g)) - Logins(Novel(records[..i], taken, g))
      invariant newBlock == InsertAll(block, Novel(records[..i], taken, g), g)
    {
      var r := records[i];
      PendingStep(block, records, i, taken, g);
      if r.login !in pending {
        continue;
      }
      pending := pending - {r.login};
      newBlock := InsertEntry(newBlock, r, g);
    }
    assert records[..|records|] == records;
  }

  lemma {:induction false} SpellingsAreLogins(rs: seq<Record>)
    ensures (set login | login in Spellings(rs)) == Logins(rs)
  {
    if rs == [] {
    } else {
      var front, r := rs[..|rs| - 1], rs[|rs| - 1];
      assert rs == front + [r];
      SpellingsAreLogins(front);
      assert Logins(rs) == Logins(front) + {r.login} by {
        assert forall x :: x in rs <==> x in front || x == r;
      }
      assert forall x :: x in Spellings(rs) <==> x in Spellings(front) || x == r.login;
    }
  }

  // ---- What insertion keeps ----

  lemma {:induction false} InsertAllLength(block: seq<string>, rs: seq<Record>, g: Grammar)
    ensures |InsertAll(block, rs, g)| == |block| + |rs|
  {
    if rs == [] {
    } else {
      InsertAllLength(block, rs[..|rs| - 1], g);
    }
  }

  lemma {:induction false} InsertAllKeepsEntries(block: seq<string>, rs: seq<Record>, g: Grammar)
    requires Coherent(g) && AllEntries(block, g) && forall r | r in rs :: g.valid(r.login)
    ensures AllEntries(InsertAll(block, rs, g), g)
  {
    if rs == [] {
    } else {
      var front, r := rs[..|rs| - 1], rs[|rs| - 1];
      assert rs == front + [r];
      InsertAllKeepsEntries(block, front, g);
      assert g.IsEntry(g.entry(r));
    }
  }

  lemma RegroupInner(a: seq<string>, b: seq<string>, c: seq<string>, d: seq<string>)
    ensures a + ((b + c) + d) == (a + b) + (c + d)
  {
  }

  lemma InsertKeepsLines(lines: seq<string>, pre: seq<string>, block: seq<string>, post: seq<string>,
                         r: Record, g: Grammar)
    requires Subsequence(lines, pre + (block + post))
    ensures Subsequence(lines, pre + (Insert(block, r, g) + post))
  {
    var p := Position(block, g.Key(r), g);
    var a, b, x := block[..p], block[p..], [g.entry(r)];
    assert block == a + b;
    RegroupInner(pre, a, b, post);
    SubsequenceAfterInsert(lines, pre + a, g.entry(r), b + post);
    RegroupInner(pre, a, x + b, post);
    assert (x + b) + post == x + (b + post);
  }

  /** Every line there was is kept, in order, in the file around the block as well. */
  lemma {:induction false} InsertAllKeepsLines(pre: seq<string>, block: seq<string>, post: seq<string>,
                                               rs: seq<Record>, g: Grammar)
    ensures Subsequence(pre + (block + post), pre + (InsertAll(block, rs, g) + post))
  {
    var lines := pre + (block + post);
    if rs == [] {
      SubsequenceOfItself(lines);
    } else {
      InsertAllKeepsLines(pre, block, post, rs[..|rs| - 1], g);
      InsertKeepsLines(lines, pre, InsertAll(block, rs[..|rs| - 1], g), post, rs[|rs| - 1], g);
    }
  }

  /** Lines that enter a login with this key. */
  function Count(lines: seq<string>, key: string, g: Grammar): nat {
    if lines == [] then 0
    else Count(lines[..|lines| - 1], key, g) + if g.Enters(lines[|lines| - 1], key) then 1 else 0
  }

  lemma {:induction false} CountJoin(a: seq<string>, b: seq<string>, key: string, g: Grammar)
    ensures Count(a + b, key, g) == Count(a, key, g) + Count(b, key, g)
  {
    if b == [] {
      assert a + b == a;
    } else {
      assert (a + b)[..|a + b| - 1] == a + b[..|b| - 1];
      CountJoin(a, b[..|b| - 1], key, g);
    }
  }

  lemma CountInsert(block: seq<string>, r: Record, key: string, g: Grammar)
    requires Coherent(g) && g.valid(r.login)
    ensures Count(Insert(block, r, g), key, g) == Count(block, key, g) + if g.Key(r) == key then 1 else 0
  {
    var p := Position(block, g.Key(r), g);
    CountJoin(block[..p], [g.entry(r)] + block[p..], key, g);
    CountJoin([g.entry(r)], block[p..], key, g);
    CountJoin(block[..p], block[p..], key, g);
    assert block == block[..p] + block[p..];
    assert Count([g.entry(r)], key, g) == if g.Key(r) == key then 1 else 0;
  }

  lemma CountInsertNovel(block: seq<string>, before: seq<Record>, r: Record, key: string, g: Grammar)
    requires Coherent(g) && g.valid(r.login) && g.Key(r) !in Keys(before, g)
    requires Count(InsertAll(block, before, g), key, g) == Count(block, key, g) + if key in Keys(before, g) then 1 else 0
    ensures Count(InsertAll(block, before + [r], g), key, g) ==
            Count(block, key, g) + if key in Keys(before + [r], g) then 1 else 0
  {
    InsertAllOneMore(block, before, r, g);
    KeysOneMore(before, r, g);
    CountInsert(InsertAll(block, before, g), r, key, g);
  }

  lemma {:induction false} CountInsertAll(block: seq<string>, records: seq<Record>, taken: set<string>,
                                          key: string, g: Grammar)
    requires Coherent(g)
    ensures var rs := Novel(records, taken, g);
            Count(InsertAll(block, rs, g), key, g) == Count(block, key, g) + if key in Keys(rs, g) then 1 else 0
  {
    if records == [] {
    } else {
      var front, r := records[..|records| - 1], records[|records| - 1];
      var before := Novel(front, taken, g);
      CountInsertAll(block, front, taken, key, g);
      if IsNovel(r, before, taken, g) { CountInsertNovel(block, before, r, key, g); }
    }
  }

  // ---- Order ----

  /** The folded logins of the entries. */
  function Order(block: seq<string>, g: Grammar): (keys: seq<string>)
    requires AllEntries(block, g)
    ensures |keys| == |block|
  {
    if block == [] then []
    else
      assert AllEntries(block[..|block| - 1], g);
      Order(block[..|block| - 1], g) + [g.fold(g.entryLogin(block[|block| - 1]).value)]
  }

  lemma {:induction false} OrderAt(block: seq<string>, g: Grammar, i: nat)
    requires AllEntries(block, g) && i < |block|
    ensures Order(block, g)[i] == g.fold(g.entryLogin(block[i]).value)
  {
    if i >= |block| - 1 {
    } else {
      OrderAt(block[..|block| - 1], g, i);
    }
  }

  ghost predicate NonDescending(keys: seq<string>) {
    forall i, j | 0 <= i < j < |keys| :: Le(keys[i], keys[j])
  }

  lemma NonDescendingInsert(keys: seq<string>, p: nat, key: string)
    requires NonDescending(keys) && p <= |keys|
    requires forall j | 0 <= j < p :: Le(keys[j], key)
    requires p < |keys| ==> Le(key, keys[p])
    ensures NonDescending(keys[..p] + ([key] + keys[p..]))
  {
    forall j | p <= j < |keys| ensures Le(key, keys[j]) {
      if p < j { LeTransitive(key, keys[p], keys[j]); }
    }
  }

  lemma OrderOneMore(block: seq<string>, x: string, g: Grammar)
    requires AllEntries(block, g) && g.IsEntry(x)
    ensures AllEntries(block + [x], g) && Order(block + [x], g) == Order(block, g) + [g.fold(g.entryLogin(x).value)]
  {
    assert (block + [x])[..|block|] == block;
  }

  lemma {:induction false} OrderJoin(a: seq<string>, b: seq<string>, g: Grammar)
    requires AllEntries(a, g) && AllEntries(b, g)
    ensures AllEntries(a + b, g) && Order(a + b, g) == Order(a, g) + Order(b, g)
  {
    if b == [] {
      assert a + b == a;
    } else {
      var front, last := b[..|b| - 1], b[|b| - 1];
      OrderJoin(a, front, g);
      OrderOneMore(a + front, last, g);
      OrderOneMore(front, last, g);
      assert b == front + [last];
      assert a + b == (a + front) + [last];
    }
  }

  lemma OrderOfOne(x: string, g: Grammar)
    requires g.IsEntry(x)
    ensures AllEntries([x], g) && Order([x], g) == [g.fold(g.entryLogin(x).value)]
  {
    assert [x][..0] == [];
    assert Order([x], g) == Order([], g) + [g.fold(g.entryLogin(x).value)];
  }

  lemma OrderOfInsert(a: seq<string>, x: string, b: seq<string>, g: Grammar)
    requires AllEntries(a + b, g) && g.IsEntry(x)
    ensures AllEntries(a + ([x] + b), g)
    ensures Order(a + ([x] + b), g) ==
            Order(a + b, g)[..|a|] + ([g.fold(g.entryLogin(x).value)] + Order(a + b, g)[|a|..])
  {
    PartsAreEntries(a, b, g);
    OrderOfOne(x, g);
    OrderJoin(a, b, g);
    OrderJoin([x], b, g);
    OrderJoin(a, [x] + b, g);
  }

  lemma PartsAreEntries(a: seq<string>, b: seq<string>, g: Grammar)
    requires AllEntries(a + b, g)
    ensures AllEntries(a, g) && AllEntries(b, g)
  {
    forall i | 0 <= i < |a| ensures g.IsEntry(a[i]) { assert (a + b)[i] == a[i]; }
    forall i | 0 <= i < |b| ensures g.IsEntry(b[i]) { assert (a + b)[|a| + i] == b[i]; }
  }

  /** An entry takes its place in the order. */
  lemma InsertOrder(block: seq<string>, r: Record, g: Grammar)
    requires Coherent(g) && g.valid(r.login) && AllEntries(block, g)
    ensures AllEntries(Insert(block, r, g), g)
    ensures var p := Position(block, g.Key(r), g);
            Order(Insert(block, r, g), g) == Order(block, g)[..p] + ([g.Key(r)] + Order(block, g)[p..])
  {
    var p := Position(block, g.Key(r), g);
    assert block == block[..p] + block[p..];
    assert g.entryLogin(g.entry(r)) == Some(r.login);
    OrderOfInsert(block[..p], g.entry(r), block[p..], g);
  }

  /** A block sorted by folded login stays sorted, whatever the batch. */
  lemma {:induction false} InsertAllKeepsOrder(block: seq<string>, rs: seq<Record>, g: Grammar)
    requires Coherent(g) && AllEntries(block, g) && forall r | r in rs :: g.valid(r.login)
    requires NonDescending(Order(block, g))
    ensures AllEntries(InsertAll(block, rs, g), g) && NonDescending(Order(InsertAll(block, rs, g), g))
  {
    if rs == [] {
    } else {
      var front, r := rs[..|rs| - 1], rs[|rs| - 1];
      assert rs == front + [r];
      InsertAllKeepsOrder(block, front, g);
      var before := InsertAll(block, front, g);
      InsertOrder(before, r, g);
      var p, key := Position(before, g.Key(r), g), g.Key(r);
      PositionStops(before, key, g);
      forall j | 0 <= j < p ensures Le(Order(before, g)[j], key) { OrderAt(before, g, j); }
      if p < |before| {
        OrderAt(before, g, p);
        LeTotal(key, Order(before, g)[p]);
      }
      NonDescendingInsert(Order(before, g), p, key);
    }
  }

  // ---- The whole file ----

  /** Everybody with a profile link somewhere in the lines. */
  function Credits(lines: seq<string>, g: Grammar): set<string> {
    if lines == [] then {} else Credits(lines[..|lines| - 1], g) + g.credits(lines[|lines| - 1])
  }

  lemma {:induction false} CreditsAre(lines: seq<string>, g: Grammar, key: string)
    ensures key in Credits(lines, g) <==> exists line | line in lines :: key in g.credits(line)
  {
    if lines == [] {
    } else {
      assert lines == lines[..|lines| - 1] + [lines[|lines| - 1]];
      CreditsAre(lines[..|lines| - 1], g, key);
    }
  }

  function WithNew(lines: seq<string>, start: nat, end: nat, rs: seq<Record>, g: Grammar): seq<string>
    requires start <= end <= |lines|
  {
    lines[..start] + (InsertAll(lines[start..end], rs, g) + lines[end..])
  }

  datatype Update = Update(text: string, added: seq<string>)

  predicate HasCrLf(text: string) {
    exists i | 0 <= i < |text| - 1 :: text[i] == '\r' && text[i + 1] == '\n'
  }

  function NewlineOf(text: string): (n: string)
    ensures IsNewline(n)
  {
    if HasCrLf(text) then "\r\n" else "\n"
  }

  predicate Ended(text: string) {
    text != "" && (text[|text| - 1] == '\n' || text[|text| - 1] == '\r')
  }

  function Written(lines: seq<string>, text: string): string {
    Join(lines, NewlineOf(text)) + if Ended(text) then NewlineOf(text) else ""
  }

  lemma {:induction false} JoinLast(lines: seq<string>, newline: string)
    requires lines != [] && newline != ""
    ensures var s, last := Join(lines, newline), lines[|lines| - 1];
            && (last != "" ==> s != "" && s[|s| - 1] == last[|last| - 1])
            && (last == "" && |lines| > 1 ==> s != "" && s[|s| - 1] == newline[|newline| - 1])
            && (last == "" && |lines| == 1 ==> s == "")
  {
    if |lines| > 1 {
      JoinLast(lines[1..], newline);
    }
  }

  /** The file written for some lines ends with a line feed when the old text ended with a line feed or a carriage
      return; otherwise only if its last line is empty. */
  lemma FinalNewline(lines: seq<string>, text: string)
    requires lines != [] && forall line | line in lines :: OneLine(line)
    ensures var s, last := Written(lines, text), lines[|lines| - 1];
            (s != "" && s[|s| - 1] == '\n') <==>
            (text != "" && text[|text| - 1] in "\n\r") || (|lines| > 1 && last == "")
  {
    var last := lines[|lines| - 1];
    JoinLast(lines, NewlineOf(text));
    assert OneLine(last) && IsBreak('\n');
    if Ended(text) {
    } else {
      assert Written(lines, text) == Join(lines, NewlineOf(text));
      assert last != "" ==> last[|last| - 1] in last;
    }
  }

  /** Who is to be added, given what the lines credit and who opted out. */
  function Chosen(lines: seq<string>, records: seq<Record>, optout: set<string>, g: Grammar): seq<Record> {
    Novel(records, Credits(lines, g) + optout, g)
  }

  function Add(text: string, records: seq<Record>, optout: set<string>, g: Grammar): Result<Update, Error> {
    var lines := SplitLines(text);
    match Block(lines, g)
    case Err(e) => Err(e)
    case Ok((start, end)) =>
      EntriesLieBetween(lines, g);
      var rs := Chosen(lines, records, optout, g);
      if rs == [] then Ok(Update(text, []))
      else Ok(Update(Written(WithNew(lines, start, end, rs, g), text), Spellings(rs)))
  }

  /** add_contributors. */
  method AddContributors(text: string, records: seq<Record>, optout: set<string>, g: Grammar)
    returns (r: Result<Update, Error>)
    ensures r == Add(text, records, optout, g)
  {
    var lines := SplitLines(text);
    var block := FindBlock(lines, g);
    if block.Err? {
      return Err(block.error);
    }
    EntriesLieBetween(lines, g);
    var (start, end) := block.value;
    var taken := Credits(lines, g) + optout;
    var added := ChooseNew(records, taken, g);
    SpellingsLength(Novel(records, taken, g));
    if added == [] {
      return Ok(Update(text, []));
    }
    var newBlock := InsertPending(lines[start..end], records, added, taken, g);
    return Ok(Update(Written(lines[..start] + (newBlock + lines[end..]), text), added));
  }

  lemma {:induction false} SpellingsLength(rs: seq<Record>)
    ensures |Spellings(rs)| == |rs|
  {
    if rs == [] {
    } else {
      SpellingsLength(rs[..|rs| - 1]);
    }
  }

  // ---- What the new file keeps and what it gains ----

  lemma AroundBlock(lines: seq<string>, start: nat, end: nat)
    requires start <= end <= |lines|
    ensures lines == lines[..start] + (lines[start..end] + lines[end..])
  {
  }

  lemma ChosenAreValid(lines: seq<string>, records: seq<Record>, optout: set<string>, g: Grammar)
    ensures forall r | r in Chosen(lines, records, optout, g) :: r in records && g.valid(r.login)
  {
    forall r | r in Chosen(lines, records, optout, g) ensures r in records && g.valid(r.login) {
      NovelAre(records, Credits(lines, g) + optout, g, r);
    }
  }

  lemma NewBlockIsBlock(lines: seq<string>, start: nat, end: nat, rs: seq<Record>, g: Grammar)
    requires Coherent(g) && IsBlock(lines, start, end, g) && forall r | r in rs :: g.valid(r.login)
    ensures IsBlock(WithNew(lines, start, end, rs, g), start, end + |rs|, g)
  {
    InsertAllKeepsEntries(lines[start..end], rs, g);
    InsertAllLength(lines[start..end], rs, g);
    BlockBetween(lines[..start], InsertAll(lines[start..end], rs, g), lines[end..], g);
  }

  lemma BlockBetween(pre: seq<string>, block: seq<string>, post: seq<string>, g: Grammar)
    requires AllEntries(block, g) && block != []
    requires forall i | 0 <= i < |pre| :: !g.IsEntry(pre[i])
    requires forall i | 0 <= i < |post| :: !g.IsEntry(post[i])
    ensures IsBlock(pre + (block + post), |pre|, |pre| + |block|, g)
  {
  }

  /** The existing lines stay, in order, around and inside the block; the block stays one run of entries and
      grows by the new ones; and if it was sorted by folded login, it still is. */
  lemma ExistingLinesStay(lines: seq<string>, start: nat, end: nat, records: seq<Record>, optout: set<string>,
                          g: Grammar)
    requires Coherent(g) && IsBlock(lines, start, end, g)
    ensures var rs := Chosen(lines, records, optout, g);
            var after := WithNew(lines, start, end, rs, g);
            && Subsequence(lines, after)
            && after[..start] == lines[..start]
            && end + |rs| <= |after| && after[end + |rs|..] == lines[end..]
            && IsBlock(after, start, end + |rs|, g)
    ensures var rs := Chosen(lines, records, optout, g);
            NonDescending(Order(lines[start..end], g)) ==>
              && AllEntries(InsertAll(lines[start..end], rs, g), g)
              && NonDescending(Order(InsertAll(lines[start..end], rs, g), g))
  {
    var rs := Chosen(lines, records, optout, g);
    ChosenAreValid(lines, records, optout, g);
    AroundBlock(lines, start, end);
    InsertAllKeepsLines(lines[..start], lines[start..end], lines[end..], rs, g);
    NewBlockIsBlock(lines, start, end, rs, g);
    InsertAllLength(lines[start..end], rs, g);
    if NonDescending(Order(lines[start..end], g)) { InsertAllKeepsOrder(lines[start..end], rs, g); }
  }

  lemma {:induction false} CreditsJoin(a: seq<string>, b: seq<string>, g: Grammar)
    ensures Credits(a + b, g) == Credits(a, g) + Credits(b, g)
  {
    if b == [] {
      assert a + b == a;
    } else {
      assert (a + b)[..|a + b| - 1] == a + b[..|b| - 1];
      CreditsJoin(a, b[..|b| - 1], g);
    }
  }

  lemma {:induction false} EnteredIsCredited(lines: seq<string>, key: string, g: Grammar)
    requires Coherent(g) && key !in Credits(lines, g)
    ensures Count(lines, key, g) == 0
  {
    if lines == [] {
    } else {
      EnteredIsCredited(lines[..|lines| - 1], key, g);
    }
  }

  lemma CreditsInsert(block: seq<string>, r: Record, g: Grammar)
    requires Coherent(g) && g.valid(r.login)
    ensures Credits(block, g) + {g.Key(r)} <= Credits(Insert(block, r, g), g)
  {
    var p := Position(block, g.Key(r), g);
    assert g.Enters(g.entry(r), g.Key(r));
    CreditsJoin(block[..p], [g.entry(r)] + block[p..], g);
    CreditsJoin([g.entry(r)], block[p..], g);
    CreditsJoin(block[..p], block[p..], g);
    assert block == block[..p] + block[p..];
  }

  lemma {:induction false} CreditsInsertAll(block: seq<string>, rs: seq<Record>, g: Grammar)
    requires Coherent(g) && forall r | r in rs :: g.valid(r.login)
    ensures Credits(block, g) + Keys(rs, g) <= Credits(InsertAll(block, rs, g), g)
  {
    if rs == [] {
    } else {
      var front, r := rs[..|rs| - 1], rs[|rs| - 1];
      assert rs == front + [r];
      KeysOneMore(front, r, g);
      CreditsInsertAll(block, front, g);
      CreditsInsert(InsertAll(block, front, g), r, g);
    }
  }

  lemma CreditsStay(lines: seq<string>, start: nat, end: nat, rs: seq<Record>, g: Grammar)
    requires start <= end <= |lines| && Coherent(g) && forall r | r in rs :: g.valid(r.login)
    ensures Credits(lines, g) + Keys(rs, g) <= Credits(WithNew(lines, start, end, rs, g), g)
  {
    var pre, block, post := lines[..start], lines[start..end], lines[end..];
    AroundBlock(lines, start, end);
    CreditsInsertAll(block, rs, g);
    CreditsJoin(pre, block + post, g);
    CreditsJoin(block, post, g);
    CreditsJoin(pre, InsertAll(block, rs, g) + post, g);
    CreditsJoin(InsertAll(block, rs, g), post, g);
  }

  /** A valid login of the batch that did not opt out and that no profile link credited is entered on
      exactly one line afterwards, however often and under whatever spellings the batch repeats it; an
      opted-out or credited login gains no line. */
  lemma EachNewLoginOnce(lines: seq<string>, start: nat, end: nat, records: seq<Record>, optout: set<string>,
                         g: Grammar, r: Record)
    requires Coherent(g) && IsBlock(lines, start, end, g) && r in records && g.valid(r.login)
    ensures var after := WithNew(lines, start, end, Chosen(lines, records, optout, g), g);
            Count(after, g.Key(r), g) ==
            if g.Key(r) in Credits(lines, g) + optout then Count(lines, g.Key(r), g) else 1
  {
    var taken, key := Credits(lines, g) + optout, g.Key(r);
    var rs := Novel(records, taken, g);
    var pre, block, post := lines[..start], lines[start..end], lines[end..];
    AroundBlock(lines, start, end);
    CountInsertAll(block, records, taken, key, g);
    CountJoin(pre, block + post, key, g);
    CountJoin(block, post, key, g);
    CountJoin(pre, InsertAll(block, rs, g) + post, key, g);
    CountJoin(InsertAll(block, rs, g), post, key, g);
    NovelCoverAll(records, taken, g, r);
    if key in taken {
      if key in Keys(rs, g) {
        var x :| x in rs && g.Key(x) == key;
        NovelAre(records, taken, g, x);
      }
    } else {
      EnteredIsCredited(lines, key, g);
    }
  }

  // ---- The text, and running again ----

  /** Every entry that may be printed for the batch is a single line. */
  ghost predicate PrintsLines(records: seq<Record>, g: Grammar) {
    forall r | r in records && g.valid(r.login) :: OneLine(g.entry(r))
  }

  lemma {:induction false} InsertAllPrintsLines(block: seq<string>, rs: seq<Record>, g: Grammar)
    requires forall line | line in block :: OneLine(line)
    requires forall r | r in rs :: OneLine(g.entry(r))
    ensures forall line | line in InsertAll(block, rs, g) :: OneLine(line)
  {
    if rs == [] {
    } else {
      var front, r := rs[..|rs| - 1], rs[|rs| - 1];
      assert rs == front + [r];
      InsertAllPrintsLines(block, front, g);
    }
  }

  lemma NewLinesAreLines(lines: seq<string>, start: nat, end: nat, rs: seq<Record>, g: Grammar)
    requires start <= end <= |lines|
    requires forall line | line in lines :: OneLine(line)
    requires forall r | r in rs :: OneLine(g.entry(r))
    ensures forall line | line in WithNew(lines, start, end, rs, g) :: OneLine(line)
  {
    InsertAllPrintsLines(lines[start..end], rs, g);
  }

  /** What is read back from the file written for these lines. */
  function Reread(lines: seq<string>, text: string): seq<string> {
    if Ended(text) then lines else WithoutEmptyEnd(lines)
  }

  lemma WrittenReadsBack(lines: seq<string>, text: string)
    requires lines != [] && forall line | line in lines :: OneLine(line)
    ensures SplitLines(Written(lines, text)) == Reread(lines, text)
  {
    if Ended(text) {
      EndedLinesReadBack(lines, NewlineOf(text));
    } else {
      assert Written(lines, text) == Join(lines, NewlineOf(text));
      JoinedLinesReadBack(lines, NewlineOf(text));
    }
  }

  lemma RereadKeeps(lines: seq<string>, text: string, start: nat, end: nat, g: Grammar)
    requires Coherent(g) && IsBlock(lines, start, end, g)
    ensures IsBlock(Reread(lines, text), start, end, g)
    ensures Credits(Reread(lines, text), g) == Credits(lines, g)
  {
    assert g.IsEntry(lines[end - 1]);
  }

  /** The new file splits into the lines meant for it: exactly, unless the old one lacked a final newline
      and its last line was empty, which is then lost. */
  lemma NewTextHasTheNewLines(text: string, records: seq<Record>, optout: set<string>, g: Grammar,
                              start: nat, end: nat)
    requires Coherent(g) && PrintsLines(records, g) && Block(SplitLines(text), g) == Ok((start, end))
    requires Chosen(SplitLines(text), records, optout, g) != []
    ensures IsBlock(SplitLines(text), start, end, g)
    ensures var lines := SplitLines(text);
            var after := WithNew(lines, start, end, Chosen(lines, records, optout, g), g);
            && Add(text, records, optout, g).Ok? && after != []
            && SplitLines(Add(text, records, optout, g).value.text) == Reread(after, text)
  {
    var lines := SplitLines(text);
    var rs := Chosen(lines, records, optout, g);
    BlockIsExact(lines, g, start, end);
    ChosenAreValid(lines, records, optout, g);
    AllLinesAreSingle(text);
    NewLinesAreLines(lines, start, end, rs, g);
    NewBlockIsBlock(lines, start, end, rs, g);
    WrittenReadsBack(WithNew(lines, start, end, rs, g), text);
  }

  lemma {:induction false} NothingNovel(records: seq<Record>, taken: set<string>, g: Grammar)
    requires forall r | r in records && g.valid(r.login) :: g.Key(r) in taken
    ensures Novel(records, taken, g) == []
  {
    if records == [] {
    } else {
      assert records == records[..|records| - 1] + [records[|records| - 1]];
      NothingNovel(records[..|records| - 1], taken, g);
    }
  }

  /** Everybody in the batch is settled by it. */
  lemma BatchIsSettled(lines: seq<string>, start: nat, end: nat, records: seq<Record>, optout: set<string>,
                       g: Grammar, r: Record)
    requires Coherent(g) && start <= end <= |lines| && r in records && g.valid(r.login)
    ensures g.Key(r) in Credits(WithNew(lines, start, end, Chosen(lines, records, optout, g), g), g) + optout
  {
    var rs := Chosen(lines, records, optout, g);
    ChosenAreValid(lines, records, optout, g);
    NovelCoverAll(records, Credits(lines, g) + optout, g, r);
    CreditsStay(lines, start, end, rs, g);
  }

  lemma NothingToAdd(text: string, records: seq<Record>, optout: set<string>, g: Grammar, start: nat, end: nat)
    requires IsBlock(SplitLines(text), start, end, g)
    requires forall r | r in records && g.valid(r.login) :: g.Key(r) in Credits(SplitLines(text), g) + optout
    ensures Add(text, records, optout, g) == Ok(Update(text, []))
  {
    BlockIsExact(SplitLines(text), g, start, end);
    NothingNovel(records, Credits(SplitLines(text), g) + optout, g);
  }

  /** Applying the batch again, or any part of it in any order, returns the text unchanged and adds nobody. */
  lemma AddingAgainChangesNothing(text: string, records: seq<Record>, optout: set<string>, g: Grammar,
                                  again: seq<Record>)
    requires Coherent(g) && PrintsLines(records, g) && Add(text, records, optout, g).Ok?
    requires forall r | r in again :: r in records
    ensures var after := Add(text, records, optout, g).value.text;
            Add(after, again, optout, g) == Ok(Update(after, []))
  {
    var lines := SplitLines(text);
    var (start, end) := Block(lines, g).value;
    BlockIsExact(lines, g, start, end);
    var rs := Chosen(lines, records, optout, g);
    if rs == [] {
      forall r | r in again && g.valid(r.login) ensures g.Key(r) in Credits(lines, g) + optout {
        NovelCoverAll(records, Credits(lines, g) + optout, g, r);
      }
      NothingToAdd(text, again, optout, g, start, end);
    } else {
      var after := WithNew(lines, start, end, rs, g);
      ChosenAreValid(lines, records, optout, g);
      NewTextHasTheNewLines(text, records, optout, g, start, end);
      NewBlockIsBlock(lines, start, end, rs, g);
      RereadKeeps(after, text, start, end + |rs|, g);
      forall r | r in again && g.valid(r.login) ensures g.Key(r) in Credits(after, g) + optout {
        BatchIsSettled(lines, start, end, records, optout, g, r);
      }
      NothingToAdd(Add(text, records, optout, g).value.text, again, optout, g, start, end + |rs|);
    }
  }

  /** What the printer of entries gives: with it, a batch whose valid logins are single lines prints lines. */
  lemma EntryLinesPrintLines(records: seq<Record>, g: Grammar)
    requires forall r :: g.entry(r) == EntryLine(r)
    requires forall r | r in records && g.valid(r.login) :: OneLine(r.login)
    ensures PrintsLines(records, g)
  {
    forall r | r in records && g.valid(r.login) ensures OneLine(g.entry(r)) { EntryIsOneSafeLine(r); }
  }
}
