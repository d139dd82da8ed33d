# Verified models of Junction's tooling

This project models, in Dafny, the pure algorithmic parts of the repository's tooling and proves what their
documentation and tests promise of them. `dafny verify dfyconfig.toml` checks all of it.

| file | models |
|---|---|
| `WorkerBudget.dfy` | the memory arithmetic of `xdist_budget.py`: unknown readings, the shared slot range, the per-run cap |
| `SlotSweep.dfy` | one process of `xdist_budget.py`: the class `WorkerSlots` that claims and releases slot locks |
| `SlotProtocol.dfy` | any number of those processes at once, as a transition system over the kernel's lock table |
| `SlotRoom.dfy`, `SlotConservation.dfy`, `SlotTurns.dfy`, `SlotServed.dfy` | what those processes are guaranteed to get, and in how many turns; that a claim is served, and what releasing gives back |
| `IcnsRle.dfy`, `IcnsContainer.dfy` | the ICNS encoder of `assets/brand/build.py`, with a decoder and a reader written from the format |
| `ChangelogHistory.dfy`, `ChangelogShape.dfy` | the append-only gate of `scripts/check_changelog_history.py`, chains of commits it accepts, and the shape its two rules leave |
| `NpmAudit.dfy` | advisory resolution and finding collection of `scripts/check_npm_audit.py`, against graph reachability |
| `FocusCue.dfy`, `ScannerLaws.dfy`, `LineNumbers.dfy` | the comment-blanking scanner of `scripts/check_focus_cue.py`, in place over an array, its laws on texts, and its line numbers |
| `CoverageMerge.dfy`, `CoverageOrder.dfy`, `BaselineText.dfy`, `CoverageRatchet.dfy` | the coverage floor of `scripts/check_per_file_coverage.py`: merge, when its order matters, baseline text, enforce / refresh / seed |
| `EncodingRatchet.dfy` | the diff-scoped ratchet of `scripts/check_subprocess_encoding.py` |
| `ContributorEntry.dfy`, `Contributors.dfy`, `ContributorEnds.dfy` | the README inserter of `scripts/update_contributors.py` |
| `VendorManifest.dfy` | the printer, parser and comparison of `scripts/verify_vendor_manifest.py` |
| `LineText.dfy`, `LineEnds.dfy`, `StringOrder.dfy`, `Sequences.dfy`, `Wrappers.dfy` | `splitlines`, `split`, `join`, `sorted` over strings, sequence regrouping, and result types |

Code that updates variables in loops is a method with loop invariants, proved equal to a specification
function; what the source promises is then proved of that function. Patterns (heading, entry, login and
profile expressions, `float`, `str.isdigit`) are function parameters, constrained only where a proof needs it.

## Where the code and its documentation differ

- The two rules of the changelog gate are said together to leave one legal shape of change, prepending a
  section. What they leave is stated exactly by `ChangelogShape.TwoRulesLeaveExactly`: one bare heading for each
  release, every old section unchanged among them, in any order and with any new ones between. Exchanging two
  sections passes both rules (`ChangelogHistory.ExchangeIsAccepted`). The change is a prepend if and only if
  the versions listed at head end with those listed at base (`ChangelogShape.PrependMeansNamesLast`).
- A level-2 heading that is no version but whose words start with a digit, "## 2024 notes", passes for a shipped
  release to the draft rule and is no section to the other. It and the lines below it may be added and removed
  freely (`ChangelogShape.StrayHeadingIsUnprotected`). A text is wholly the preamble and the sections that the
  two rules speak of if and only if every level-2 heading in it is a versioned one
  (`ChangelogShape.CoveredExactly`).
- A base without any shipped release skips the second rule too, so a first release may arrive with two headings
  and two accounts (`ChangelogShape.FirstReleaseMayRepeat`).
- The coverage merge gives an unnumbered line a negative key "of its own". An explicit negative number can be
  that same key, and a statement is then lost (`CoverageMerge.NegativeNumberCollides`); the merge is exact
  if and only if the two kinds of key are disjoint (`CoverageMerge.LinesAreIdentities`). Then the order of the
  classes can matter too (`CoverageMerge.OrderCanMatter`). It cannot, for a given report and path, if and only
  if of the report's unnumbered lines none or all belong to the path, or of the negative numbers down to minus
  their count none or all are numbers of the path; and likewise for the lines with a hit
  (`CoverageOrder.SummaryIsSettledExactly`).
- The tolerance is said not to absorb a small file's loss of one covered line. It does, when the file stood at its
  recorded rate: 7 of 19 lines recorded at 36.8, then 6, is still exempt
  (`CoverageRatchet.LostLineCanBeAbsorbed`). Up to 50 statements such a loss regresses if and only if the recorded
  rate was above the old one (`CoverageRatchet.LostLineRegressesExactly`).
- A seeded baseline line is read back as written if and only if its path is non-empty and has no space and no
  hash in it (`BaselineText.SeedLineReadsBackExactly`), and a lane passes on the report it was seeded from if
  and only if every file below the floor has such a path (`CoverageRatchet.SeededTextPasses`).
- `parse_manifest` is said to accept exactly what `render_manifest` emits. It accepts more: blank lines, entries
  in another order, other line ends, a missing final newline, and a second line for a path, which silently wins
  (`VendorManifest.RepeatedPathIsAccepted`). A text that parses is one that printing emits if and only if every
  line is ended by a line feed and the lines are entries in strictly ascending order of path, or one empty line
  (`VendorManifest.PrintedExactly`). Printing and parsing return the same map if and only if
  `VendorManifest.AllSound` holds of it (`VendorManifest.RoundTripExactly`).
- `add_contributors` is said to preserve the original newline style. It writes one newline for the whole file, so
  in a text with two kinds of line end one kind is rewritten (`ContributorEnds.MixedEndsAreRewritten`). Writing a
  text's own lines back gives the text if and only if all its boundaries are line feeds, or all are the pair
  (`ContributorEnds.WritingBackIsExact`); and when somebody is added, every existing line keeps its place and its
  line end if and only if that holds and a last line without an end stays last: something follows the block, or
  everybody added belongs before some entry of it (`ContributorEnds.LineEndsStayExactly`).
- A comment in `add_contributors` says an unsorted block falls back to appending. The code puts an entry before the
  first one with a greater login, sorted or not, and appends if and only if there is none
  (`Contributors.AppendedExactly`).
- `scan_source` uses a count of line feeds as an index into `splitlines`. The two agree at every offset if and only if
  line feeds, alone or after carriage returns, are the text's only line boundaries
  (`LineNumbers.LineIndicesAgreeExactly`).

## Model

| member | source | states |
|---|---|---|
| `WorkerBudget.ComputeBoundedBy` | xdist_budget.py:253-269 | The reduction loop computes the bound that `BoundedByIsGreatestFit` characterises. |
| `WorkerBudget.BoundedByIsGreatestFit` | xdist_budget.py:253-269 | The bound is the greatest worker count not above the limit for which every known reading has room, floored at one; a reading of 0 never lowers it. |
| `WorkerBudget.RunCapIsTightest` | xdist_budget.py:495-505 | A count is within the run's cap iff it is one, or within the shared range, the ceiling of the environment (32 when it gives none), a positive xdist ceiling, and a known live reading at 2048 MiB a worker; the cap never exceeds the shared range. |
| `WorkerBudget.CapacityIsGreatest` | xdist_budget.py:272-296 | A count is within the shared range iff it is one, or within the known cores, a total RAM of at least one GiB in whole GiB, and a known cgroup ceiling, at 2 GiB a worker. |
| `WorkerBudget.CapacityFitsStaticMemory` | xdist_budget.py:272-296 | Unless it is the single-worker floor, every count in the shared range fits the cores and each known constant reading at 2048 MiB a worker. |
| `SlotSweep.TakenIsFree` | xdist_budget.py:359-395 | The slots a sweep holds are exactly the probed ones that were free, each once, in ascending order. |
| `SlotSweep.SweepIsGreedy` | xdist_budget.py:359-396 | A sweep that can open every file ends with its cap, or with every slot of the range no other run held when probed. |
| `SlotSweep.WorkerSlots.constructor` | xdist_budget.py:338-342 | A fresh process holds no slot. |
| `SlotSweep.WorkerSlots.Claim` | xdist_budget.py:312-396 | A second claim keeps the held list and answers its length; an unusable directory fails open to the smaller of range and cap; otherwise the held list is the sweep's and the answer is its length, at least one. |
| `SlotSweep.WorkerSlots.Release` | xdist_budget.py:511-524 | Every held slot is unlocked once, last taken first, and none remains. |
| `SlotSweep.WorkerSlots.ResolveWorkers` | xdist_budget.py:434-508 | The first resolution grants between one and the run's cap, at least one worker for each slot held, all slots inside the shared range; later ones repeat the held count. |
| `SlotProtocol.Reachable` | xdist_budget.py:312-396 | Every state reached by any interleaving of starts, claims, probes, failed opens, single releases, exits and crashes satisfies the protocol invariant. |
| `SlotProtocol.StepKeepsLog` | xdist_budget.py:359-395 | What a sweep has met is never rewritten by any step of any run. |
| `SlotProtocol.MutualExclusion` | xdist_budget.py:325-330 | In every reachable state no slot is in two runs' lists nor twice in one, the lists agree with the lock table, and no run holds more than the cap it claimed with. |
| `SlotProtocol.NoStealing` | xdist_budget.py:325-330 | A locked slot stays with its owner until the owner releases it or ends, and a free one is locked only by a sweeping run for itself; a claim, first or repeated, changes no lock. |
| `SlotProtocol.NeverOversubscribed` | xdist_budget.py:283-287 | In every reachable state the slots held sum to the locks, never more than the capacity, and the granted workers exceed it by at most one for each run at the zero-slot floor. |
| `SlotProtocol.LockedSlotsFitMemory` | xdist_budget.py:272-296 | Over a host's shared range, all locked slots together fit the cores and every known constant reading at 2048 MiB each, unless the range is the single-slot floor. |
| `SlotProtocol.ExitReturnsCapacity` | xdist_budget.py:325-330 | Ending a run, by exit or crash, frees exactly its own slots and leaves every other lock with its owner. |
| `SlotProtocol.EveryClaimIsASweep` | xdist_budget.py:359-396 | Each claim, however interleaved, is the sequential sweep over the answers it met, and a granted run holds that sweep's slots. |
| `SlotProtocol.ClaimMatchesProtocol` | xdist_budget.py:359-396 | Whatever sweep `WorkerSlots.Claim` makes of the answers a claim met, it ends where the claim did and takes the same slots. |
| `SlotProtocol.BusyWasLocked` | xdist_budget.py:391-395 | An answer "busy" on a claim's log was given at a moment of the history when that owner had the slot locked. |
| `SlotProtocol.ShortfallIsContention` | xdist_budget.py:359-396 | A claim that ends below its cap lacks only slots that another run had locked at the moment they were probed. |
| `SlotServed.ClaimIsServed` | xdist_budget.py:359-396 | After any history in which a run is idle, or granted with no slot, its claim and then any interleaving in which it neither exits nor fails to open a file, with more than capacity turns of its own, leave a claim of that run with exactly the cap it asked for, swept to its end. |
| `SlotServed.RunIsGranted` | xdist_budget.py:359-396 | While the run does nothing but take its turns, it ends granted on that claim and holds exactly the slots the claim found free. |
| `SlotServed.AloneItGetsWhatIsFree` | xdist_budget.py:480-484 | With no other run acting, the claim and capacity + 1 turns leave it granted with the smaller of its cap (zero if negative) and the capacity less the slots locked before. |
| `SlotServed.ReleaseReturnsAll` | xdist_budget.py:511-524 | One release for each slot a granted run holds leaves it holding nothing, its slots unlocked and every other lock and run as they were; the next one only makes it idle. |
| `SlotServed.OpenFailureGrants` | xdist_budget.py:362-390 | A slot file that cannot be opened ends the sweep with the slots taken so far. |
| `SlotServed.SpawnedIsIdle` | xdist_budget.py:338-342 | A new process holds no slot, may claim, and changes nothing for the others. |
| `SlotConservation.WorkConservation` | xdist_budget.py:480-484 | After any history, overbooked or not and with older sweeps still under way: as long as runs start only when the slots held, what other sweeps may still take and their own cap fit the range together, every claim they make that sweeps to its end takes exactly its own cap, whatever the interleaving. Slots that ended runs returned count as free. |
| `SlotConservation.ServedUnlessOverbooked` | xdist_budget.py:359-396 | The same conclusion from the condition that held slots and outstanding caps do not exceed the range meanwhile. |
| `SlotConservation.FullOrServed` | xdist_budget.py:359-396 | While no run gives slots back or ends, either every claim started meanwhile that swept to its end took its cap, or the whole range is locked. |
| `SlotConservation.LiveCapsAreServed` | xdist_budget.py:466-468 | In particular, when the caps of the runs alive at any one time fit the range, every claim that ends its sweep has its cap. |
| `SlotConservation.AllCapsAreServed` | xdist_budget.py:315-320 | And when the caps of all claims ever started do. |
| `SlotTurns.ProbeMakesProgress` | xdist_budget.py:359-395 | Each turn of a sweep ends it or adds one answer to its log, whatever happens between turns. |
| `SlotTurns.TurnsAreAnswers` | xdist_budget.py:359-395 | The turns a sweep has had are the answers on its log, and one more once it has swept to its end. |
| `SlotTurns.SweepEndsInTime` | xdist_budget.py:359-396 | A sweep has at most capacity + 1 turns, and at most capacity while it is under way. |
| `IcnsRle.CountEqual` | assets/brand/build.py:326-328 | The counting loop, with either limit, counts equal bytes until the limit, the end of the plane or another byte; at least three iff three equal bytes stand there. |
| `IcnsRle.TakeLiteral` | assets/brand/build.py:332-340 | The inner loop collects exactly the literal packet due at its start. |
| `IcnsRle.NextPacketIsRight` | assets/brand/build.py:325-341 | Each packet is non-empty and of a length its control byte can spell, stands for exactly the next bytes of the plane, and is a run iff three equal bytes stand there. A run has 130 bytes, or reaches the end, or is followed by another byte; a literal is full, or is the last, or is followed by a run. |
| `IcnsRle.Rle` | assets/brand/build.py:319-342 | The encoder terminates and spells exactly the packets of the plane. |
| `IcnsRle.FlatPlane` | assets/brand/build.py:325-330 | A plane of 3 to 130 equal bytes is encoded in two: the control byte and the value. |
| `IcnsRle.PlainPlane` | assets/brand/build.py:331-341 | A plane of up to 128 bytes without three equal ones together is encoded as its length less one and itself. |
| `IcnsRle.PacketReadsBack` | assets/brand/build.py:320-322 | Every packet in range is read back from its bytes, whatever follows: the control byte is on the right side of 0x80. |
| `IcnsRle.PacketsDecode` | assets/brand/build.py:320-322 | Any list of packets in range decodes to what it stands for, consuming exactly its bytes. |
| `IcnsRle.RoundTrip` | assets/brand/build.py:319-342 | A decoder told only the plane's length gives the plane back and stops exactly where its encoding ends. |
| `IcnsRle.FourPlanes` | assets/brand/build.py:357-361 | The four concatenated encodings of planes of equal length decode to the four planes, each consuming its own encoding. |
| `IcnsRle.PlaneOrder` | assets/brand/build.py:358-361 | Decoded one after the other, the first plane is the alpha, then red, green and blue. |
| `IcnsRle.SizeIsBounded` | assets/brand/build.py:324-342 | The encoding of n bytes takes at most n bytes and one more for every 128 begun, for every input. |
| `IcnsRle.SizeWithoutRuns` | assets/brand/build.py:331-341 | The bound is met wherever no three equal bytes stand together. |
| `IcnsContainer.LengthReadsBack` | assets/brand/build.py:363-364 | Four bytes, the most significant first, spell any length below 2^32, and read back. |
| `IcnsContainer.WriteSlots` | assets/brand/build.py:354-364 | Writing succeeds iff every size is rendered and the total length fits its field, and then the file is the chunks in slot order. |
| `IcnsContainer.WriteIcns` | assets/brand/build.py:345-364 | The same for the ten slots of an icon; the failure names a size that was not rendered. |
| `IcnsContainer.FileReadsBack` | assets/brand/build.py:355-364 | A reader that follows tags and lengths recovers any chunk list that fits, in order, and stops at the outer length. |
| `IcnsContainer.HeadLies` | assets/brand/build.py:364 | The file begins with the bytes of "icns" and its own length, and is as long as its head and chunks. |
| `IcnsContainer.ChunkLies` | assets/brand/build.py:363 | Each chunk lies behind the earlier ones: its tag, its length with the eight bytes of its header, its body. |
| `IcnsContainer.ArgbBodyDecodes` | assets/brand/build.py:357-361 | An ARGB body is its mark and four planes that decode, with nothing left over. |
| `IcnsContainer.IconReadsBack` | assets/brand/build.py:345-364 | Reading a written icon gives ten chunks, tagged "ic" and the digits 04, 05, 07 to 14 in order; the first two hold the bytes of "ARGB" and planes that decode to the images of 16 and 32 pixels, the others the PNG bytes of 128, 256, 512, 1024, 32, 64, 256 and 512. |
| `ChangelogHistory.TakeBody` | scripts/check_changelog_history.py:228-232 | The inner loop takes the lines up to the next level-2 heading, or the end. |
| `ChangelogHistory.ParseHeadings` | scripts/check_changelog_history.py:210-234 | The parser lists every versioned heading with its fold and its block, in document order. |
| `ChangelogHistory.ResolveAsRendered` | scripts/check_changelog_history.py:237-256 | The setdefault loop computes the resolution characterised by `ResolveIsFirst`. |
| `ChangelogHistory.ResolveIsFirst` | scripts/check_changelog_history.py:240-256 | A release resolves iff some heading folds onto it, and then to the block of the first one. |
| `ChangelogHistory.DraftHeadings` | scripts/check_changelog_history.py:305-314 | The scan lists, in order, what `DraftsAre` characterises. |
| `ChangelogHistory.DraftsAre` | scripts/check_changelog_history.py:205-207 | A name is listed iff some level-2 line has that name, as a section or by its words, and it is empty, or starts with no digit, or folds to another string. |
| `ChangelogHistory.NoDraftsMeansAllShipped` | scripts/check_changelog_history.py:274-314 | There are no drafts iff every level-2 line names something that starts with a digit and folds to itself. |
| `ChangelogHistory.ShippedAre` | scripts/check_changelog_history.py:259-265 | The shipped releases are the headings' names that start with a digit and fold to themselves. |
| `ChangelogHistory.Compare` | scripts/check_changelog_history.py:317-409 | The comparison reports both rules' problems, release by release in sorted order. |
| `ChangelogHistory.CompareAcceptsExactly` | scripts/check_changelog_history.py:317-409 | It reports nothing iff each shipped release of the base has exactly one heading at head, spelled bare, over the same lines, and no bare heading shares its release; or the base ships nothing and has no bracketed heading. |
| `ChangelogHistory.FirstRuleSays` | scripts/check_changelog_history.py:354-386 | A shipped release is reported gone iff head has no heading for it, and changed iff its first heading at head stands over other lines than the first at base. |
| `ChangelogHistory.SecondRuleSays` | scripts/check_changelog_history.py:390-408 | A release is reported duplicated iff head has several headings for it and it is shipped or one of them is bare, and stood in for iff it is shipped and its only heading is another spelling. |
| `ChangelogHistory.HistoryIsImmutable` | scripts/check_changelog_history.py:323-333 | Over any chain of accepted commits, each under its own grammar, a release shipped at one commit has, at every later one, exactly one heading, spelled bare, over the lines the first commit resolved. |
| `ChangelogHistory.DraftFreeHeadingsAreReleases` | scripts/check_changelog_history.py:288-298 | After an accepted, draft-free change to a changelog that had shipped something, its headings are its releases, one bare heading each. |
| `ChangelogHistory.PrependAddsOneHeading` | scripts/check_changelog_history.py:220-234 | A block inserted after a heading-free preamble is read as one more heading before all others. |
| `ChangelogHistory.PrependIsAccepted` | scripts/check_changelog_history.py:294-298 | Prepending is accepted iff the block's release is new to the file, or is a release it has only a draft of and the block is another draft. |
| `ChangelogHistory.ExchangeIsAccepted` | scripts/check_changelog_history.py:288-298 | Two sections may be exchanged: `compare` accepts it, and head is free of drafts iff base was. |
| `ChangelogShape.TwoRulesLeaveExactly` | scripts/check_changelog_history.py:288-298 | From a draft-free base that has shipped something, both rules pass iff head is draft-free, its headings are bare and one per release, and the heading each release of base resolves to is among them unchanged. |
| `ChangelogShape.PrependMeansNamesLast` | scripts/check_changelog_history.py:294-298 | Such a change is a prepend iff the versions head lists end with those base listed. |
| `ChangelogShape.PrependInText` | scripts/check_changelog_history.py:294-298 | A prepend leaves the text from the first old section on as it was, below the new sections. |
| `ChangelogShape.StrayHeadingIsUnprotected` | scripts/check_changelog_history.py:305-314 | A level-2 heading that is no section but passes for a release can be added and removed, with the lines below it, under both rules. |
| `ChangelogShape.CoveredExactly` | scripts/check_changelog_history.py:210-234 | A text is its preamble followed by its sections iff every level-2 heading in it is a versioned one. |
| `ChangelogShape.FirstReleaseMayRepeat` | scripts/check_changelog_history.py:334-348 | A base that ships nothing accepts a head with one release under two headings. |
| `NpmAudit.ResolveAdvisories` | scripts/check_npm_audit.py:277-291 | The recursion terminates on every reference-closed map and returns or raises as the specification does. |
| `NpmAudit.RaiseMeansCycle` | scripts/check_npm_audit.py:282-283 | A raise, along any trail that is a walk, names a package on a cycle that is reachable. |
| `NpmAudit.ReturnMeansNoCycle` | scripts/check_npm_audit.py:277-291 | A normal return means none is. |
| `NpmAudit.ResolveIsReachability` | scripts/check_npm_audit.py:277-291 | It raises iff a cycle is reachable from the package, naming a package on one, and otherwise returns exactly the advisories attached to reachable packages. |
| `NpmAudit.ListsInOrder` | scripts/check_npm_audit.py:285-291 | Without a reachable cycle the list joins, in the order of the via array, the package's own advisories and the lists its references resolve to by themselves. |
| `NpmAudit.RecordEach` | scripts/check_npm_audit.py:343-358 | The inner loop over one package's advisories computes the table that `RecordAllMeans` characterises. |
| `NpmAudit.RecordAllMeans` | scripts/check_npm_audit.py:343-358 | Recording a package keeps, for each id with a high or critical advisory, the first of the highest severity, and touches no other package. |
| `NpmAudit.CollectFindings` | scripts/check_npm_audit.py:335-366 | It succeeds iff the exit status matches the counts, no package reaches a cycle, every high or critical record reaches an advisory, and high or critical advisories are reachable iff their count is positive. There is then one finding for each package and id with such an advisory in reach: critical iff a critical one is, else high. Each error says which of these failed, and where. |
| `NpmAudit.CollectPackage` | scripts/check_npm_audit.py:340-359 | One turn of its loop: it fails iff the package reaches a cycle, or is high or critical with no advisory in reach. |
| `FocusCue.BlankRange` | scripts/check_focus_cue.py:226-234 | The blanking loops overwrite the range in place, newlines kept, and nothing outside it. |
| `FocusCue.SkipQuoted` | scripts/check_focus_cue.py:235-240 | The loop stops one past the closing quote, escapes skipped, or past the end. |
| `FocusCue.BlankComments` | scripts/check_focus_cue.py:210-242 | The in-place scanner terminates and computes the blanking characterised by `BlankAt` and by the laws of `ScannerLaws`. |
| `FocusCue.BlankAt` | scripts/check_focus_cue.py:211-216 | Length and every newline are kept, a character inside a comment becomes a space, and every other one, quoted regions included, is untouched. |
| `ScannerLaws.QuotedIsKept` | scripts/check_focus_cue.py:234-240 | Between two quotes of one kind, double, single or backtick, a body free of that quote and of stray backslashes, escaped pairs allowed, is kept whatever it looks like, and the scan goes on after it. |
| `ScannerLaws.UnclosedIsKept` | scripts/check_focus_cue.py:234-240 | A string that is never closed is kept to the end of the text. |
| `ScannerLaws.BlockIsBlanked` | scripts/check_focus_cue.py:221-227 | From `/*` to the first `*/` after it everything is blanked, and the scan goes on behind it. |
| `ScannerLaws.UnclosedBlockIsBlanked` | scripts/check_focus_cue.py:222-223 | A block comment that is never closed is blanked to the end. |
| `ScannerLaws.LineIsBlanked` | scripts/check_focus_cue.py:228-233 | From `//` to the next newline, or the end, everything is blanked. |
| `ScannerLaws.PlainIsKept` | scripts/check_focus_cue.py:241-242 | Any other character is kept, a slash that opens no comment included. |
| `ScannerLaws.BlankOutIs` | scripts/check_focus_cue.py:224-226 | A blanked character is a space, a blanked newline a newline. |
| `FocusCue.LineNumbersAgree` | scripts/check_focus_cue.py:364-398 | The line feeds before any offset are as many in the blanked as in the original text. |
| `LineNumbers.LineIndexIsRight` | scripts/check_focus_cue.py:395 | The index used in the next row is that of the line, among those of `splitlines`, that an offset lies in. |
| `LineNumbers.LineIndicesAgreeExactly` | scripts/check_focus_cue.py:393-395 | The count of line feeds is that index at every offset iff line feeds, alone or after carriage returns, are the only line boundaries. |
| `FocusCue.RescanFrom` | scripts/check_focus_cue.py:219-242 | Every loop head of the original scan is a loop head of the scan of its output, which changes nothing. |
| `FocusCue.BlankIsIdempotent` | scripts/check_focus_cue.py:210-242 | Blanking twice is blanking once, for every text, unterminated comments and strings included. |
| `CoverageMerge.MergeLines` | scripts/check_per_file_coverage.py:253-262 | Merging one class's lines keeps the table the exact record of the lines met so far. |
| `CoverageMerge.ParseReport` | scripts/check_per_file_coverage.py:227-266 | One summary for each path with a line, in sorted order and none twice, counting the distinct line keys and the distinct keys with a hit over all classes of the path. |
| `CoverageMerge.LinesAreIdentities` | scripts/check_per_file_coverage.py:230-239 | The count is the distinct numbers plus the unnumbered lines, less one for each explicit number that equals a key handed to an unnumbered line; so it is exact iff there is none. |
| `CoverageMerge.NumberedReportsAreExact` | scripts/check_per_file_coverage.py:242-244 | It is exact when no number is negative, as Cobertura's are not. |
| `CoverageMerge.SummaryCounts` | scripts/check_per_file_coverage.py:247-266 | In terms of the class elements: without negative numbers the statements of a path are the distinct numbers of its lines over all its classes and its lines without one, the covered ones those with a hit. |
| `CoverageMerge.PathsAre` | scripts/check_per_file_coverage.py:247-253 | The files reported are the non-empty names of classes that have lines. |
| `CoverageMerge.NegativeNumberCollides` | scripts/check_per_file_coverage.py:255-260 | A concrete report in which two lines make one statement. |
| `CoverageMerge.ReportFollowsLines` | scripts/check_per_file_coverage.py:227-239 | Reports with the same lines under the same paths, however classes are ordered, repeated or split, list the same paths and summarize one alike iff they have as many collisions on it, so always when no number is negative. |
| `CoverageOrder.OrderCannotMatterExactly` | scripts/check_per_file_coverage.py:251-262 | No reordering of a report's lines changes the count of a choice of them iff none or all of its unnumbered lines are chosen, or none or all of the numbers that could collide are chosen ones. |
| `CoverageOrder.SummaryIsSettledExactly` | scripts/check_per_file_coverage.py:227-266 | A path's summary is the same in every report with the same lines, however its classes are ordered, repeated or split, iff that holds for its lines and for its covered lines. |
| `CoverageMerge.OrderCanMatter` | scripts/check_per_file_coverage.py:253-262 | A concrete report with a negative number whose count depends on the order of its classes. |
| `BaselineText.SeedLineReadsBackExactly` | scripts/check_per_file_coverage.py:269-291 | A seeded line reads back as its path and rate iff the path is non-empty and has neither space nor hash. |
| `BaselineText.ParsedPathIsPlain` | scripts/check_per_file_coverage.py:280-291 | Whatever a line says, the path read from it is non-empty without space or hash. |
| `BaselineText.LineReadings` | scripts/check_per_file_coverage.py:280-291 | An empty line and a comment are no entry; a path alone is malformed; a path and a word are an entry iff the word is a number from 0 to 100, with the errors for the two ways to fail. |
| `CoverageRatchet.ToleranceIsAtLeastTwo` | scripts/check_per_file_coverage.py:140-155 | The tolerance is at least two points and at least one statement of the file, and is one of the two. |
| `CoverageRatchet.RateIs` | scripts/check_per_file_coverage.py:188-199 | The rate times the statements is 100 times the covered ones; without statements it is 100. |
| `CoverageRatchet.LostLineRegressesExactly` | scripts/check_per_file_coverage.py:150-155 | A listed file below the floor that loses one covered line regresses iff its recorded rate exceeded its old one by more than the tolerance exceeds one statement; up to 50 statements, iff it exceeded it at all. |
| `CoverageRatchet.LostLineCanBeAbsorbed` | scripts/check_per_file_coverage.py:150-155 | 7 of 19 recorded at 36.8, then 6: still exempt. |
| `CoverageRatchet.LastLineWins` | scripts/check_per_file_coverage.py:311-318 | A rate is recorded for a path iff the last line that reads as the path has that rate. |
| `CoverageRatchet.ReadBaseline` | scripts/check_per_file_coverage.py:311-318 | The loop computes the baseline that `LastLineWins` characterises. |
| `CoverageRatchet.EvaluateFiles` | scripts/check_per_file_coverage.py:485-523 | The one pass sorts every file into its class, in report order, and lists the unmeasured entries sorted. |
| `CoverageRatchet.VerdictsAre` | scripts/check_per_file_coverage.py:495-521 | A file is a new offender iff it is below the floor and unlisted; regressed, with its recorded rate, iff below the floor and further under that rate than its tolerance; graduated iff listed and clear of the floor by it. |
| `CoverageRatchet.StaleAre` | scripts/check_per_file_coverage.py:522 | The stale entries are those of no file in the report, sorted. |
| `CoverageRatchet.CountsAre` | scripts/check_per_file_coverage.py:495-521 | The passing and exempt files are counted each once. |
| `CoverageRatchet.PassesExactly` | scripts/check_per_file_coverage.py:480-516 | The gate passes iff every unlisted file meets the floor and every listed one is neither clear of it by its band nor, if below it, more than its band under its recorded rate. |
| `CoverageRatchet.PruneBaseline` | scripts/check_per_file_coverage.py:346-425 | The refresh as written computes what the following rows and `KeptIsVerbatim` state. |
| `CoverageRatchet.PruneWritesExactly` | scripts/check_per_file_coverage.py:406-419 | It writes iff no line records a path, or some line records the path of a file in the report. |
| `CoverageRatchet.RefreshKeepsExactly` | scripts/check_per_file_coverage.py:388-404 | A path stays iff it is recorded and its file is in the report and not clear of the floor by its tolerance; its rate stays too. |
| `CoverageRatchet.RefreshReports` | scripts/check_per_file_coverage.py:421-425 | The count reported is that of the lines written that are entries; the refused are the files below the floor that no line records. |
| `CoverageRatchet.SortByPath` | scripts/check_per_file_coverage.py:337 | Seeding and refusing list the files they are given, each as often. |
| `CoverageRatchet.SortByPathSorts` | scripts/check_per_file_coverage.py:337 | They list them in ascending order of path. |
| `CoverageRatchet.KeptBaseline` | scripts/check_per_file_coverage.py:355-364 | The baseline after a refresh is the one before, restricted to the paths that stay: no rate changes, duplicates included. |
| `CoverageRatchet.KeptIsVerbatim` | scripts/check_per_file_coverage.py:358-362 | The kept lines are a subsequence of the old ones with every comment. |
| `CoverageRatchet.RefreshClearsOnlyWhatItShould` | scripts/check_per_file_coverage.py:346-425 | Enforcing the same report after a refresh finds no graduate and no stale entry, the same new offenders, regressions and exemptions, the graduates among the passing; the refused are the new offenders; a second refresh changes nothing. |
| `CoverageRatchet.BaselineOnlyShrinks` | scripts/check_per_file_coverage.py:370-383 | No history of enforcing and refreshing adds a path or changes a rate, and each later baseline is part of each earlier one. |
| `CoverageRatchet.AcceptedFilesKeepTheSeedMark` | scripts/check_per_file_coverage.py:485-516 | After any history, a file below the floor in an accepted report was in the first baseline and is within its tolerance of the rate recorded there. |
| `CoverageRatchet.DroppedIsNeverExemptAgain` | scripts/check_per_file_coverage.py:373-378 | A path once out of the baseline fails as a new offender whenever it is below the floor, after any further history. |
| `CoverageRatchet.SeedThenEnforcePasses` | scripts/check_per_file_coverage.py:330-343 | Seeding and then enforcing the same report passes, although rates are recorded to one decimal. |
| `CoverageRatchet.SeedRecordsBelow` | scripts/check_per_file_coverage.py:330-343 | A seeded baseline records every file below the floor and nothing else, each at its rate to one decimal. |
| `CoverageRatchet.SeededTextPasses` | scripts/check_per_file_coverage.py:330-343 | Through the text of the lines and `_parse_entry`: the seeded report passes iff every file below the floor has a path without spaces or hashes. |
| `EncodingRatchet.JudgeTree` | scripts/check_subprocess_encoding.py:346-381 | The two loops compute the four verdicts, each in sorted order. |
| `EncodingRatchet.ListsAre` | scripts/check_subprocess_encoding.py:357-380 | Of the files in scope, new are those with violations and no entry, grown those with more than their entry, shrunk the entries with fewer left. |
| `EncodingRatchet.AddedLinesAre` | scripts/check_subprocess_encoding.py:368-377 | A line is reported for a file iff it is a violation on an added line of a listed file in scope that has not grown. |
| `EncodingRatchet.VerdictsAreSorted` | scripts/check_subprocess_encoding.py:365-381 | The three lists ascend without repetition, and no file is reported without a line. |
| `EncodingRatchet.ShrinkBaseline` | scripts/check_subprocess_encoding.py:336-343 | The refresh lowers each entry to what is left and drops clean ones, whatever the order of the entries. |
| `EncodingRatchet.RefreshedEntry` | scripts/check_subprocess_encoding.py:336-343 | An entry stays iff its file still has violations, and is the smaller of the entry and their number. |
| `EncodingRatchet.AcceptsExactly` | scripts/check_subprocess_encoding.py:366-381 | The gate passes iff every file in scope has exactly as many violations as recorded (none when unlisted) and none of them lies on an added line. |
| `EncodingRatchet.ScopedEqualsUnscoped` | scripts/check_subprocess_encoding.py:352-356 | From a tree within its baseline, judging only the touched files finds the new offenders and grown files that judging the whole tree would. |
| `EncodingRatchet.AcceptanceKeepsBounded` | scripts/check_subprocess_encoding.py:346-381 | A scoped judgement finds nothing new or grown iff the whole new tree is within the baseline. |
| `EncodingRatchet.RefreshHidesNothing` | scripts/check_subprocess_encoding.py:336-343 | A refresh adds and raises no entry, empties the shrunk list, and leaves the other three verdicts as they were. |
| `EncodingRatchet.RefreshKeepsBounded` | scripts/check_subprocess_encoding.py:336-343 | The tree is within the refreshed baseline iff it was within the old one. |
| `EncodingRatchet.HistoryOnlyShrinks` | scripts/check_subprocess_encoding.py:346-381 | Over any history of accepted changes, refreshed or not, the whole tree stays within its baseline, the baseline only falls, and no file ever exceeds what the first one allowed. |
| `ContributorEntry.EntryIsOneSafeLine` | scripts/update_contributors.py:77-101 | Whatever the name contains, the entry is one line and its attribute text has no quote or angle bracket. |
| `ContributorEntry.EntryText` | scripts/update_contributors.py:97-101 | The entry, character by character, for the login and the escaped display name. |
| `ContributorEntry.EscapeIs` | scripts/update_contributors.py:96 | Escaping goes character by character: five become entities, every other stays. |
| `ContributorEntry.DisplayIs` | scripts/update_contributors.py:95 | The name shown is its words with one space between them, or the login if it has none. |
| `Contributors.FindBlock` | scripts/update_contributors.py:129-148 | The two loops find the block characterised by `BlockIsExact`. |
| `Contributors.BlockIsExact` | scripts/update_contributors.py:129-148 | A span is returned iff it is one contiguous run holding all entry lines; "no block" iff there is no entry line; else there is a gap. |
| `Contributors.ChooseNew` | scripts/update_contributors.py:220-234 | The first pass lists, in order, the logins of the records that `NovelAreFirsts` names. |
| `Contributors.NovelAreFirsts` | scripts/update_contributors.py:220-234 | They are, in the order of the batch, the first record of each valid folded login that is neither credited nor opted out. |
| `Contributors.CreditsAre` | scripts/update_contributors.py:214-217 | A login counts as credited iff some line of the text links its profile. |
| `Contributors.PendingMeansNovel` | scripts/update_contributors.py:248-257 | The second pass finds a login pending iff the first pass chose that very record. |
| `Contributors.InsertPending` | scripts/update_contributors.py:248-263 | So the second pass inserts exactly the chosen records, each once, in order. |
| `Contributors.InsertEntry` | scripts/update_contributors.py:257-263 | An entry goes before the first entry with a greater folded login, or at the end. |
| `Contributors.AppendedExactly` | scripts/update_contributors.py:241-263 | An entry is appended iff no entry of the block, sorted or not, has a greater folded login. |
| `Contributors.PositionStops` | scripts/update_contributors.py:257-262 | That position is the first such entry's: none before it comes after the new login. |
| `Contributors.AddContributors` | scripts/update_contributors.py:187-268 | The whole operation on text: the block's error, the text unchanged when nobody is new, or the new text and the logins added. |
| `Contributors.ExistingLinesStay` | scripts/update_contributors.py:194-199 | Existing lines are a subsequence of the new ones, those around the block are in place, the block stays one run and grows by the new entries, and a block sorted by folded login stays sorted. |
| `Contributors.EachNewLoginOnce` | scripts/update_contributors.py:217-234 | A valid login of the batch that is neither credited nor opted out is entered on exactly one line afterwards; an opted-out or credited one gains no line. |
| `Contributors.NewTextHasTheNewLines` | scripts/update_contributors.py:264-268 | The new text splits into the new lines, except that a last empty line without a final newline is lost. |
| `Contributors.FinalNewline` | scripts/update_contributors.py:265-267 | The new text ends with a line feed iff the old one ended with a line feed or a carriage return, or its last line is empty. |
| `ContributorEnds.WritingBackIsExact` | scripts/update_contributors.py:208-211 | Splitting a text and joining its lines gives it back iff all its line boundaries are line feeds, or all are carriage return and line feed. |
| `ContributorEnds.NewlineFits` | scripts/update_contributors.py:209 | The newline detected is the text's own whenever all its boundaries are line feeds, or all are carriage return and line feed. |
| `ContributorEnds.MixedEndsAreRewritten` | scripts/update_contributors.py:208-209 | A text with a line feed and a carriage return with line feed comes back with two of the latter. |
| `ContributorEnds.LineEndsStayExactly` | scripts/update_contributors.py:194-211 | When somebody is added, the existing lines with their line ends are a subsequence of the new ones with theirs iff all boundaries are line feeds or all are carriage return and line feed, and, unless the text is ended, something follows the block or everybody added has an entry after them in it. |
| `Contributors.EntryLinesPrintLines` | scripts/update_contributors.py:89-94 | With the script's own printer, a batch whose valid logins are single lines prints single lines, as the results above ask. |
| `Contributors.AddingAgainChangesNothing` | scripts/update_contributors.py:196-199 | Applying the batch again, or any part of it in any order, returns the text unchanged and adds nobody. |
| `VendorManifest.ParseManifest` | scripts/verify_vendor_manifest.py:111-126 | The loop returns the recorded hashes or the number of the first malformed line. |
| `VendorManifest.ErrorIsFirstMalformed` | scripts/verify_vendor_manifest.py:118-126 | Parsing fails iff some line is malformed, and at the first one. |
| `VendorManifest.EntryIsExact` | scripts/verify_vendor_manifest.py:119-125 | A line is an entry iff it is a digest of 64 characters, two spaces, the vendored directory and the path, with no two spaces together earlier. |
| `VendorManifest.SkippedIsBlank` | scripts/verify_vendor_manifest.py:119-120 | A line is skipped iff all its characters are spaces. |
| `VendorManifest.RoundTripExactly` | scripts/verify_vendor_manifest.py:103-126 | Parsing what was printed gives the map back iff every digest has 64 characters, no two spaces together and none at the end, and no digest or path crosses a line; the empty map included. |
| `VendorManifest.RenderedLine` | scripts/verify_vendor_manifest.py:103-108 | Sound hashes are printed one line a path, ascending: the digest, two spaces, the vendored directory and the path. |
| `VendorManifest.PrintedExactly` | scripts/verify_vendor_manifest.py:114-116 | A text parses and is what printing its map emits iff every line is ended by a line feed and the lines are one empty line, or entries in strictly ascending order of path. |
| `VendorManifest.ParsedTextHasANormalForm` | scripts/verify_vendor_manifest.py:103-126 | Whatever text parses, printing the result and parsing it again gives the same map. |
| `VendorManifest.RepeatedPathIsAccepted` | scripts/verify_vendor_manifest.py:114-125 | A second line for a path is accepted and wins. |
| `VendorManifest.DiffIsExact` | scripts/verify_vendor_manifest.py:129-145 | The three lists are sorted without repetition and pairwise disjoint, and together hold exactly the paths the maps disagree about, each on the list for how they do. |
| `VendorManifest.NoDifferenceMeansEqual` | scripts/verify_vendor_manifest.py:129-145 | All lists are empty iff the maps are equal. |
| `VendorManifest.JustWrittenChecksClean` | scripts/verify_vendor_manifest.py:103-145 | A tree checks clean against the manifest just written from it iff its hashes print soundly, and then no other tree does. |
| `LineText.EndedLinesReadBack` | scripts/update_contributors.py:265-267 | Single lines joined and ended with a newline split into themselves. |
| `LineText.JoinedLinesReadBack` | scripts/update_contributors.py:264-265 | Joined without a final newline they do too, except that an empty last line is lost. |
| `LineText.LineApart` | scripts/update_contributors.py:211 | A line and its boundary, the pair of carriage return and line feed or a single boundary character, come off the front of a text. |
| `LineText.WordsApart` | scripts/update_contributors.py:95 | A space between two texts separates their words. |
| `LineText.CharactersAre` | scripts/update_contributors.py:89-94 | The ten characters that end a line and the others that are spaces. |
| `StringOrder.LeIsLexicographic` | scripts/verify_vendor_manifest.py:106 | The order of `sorted`: a prefix first, else the smaller character at the first difference. |

## Left out

- WorkerSlots.Claim: one claim sees the other runs only through the answers it meets; the interleaving itself is SlotProtocol's.
- The fail-open returns of a claim (unusable or linked slot directory) are a branch of WorkerSlots.Claim; in SlotProtocol such runs take no part. Host names, slot paths, the readings themselves and all warnings are inputs or omitted; closing a file is part of unlocking it.
- IcnsContainer.WriteIcns: image decoding is not modelled; a rendered size comes with its PNG bytes and its planes.
- ChangelogHistory: the grammar and the character classes are functions of a line with its end. `_headings` matches a line that keeps a carriage return where `draft_headings` does not; both patterns of `src/junction/changelog.py` ignore trailing white space, so one function stands for both; problem texts are reduced to their kind and release.
- NpmAudit.CollectFindings: findings are a map from package and advisory id (the lockfile is constant), without the sorted listing; JSON decoding, record validation (taken as the precondition that references are closed, ids and severities are well formed) and the metadata sum are inputs. Exceptions to findings and their expiry are conjunctions of field checks.
- FocusCue.BlankRange: the newline test of the block-comment loop is kept in the line-comment loop, whose range holds none. The tag and class-name rules of the scan are regular expressions and not modelled.
- CoverageMerge: XML decoding, and the conversion of a malformed number, are not modelled.
- CoverageRatchet.SeededTextPasses: rates are exact rationals and rounding to one decimal is bounded by 0.05; float rounding is not modelled. Baseline lines are those that passed validation.
- EncodingRatchet.JudgeTree: the offending added lines of a file are a set, without their sorted listing; the scan itself is syntax-tree work. Reading and writing the baseline file are left out.
- EncodingRatchet.ScopedEqualsUnscoped: that the scope covers every file the change alters is assumed, as the script assumes it of the changed paths it loads.
- Contributors: the entry, login and profile patterns are parameters with the assumptions in `Coherent`; the profile links of a text are those of its lines. Records are taken as coerced (stripped), which is what keeps a valid login free of line breaks. Writing the file atomically is left out.
- VendorManifest.ParseManifest: hashing and walking the tree, and the refusal of links and caches, are left out.
- File systems, subprocesses, network calls, argument parsing and printing everywhere; the other gates of the repository, which are mostly field checks, regular-expression tables or weaker copies of the ratchets above.
