# The enforcement tooling, verified

A Dafny model of the parts of this repository's enforcement tooling that have real state, loops and
search: the mutation runner, the dependency gates, the line scanners, the text fitter of the deck,
the figure rewriter and the build-tree sweep. Each module follows one source file, or one piece of it.

| module | source | subject |
|---|---|---|
| `WorkingTree`, `MutationProtocol` | `tools/mutation-audit.py` | lock, sidecar record and sources; any number of runs, signalled or killed between any two writes |
| `Replacement`, `MutationAudit` | `tools/mutation-audit.py` | bounded replacement, verdicts, the catalogue check, one whole run |
| `DependencyGraph`, `CodeLines` | `xtask/src/main.rs` | cycle search and layer rules; comment-aware line count |
| `Reachability` | `xtask/src/surfaces.rs` | the worklist closure and the list of excused crates |
| `LockOrder` | `xtask/src/lockorder.rs` | the streaming list of held guards |
| `Searches`, `Catalogues` | `xtask/src/{catalogues,logging,surfaces}.rs` | three skip-ahead searches, the error catalogue, logged fields |
| `Objectives` | `xtask/src/objectives.rs` | objective ranges and the table comparison |
| `TextFit` | `tools/deck/theme.py` | greedy wrapping and the font fitter |
| `Figures`, `DocNumbers` | `xtask/src/docnumbers.rs` | printing, reading, checking and rewriting quoted figures on one line |
| `ToolFigures` | `xtask/src/docnumbers.rs` | the tool's own markers, reader and words, on the text of a line |
| `Turns`, `Aiming`, `Patching`, `Collisions` | `xtask/src/docnumbers.rs` | lines with any number of stale figures, respelled one after another |
| `Documents` | `xtask/src/docnumbers.rs` | whole documents, checked, rewritten and read back |
| `BuildTree` | `xtask/src/buildtree.rs` | the sweep of superseded artefacts |
| `Text` | (shared) | the string operations of Rust and Python the others use |

Code that works by changing things is a method, or a class with methods, proved against a function or
a predicate; what the source promises is then proved about that function or predicate. Parts the model
takes as a parameter: the test runner (`tests`), Unicode's alphanumerics (`identifier`,
`alphanumeric`), each crate's test files and manifests (`crates`), the order a directory lists in (`listing`), the
deletions that fail (`stuck`), the processes alive (`alive`), the true counts (`actual`). A few methods
take the reading of one line or manifest as a parameter too (`read`, `identify`); the tool's own readings are
`LockOrder.Reader`, `Objectives.Read`, `Reachability.ReadManifest`, `BuildTree.SplitArtefact` and
`DocNumbers.FigureReader`.

## What the proofs found

- **A run can undo another run's record after releasing the lock.** `restore_and_exit` stays installed until
  the process exits, and `recover` does not look at the lock. A run that has released it, at its normal end
  as in its handler, and is signalled before it is gone, restores whatever the sidecar names and removes it;
  and a handler that interrupted the tests leaves a `finally` to run after its release, which removes the
  sidecar without any second signal. Where another run has begun an entry in between, its defect is left
  without a record. `WindowsComeAbout` gives the runs that open these windows, `LingererLosesADefect` and
  `FinallyLosesADefect` what happens in them. After any run that has kept to it so far, taking the lock is
  safe, then and later, exactly when nobody who has released it is still alive
  (`TakingIsSafeExactlyWhenNobodyLingers`).
- **A record is read back exactly when the path holds no newline** (`RecordRoundTrip`), which
  `MutationProtocol.Sources` therefore asks of the catalogued paths. A record cut short after its path, as a kill
  while it is written can leave it, makes the next recovery cut the source short (`CutRecordCutsTheSource`).
- **`replacen` can hit other text.** The comment in `sync` says that replacing the matched text once cannot
  edit another figure; it replaces the first place the line spells the figure, wherever that is. A turn puts
  its own figure right exactly when that first place is in the run the figure was read from
  (`TurnRepairsExactlyWhenAimed`). On a line with several stale figures an earlier turn can write what a later
  one then hits: `5 tests 4 sequential` becomes `19 tests 4 sequential` where it should be 14 and 9
  (`SecondTurnSpoilsTheFirst`). Every turn is aimed exactly when, on the line as it is at first, each stale
  figure is in one piece, what spells it before its place is a stale figure of an earlier turn, and no earlier
  turn writes what spells it before its place (`AimedInTurnExactlyWhenClear`). Then each stale figure is
  respelled where it stands and nothing else changes (`SyncPatches`), `check` accepts unless a wrong figure is
  one `sync` leaves alone, a word or a figure that starts with a comma, and a second pass is idle
  (`SyncRepairsInTurn`). The other way round this can fail: two misses can cancel out (`MissesCanCancel`). With one
  figure to respell a line it is an equivalence, whatever else on it is wrong (`SyncThenCheck`).
- **`--check` can raise.** `declared_test_targets` reads `[[test]]` blocks with `re`, which the script does not
  import. The check raises exactly when every entry matches its source and some hinted entry's crate has a
  manifest with such a block (`CheckOnly`).
- **A rewritten document loses its carriage returns** and gains a final newline; the text between the figures
  survives exactly where it has no carriage return before a newline and is empty or ends in one (`PrintedBack`).
- **`fit_size` may return a size that does not fit.** It is documented to return a fitting one, and stops
  at the floor without looking. What it returns fits exactly when the first rung at or below the floor does
  (`FittedFitsExactlyWhenTheFloorDoes`). Nor need it be the largest: with the default floor and leading 9 points
  can be returned where 9.25 fit (`BetweenRungsMayFit`). It is the largest exactly when it fits and is the start,
  or the lines it would take just above itself are as high as the box already (`LargestExactlyWhen`). With a
  negative floor it can divide by zero (`DividesByZeroExactlyWhen`). A word longer than a line is never begun on
  the first, so alone it is estimated at a line too many (`LongWordSkipsTheFirstLine`).
- **`code_lines` counts fragments**, so `a /* x */ b` counts twice (`CodeAroundACommentCountsTwice`), and it looks
  for the close from the opening slash on, so `/*/` is a whole comment (`SlashStarSlashIsAComment`). A line comment
  that mentions `/*` counts as code and opens a block comment (`LineCommentOpensABlock`). The result is
  the number of lines with code on them exactly when no line counts more than once (`CountsLinesExactlyWhen`).
- **Resuming after the whole needle is right for every needle the tools build**: they are border-free, given names
  of the shape the tools use. For any other needle it depends on what the overlap exposes: a search is right on
  every text exactly when over no border the first match can be rejected and the second be legal
  (`ExactExactlyWhenNoBorderHarms`), and whatever an identifier is, exactly when the needle is border-free.
- **Layer rules alone admit cycles** inside a layer (`RulesAdmitSameLayerCycles`), and only there
  (`CyclesStayInOneLayer`), so the separate search is needed and is enough.

## Model

| member | source | states |
|---|---|---|
| WorkingTree.RecordRoundTrip | tools/mutation-audit.py:6946-6950 | what `begin` writes is what `recover` reads back, path and text, exactly when the path holds no newline |
| WorkingTree.RecoveredMeaning | tools/mutation-audit.py:6961-6972 | recovery gives the file the record names, if it is there, the record's text; no other file, and not the lock, differs, and the record is gone |
| WorkingTree.CutRecordReads | tools/mutation-audit.py:6961-6972 | of a record cut short, the path and the text are read as far as they go |
| WorkingTree.CutRecordCutsTheSource | tools/mutation-audit.py:6961-6972 | so recovery from a record cut short once its path was written cuts the source short too, to nothing where the text was not begun |
| WorkingTree.Workspace.TakeLock | tools/mutation-audit.py:6913-6932 | refused exactly for a readable, foreign, living owner, and then nothing changes; otherwise the lock is this run's and nothing else changes |
| WorkingTree.Workspace.ReleaseLock | tools/mutation-audit.py:6935-6943 | the lock goes unless it names another run; sources and record stay |
| WorkingTree.Workspace.Begin | tools/mutation-audit.py:6946-6950 | only the record changes |
| WorkingTree.Workspace.Finish | tools/mutation-audit.py:6953-6958 | the file has its original and the record is gone; lock and other files stay |
| WorkingTree.Workspace.Recover | tools/mutation-audit.py:6961-6972 | the step-by-step recovery is the function the protocol theorems are about |
| MutationProtocol.StepKeeps | tools/mutation-audit.py:7211-7312 | every write, signal and kill of any process, one that has released the lock included, keeps the invariant as long as the lock is taken only when no such process is alive: at most the recorded file differs from the true sources, the record holds the truth, one process is inside, and its own next write is right |
| MutationProtocol.RecoveryProgress | tools/mutation-audit.py:6961-6972 | a recovery started over any recorded damage always has a next step, keeps the lock as it is and never leaves damage unrecorded |
| MutationProtocol.EveryReachableStateIsSafe | tools/mutation-audit.py:6913-6972 | over all runs that take the lock only when nobody who released it is alive: one process at most holds it, one file at most differs, and then the record names it and holds its original |
| MutationProtocol.RecoverRestoresEverything | tools/mutation-audit.py:6961-6972 | after any such run, an interrupted recovery included, `recover` gives back every source and leaves no record |
| MutationProtocol.DeadOwnerNeverBlocks | tools/mutation-audit.py:6915-6932 | after any such run, where no living process owns the lock on file, a new run takes it, recovers and is ready over the true sources, in five steps at most |
| MutationProtocol.LingererLosesADefect | tools/mutation-audit.py:7221-7228 | whatever phase a process that has released the lock is in, once another takes it there is a run, keeping to the condition from then on, in which a late signal leaves a defect without a record |
| MutationProtocol.FinallyLosesADefect | tools/mutation-audit.py:7221-7228 | any process's pending `finally` does so without a second signal, for any other source, in a run that keeps to the condition from then on |
| MutationProtocol.WindowsComeAbout | tools/mutation-audit.py:7221-7290 | runs that keep to the condition reach each such window: after a normal end, after a handler's release with a `finally` pending, and within that `finally` |
| MutationProtocol.SignalIsHandledExactlyWhen | tools/mutation-audit.py:7221-7228 | a signal runs the handler exactly once the handlers are installed, in any phase from then on; by itself it writes nothing and takes or gives back no lock |
| MutationProtocol.SignalEndsTheRun | tools/mutation-audit.py:7222-7228 | a signal at any moment from then on, of a run or of what lingers of it: after an exact number of its own steps, seven at most, the process is gone, every source is true, no record is left, the lock is absent or another's, and no other process is touched |
| MutationProtocol.EntryComesBack | tools/mutation-audit.py:7253-7277 | an entry nothing interrupts puts its defect in its file under a true record, and ends with the system as it was |
| MutationProtocol.EndedRunIsGone | tools/mutation-audit.py:7281-7312 | a run that ends between entries releases the lock over the true sources and is gone |
| MutationProtocol.HolderTurnsOthersAway | tools/mutation-audit.py:6913-6932 | after any guarded run, while one process holds the lock another that tries is turned away, and nothing else changes |
| MutationProtocol.AnyoneCanBeKilled | tools/mutation-audit.py:7221 | any process can be killed at any moment, and nothing else comes of it |
| MutationProtocol.TakingIsSafeExactlyWhenNobodyLingers | tools/mutation-audit.py:7211-7312 | after any run that kept to the condition, a process that takes the lock leaves every continuation that keeps to it safe if and only if nobody who released the lock is alive at that moment |
| Replacement.PiecesRejoin | tools/mutation-audit.py:7176-7181 | the count of non-overlapping occurrences is one less than the pieces they separate, and the pieces joined by the text are the source |
| Replacement.PiecesAreFree | tools/mutation-audit.py:7176-7181 | no piece holds the text any more, so every occurrence was accounted for |
| Replacement.BoundCoversAll | tools/mutation-audit.py:7266 | a bound no less than the count replaces every occurrence: the pieces joined by the replacement |
| Replacement.FirstOnesReplaced | tools/mutation-audit.py:7266 | a bound under the count replaces the first so many occurrences, in order, and no other |
| Replacement.FirstGapsFilled | tools/mutation-audit.py:7266 | and with an empty text to find, the first so many gaps between characters |
| Replacement.BoundMeaning | tools/mutation-audit.py:7266 | a negative bound replaces every occurrence, a bound of zero none |
| Replacement.ReplacementLength | tools/mutation-audit.py:7266 | the length changes by the number replaced times the difference in length, for every bound and also for an empty text to find |
| MutationAudit.CaughtExactlyWhenATestFailed | tools/mutation-audit.py:7002-7056 | a mutation is caught exactly when cargo's output shows a failed test and no compile error, of the named target, or of the whole crate where the target is inconclusive or not named; the exit code never decides it |
| MutationAudit.HintsAreNotTrustedToPass | tools/mutation-audit.py:6987-7056 | surviving and not running are only reported when the whole crate was inconclusive, and an inconclusive hint changes no verdict |
| MutationAudit.VerdictExactlyWhen | tools/mutation-audit.py:6987-7056 | each of the five verdicts, in what cargo printed and returned in the run it rests on: the named target's, or the whole crate's where that is inconclusive or not named |
| MutationAudit.MatchesExactlyWhen | tools/mutation-audit.py:7167-7181 | an entry that declares no count matches where its text occurs once, one that does where it occurs so often and more than never |
| MutationAudit.HintMeaning | tools/mutation-audit.py:7097-7105 | a hint that names a target is accepted exactly when no manifest of the crate has a `[[test]]` block and the target's file is there; with such a block looking it up raises |
| MutationAudit.DeclaredTargets | tools/mutation-audit.py:7059-7078 | looking up a crate's targets raises exactly when one of its manifests holds a `[[test]]` block |
| MutationAudit.CheckHintsAndDuplicates | tools/mutation-audit.py:7081-7113 | raises exactly when the targets of some hinted entry's crate do; no problem exactly when every hint names a declared target and no two entries are the same edit of the same site |
| MutationAudit.CheckOnly | tools/mutation-audit.py:7116-7208 | 0 exactly when every entry's text occurs exactly as often as the entry declares, its hint exists and its site is new; it raises exactly when all match and a hinted entry's lookup raises; else 1 |
| MutationAudit.AcceptedEntryReplacesAll | tools/mutation-audit.py:7167-7181 | for an accepted entry the bounded replacement of a run is the replacement of every occurrence, and the length changes by exactly the count times the difference |
| MutationAudit.SelectedInOrder | tools/mutation-audit.py:7230-7231 | just the entries whose title holds the pattern are selected, each once, in the catalogue's order |
| MutationAudit.ClassMeaning | tools/mutation-audit.py:7253-7277 | an entry is stale exactly when its text is not there, and else killed or a survivor exactly when the deciding run saw a test fail or was inconclusive |
| MutationAudit.CleanReport | tools/mutation-audit.py:7253-7277 | the three lists are empty exactly when every entry matches its source and its verdict is `caught` |
| MutationAudit.TryEntry | tools/mutation-audit.py:7253-7277 | one turn of the loop: files, record and lock end as they were, and the entry joins the list its verdict calls for |
| MutationAudit.RunEntries | tools/mutation-audit.py:7252-7277 | every turn starts on the same tree; it raises exactly when a selected file is missing |
| MutationAudit.RunAudit | tools/mutation-audit.py:7211-7308 | a refused run changes nothing and returns 2; any other leaves the recovered sources, returns 2 exactly when no title holds the pattern, raises exactly when an entry whose title does cannot be read, and where all can be read returns 0 exactly when there is one and for each the text occurs and the deciding run on the mutated sources saw a test fail |
| MutationAudit.KilledIsSeenToFail | tools/mutation-audit.py:7253-7277 | all entries are killed exactly when for each its text occurs and on its mutated sources the deciding run saw a test fail |
| MutationAudit.EndsRightly | tools/mutation-audit.py:7253-7308 | the exit code, said of the catalogue, the pattern and what cargo prints |
| MutationAudit.ReportMeaning | tools/mutation-audit.py:7253-7277 | a title is listed as missing, survived or unproven exactly when a wanted entry under it does not occur, was inconclusive, or was refused by the compiler or hung |
| MutationAudit.CheckedRunIsNeverStale | tools/mutation-audit.py:7167-7181 | a run over a catalogue the check accepts finds every file and reports no stale entry, whatever pattern selects |
| DependencyGraph.ReportIsCycle | xtask/src/main.rs:551-555 | a walk whose last crate repeats an earlier one holds a closed walk, so a report is never a false alarm |
| DependencyGraph.CycleSearch.Enter | xtask/src/main.rs:561-562 | the open crates stay exactly the stack, which stays a walk |
| DependencyGraph.CycleSearch.Leave | xtask/src/main.rs:570-571 | the finished crates stay an order in which every edge leads back to an earlier one |
| DependencyGraph.CycleSearch.Visit | xtask/src/main.rs:542-573 | a list returned is a walk that ends where it has been; otherwise the stack is as it was and the crate is finished |
| DependencyGraph.FinishedIsAcyclic | xtask/src/main.rs:570-572 | a graph all of whose crates are finished in such an order has no closed walk |
| DependencyGraph.FindCycle | xtask/src/main.rs:533-580 | `None` exactly when the internal graph is acyclic; a list is a walk of real edges whose last entry is an earlier one |
| DependencyGraph.CheckDependencies | xtask/src/main.rs:467-508 | the edges of one crate pass exactly when each internal one is allowed by the layers and the packs' allowance |
| DependencyGraph.CheckLayers | xtask/src/main.rs:459-521 | with the tool's own allowance, passes exactly when every internal edge obeys the direction rules and the graph is acyclic; for distinct names and ordinary layers, exactly when no crate depends on one in a higher layer and none depend on each other in a circle |
| DependencyGraph.OrdinaryPassesExactlyWhen | xtask/src/main.rs:466-509 | a crate of an ordinary layer passes exactly when what it depends on is no pack, no tooling and in no higher layer |
| DependencyGraph.ToolingPassesExactlyWhen | xtask/src/main.rs:466-509 | tooling passes exactly when it depends on no pack and no tooling, whatever the layer |
| DependencyGraph.PackPassesExactlyWhen | xtask/src/main.rs:463-480 | a pack passes exactly when each crate it depends on is one of three by name, in whatever layer |
| DependencyGraph.LaterStands | xtask/src/main.rs:462 | of crates with one name the last is the one looked up |
| DependencyGraph.EdgesAreDependencies | xtask/src/main.rs:466-470 | an edge of the graph is a crate of the list naming another |
| DependencyGraph.AcyclicMeansNoCircle | xtask/src/main.rs:523-580 | the graph is acyclic exactly when no crates of the list depend on each other in a circle |
| DependencyGraph.RulesHoldExactlyWhenDownward | xtask/src/main.rs:466-509 | over ordinary layers the rules hold exactly when every dependency points down or along its own layer |
| DependencyGraph.CyclesStayInOneLayer | xtask/src/main.rs:466-509 | where the direction rules report nothing, any cycle lies in one layer, the pack and tooling exemptions included |
| DependencyGraph.OnlySameLayerCyclesRemain | xtask/src/main.rs:498-514 | under the rules, being acyclic is having no cycle within a layer |
| DependencyGraph.RulesAdmitSameLayerCycles | xtask/src/main.rs:498-514 | two crates of one ordinary layer depending on each other pass every rule, so the search is needed |
| CodeLines.TextAgrees | xtask/src/main.rs:582-623 | line by line with a flag, or in one scan of the whole text: the same count and the same open comment at the end |
| CodeLines.TrimmedLine | xtask/src/main.rs:586 | trimming a line changes neither what is counted nor whether a comment stays open |
| CodeLines.CountLine | xtask/src/main.rs:586-620 | one line, from inside or outside a comment, adds what the scan of that line alone counts |
| CodeLines.CountFragments | xtask/src/main.rs:596-620 | the inner loop counts each head before a comment and the last fragment unless it starts with `//` |
| CodeLines.Count | xtask/src/main.rs:582-623 | the number of non-blank fragments outside comments in one scan of the text, a line's last fragment not counting where it starts with `//` |
| CodeLines.CountsLinesExactlyWhen | xtask/src/main.rs:582-623 | it is never less than the number of lines with something counted on them, and is that number if and only if no line, from the flag it starts with, counts more than once |
| CodeLines.CodeAroundACommentCountsTwice | xtask/src/main.rs:596-611 | `a /* x */ b` counts two |
| CodeLines.SlashStarSlashIsAComment | xtask/src/main.rs:596-599 | `/*/` counts nothing and leaves no comment open |
| CodeLines.PlainLineCountsExactlyWhen | xtask/src/main.rs:616-620 | a line on which no block comment opens counts unless it is blank or starts, after blanks, with `//` |
| CodeLines.HeadCountsExactlyWhen | xtask/src/main.rs:596-611 | what stands before a line's first block comment counts unless it is blank, two slashes or not |
| CodeLines.LineCommentOpensABlock | xtask/src/main.rs:596-611 | a line comment that mentions an open and no close counts as code and leaves a block comment open |
| Reachability.DependsExactlyWhenNamed | xtask/src/surfaces.rs:387-405 | a crate depends on exactly the names whose lines come, in its manifest's text, before any dev-dependencies header; the manifest under `crates/` is the one read where there is one |
| Reachability.LineIsRead | xtask/src/surfaces.rs:397-404 | a line ends the reading exactly when it is blanks, `[dev-dependencies]` and anything, and names a crate exactly when that is its key, trimmed, up to the first `=`, and starts with `sankhya-` |
| Reachability.ReasonIsTheFirst | xtask/src/surfaces.rs:342 | the excuse of a crate is the first entry under its name |
| Reachability.PushDependencies | xtask/src/surfaces.rs:394-405 | the names before the dev-dependencies are queued, in order, and nothing else |
| Reachability.ReachableFrom | xtask/src/surfaces.rs:378-408 | terminates on every tree, cycles and repeated entries included, with exactly the crates some chain of non-dev dependencies reaches from the start |
| Reachability.ReachAll | xtask/src/surfaces.rs:313-324 | what the server reaches, or any root does |
| Reachability.EveryCrateIsReachableOrOwned | xtask/src/surfaces.rs:309-369 | passes exactly when the excused crates are exactly the unreached ones; panics exactly when an unreached crate's excuse is too short |
| LockOrder.BindsWhereItEndsAtTheCall | xtask/src/lockorder.rs:42-60 | a name is bound exactly where the line is a `let` of it that ends, but for blanks, with the lock call and a semicolon |
| LockOrder.BindsExactlyTheLet | xtask/src/lockorder.rs:42-60 | on the text: a name is bound exactly where the line is blanks, `let `, `mut ` any number of times, blanks, the name, blanks, then nothing or the first `=` and anything, a lock call, a semicolon and blanks |
| LockOrder.CodeOfMeaning | xtask/src/lockorder.rs:91 | the code of a line is what precedes its first `//` |
| LockOrder.AcquiresExactlyAtACall | xtask/src/lockorder.rs:64-66 | a line acquires exactly where one of the three calls occurs in its code |
| LockOrder.OpensExactly | xtask/src/lockorder.rs:113-114 | the braces counted are all those in a line's code |
| LockOrder.DepthCountsBraces | xtask/src/lockorder.rs:113-114 | from one line to another the depth moves by the braces opened less those closed between them |
| LockOrder.BindingAcquires | xtask/src/lockorder.rs:42-66 | a line that binds a guard is always one that acquires |
| LockOrder.HeldDeepens | xtask/src/lockorder.rs:88 | the held guards, in the order bound, never get shallower |
| LockOrder.HeldIsEmpty | xtask/src/lockorder.rs:93 | the list is empty exactly when no earlier guard's depth has held ever since |
| LockOrder.RetainHeld | xtask/src/lockorder.rs:113-115 | dropping what is bound deeper than the new depth leaves exactly the guards whose depth was never undercut |
| LockOrder.HeldStep | xtask/src/lockorder.rs:109-115 | push, count braces, retain: the list before the next line is again exactly the live guards |
| LockOrder.CheckFile | xtask/src/lockorder.rs:86-116 | a file is clean exactly when no undeclared line acquires while a guard bound on an earlier line is live |
| LockOrder.CleanExactlyWhenNothingNests | xtask/src/lockorder.rs:86-116 | with the check's own reading, on the text: a file is clean exactly when no undeclared line holds a lock call while, since some earlier line that binds a guard, no line has brought the braces under where they were before it |
| LockOrder.SiteNumbersFromOne | xtask/src/lockorder.rs:95 | a declared place is the path, a colon and the line's number from one |
| LockOrder.ScannedExactlyWhen | xtask/src/lockorder.rs:77-84 | a file is scanned exactly when it can be read and neither directory occurs in its path |
| LockOrder.Check | xtask/src/lockorder.rs:68-123 | the gate passes exactly when every readable file outside tests and benches is clean |
| Searches.NoOverlap | xtask/src/catalogues.rs:682 | two occurrences of a border-free needle do not overlap |
| Searches.Constructs | xtask/src/catalogues.rs:668-685 | the loop over byte positions is the skip search that looks left |
| Searches.ContainsWhole | xtask/src/logging.rs:102-122 | the skip search that looks both ways |
| Searches.IsNamed | xtask/src/surfaces.rs:245-260 | the skip search that looks right |
| Searches.SkippingIsExact | xtask/src/catalogues.rs:668-685 | resuming after the whole needle misses no legal occurrence of a border-free needle |
| Text.FindAtIsFind | xtask/src/catalogues.rs:670 | searching the rest of a text from a position is the search the loops use, in positions of the text |
| Searches.ExactExactlyWhenNoBorderHarms | xtask/src/logging.rs:102-122 | for the neighbours a search looks at and the characters it takes for identifiers, it is right on every text if and only if over no border can the first of two overlapping matches be rejected and the second be legal |
| Searches.ExactForAllIdentifiersExactlyWhenBorderFree | xtask/src/logging.rs:102-122 | it is right whatever the identifier characters are if and only if its needle is border-free |
| Searches.ConstructorSearchIsExact | xtask/src/catalogues.rs:620-621 | both constructor shapes are border-free, so the search decides whether some occurrence is not part of a longer name |
| Searches.PathSearchIsExact | xtask/src/surfaces.rs:245-260 | `::kernel` is border-free, so the search decides whether some path ends with the whole name |
| Searches.FieldSearchIsExact | xtask/src/logging.rs:93-97 | the three shapes of a field are border-free, so the filter decides whether the line carries the field whole |
| Searches.LoggedFieldsIsExact | xtask/src/logging.rs:86-99 | a field is reported exactly when it is on the list, the line holds a logging macro and carries the field whole |
| Searches.LegalIsStanding | xtask/src/catalogues.rs:668-685 | a legal occurrence is the needle between two texts that end and start with no identifier character, where the search looks |
| Searches.PathIsNamedExactlyWhen | xtask/src/surfaces.rs:245-260 | a kernel is named exactly where `::` and its name occur with no identifier character after |
| Searches.FieldIsRecordedExactlyWhen | xtask/src/logging.rs:93-97 | a field is recorded exactly where one of its three spellings occurs with no identifier character on either side |
| Catalogues.EveryCodeIsReachableOrDeclared | xtask/src/catalogues.rs:565-653 | passes exactly when each code is constructed or not as a whole, the unreachable list is exactly the codes nothing constructs, and the mapped list holds constructed codes only |
| Catalogues.Produced | xtask/src/catalogues.rs:620-621 | true exactly when some occurrence of either constructor shape is not part of a longer name |
| Catalogues.ConstructedExactlyWhen | xtask/src/catalogues.rs:620-621 | a variant is constructed exactly where `Error::`, its name and `(` or ` {` occur with no identifier character before |
| Catalogues.AcceptedMeansExact | xtask/src/catalogues.rs:588-652 | what the loops test, entry by entry and error by error, is that meaning, both ways and for every catalogue |
| Catalogues.ExactListsAreDisjoint | xtask/src/catalogues.rs:605-613 | the two lists are then disjoint, so the check that they are never fails alone |
| Objectives.InsertNamed | xtask/src/objectives.rs:39-57 | one occurrence adds its number, or each number of its range when that is under 32 wide |
| Objectives.NamedIsNamedSomewhere | xtask/src/objectives.rs:36-59 | reading on after each occurrence misses none: the loop names a number exactly when some occurrence anywhere does, for a needle that cannot overlap itself |
| Objectives.ToolIsExact | xtask/src/objectives.rs:36-57 | the check's own needle cannot overlap itself or run over a line end, and its reader stops at one, so the theorems are about the check |
| Objectives.Objectives | xtask/src/objectives.rs:33-61 | exactly the numbers that some occurrence of the needle names, ranges included |
| Objectives.ReadStopsAtNewline | xtask/src/objectives.rs:38-50 | no number and no range is read across a line end |
| Objectives.NamesExactly | xtask/src/objectives.rs:38-57 | what follows the needle, as digits, ticks, dashes, ticks and digits, each as many as there are, names its first number, and where the second is larger by less than 32 each number between |
| Objectives.ToolNamesExactly | xtask/src/objectives.rs:33-61 | on the text: an objective is named exactly where the needle occurs before such a text |
| Objectives.IsRowExactlyWhen | xtask/src/objectives.rs:83 | a row of the table is blanks, a bar and anything |
| Objectives.JoinIsUnion | xtask/src/objectives.rs:33-61 | the set of two texts joined by a newline is the union of their sets |
| Objectives.JoinedLines | xtask/src/objectives.rs:81-86 | and of any number of lines |
| Objectives.Check | xtask/src/objectives.rs:65-107 | passes exactly when both documents are read, something is stated, and what is stated is what the table's rows name, row by row |
| TextFit.WordsAreTheStretches | tools/deck/theme.py:88 | the words are the text's stretches without spaces, in order, each up to the next space or the end |
| TextFit.WordsHoldAllInk | tools/deck/theme.py:88 | their lengths add up to the characters that are not spaces |
| TextFit.Wrap | tools/deck/theme.py:87-98 | the loop over the words is the placement function the theorems are about |
| TextFit.EstLines | tools/deck/theme.py:76-98 | the empty text is one line; any other is the greedy wrapping at the width in characters |
| TextFit.LongWordAdds | tools/deck/theme.py:88-98 | a word longer than a line adds, to the estimate of any text before it, the lines that hold it |
| TextFit.LongWordSkipsTheFirstLine | tools/deck/theme.py:88-98 | alone it is estimated at a line more than hold it |
| TextFit.EstimateIsABreaking | tools/deck/theme.py:76-98 | for every text the estimate is the lines of a breaking of its words in order that fits, words longer than a line cut, and only the first line may be empty |
| TextFit.HoldsCharactersExactlyWhen | tools/deck/theme.py:80-86 | so many characters go on a line exactly when there are four at most, or their widths at the average advance add up to no more than the line |
| TextFit.Advances | tools/deck/theme.py:81-83 | the average advance of the two families, plain and bold |
| TextFit.StackMeaning | tools/deck/theme.py:100-103 | every line adds the same height, in proportion to size and leading: 1.1 inches at 72 points and a leading of one |
| TextFit.LayoutMonotone | tools/deck/theme.py:86-98 | wider lines never end later, over tokens longer than a line too |
| TextFit.GreedyBreaking | tools/deck/theme.py:88-98 | when every word fits, the lines counted are those of a real breaking that keeps the order |
| TextFit.GreedyIsAhead | tools/deck/theme.py:88-98 | no other breaking of the words ends on an earlier line, or on the same one with more room |
| TextFit.GreedyIsOptimal | tools/deck/theme.py:88-98 | so the wrapping is the minimum over all breakings |
| TextFit.EstimateIsFewest | tools/deck/theme.py:76-98 | for a text with words that all fit on a line, the estimate is attained by a breaking of its words and no breaking takes fewer lines |
| TextFit.EstimateHoldsTheText | tools/deck/theme.py:76-98 | for any text at any size, its characters that are not spaces are no more than lines times characters per line |
| TextFit.NarrowerAtLargerSizes | tools/deck/theme.py:83-86 | a larger size never puts more characters on a line, for negative widths too |
| TextFit.LinesGrowWithSize | tools/deck/theme.py:76-98 | nor takes fewer lines |
| TextFit.HeightGrowsWithSize | tools/deck/theme.py:100-103 | a larger size is never less high, for sizes of either sign |
| TextFit.FittingIsDownward | tools/deck/theme.py:105-110 | a box a size fits, every smaller size fits, down through zero |
| TextFit.FitSize | tools/deck/theme.py:105-110 | the loop ends where the ladder function does, a division by zero included, for any floor |
| TextFit.FittedIsFrontier | tools/deck/theme.py:105-110 | every rung of the half-point ladder above the one where it ends is over the floor and too large, and there it is at the floor, or fits, or has a size of zero to measure at |
| TextFit.DividesByZeroExactlyWhen | tools/deck/theme.py:83-110 | it divides by zero exactly when there is text and zero is a rung over the floor with no fit above it |
| TextFit.FloorIsReached | tools/deck/theme.py:105-110 | with a floor that is not negative it returns a size |
| TextFit.NothingLargerFits | tools/deck/theme.py:105-110 | once it has gone down, no size half a point or more above it fits, on the ladder or off it |
| TextFit.NoneAboveExactlyWhen | tools/deck/theme.py:83-110 | no size just above a size, or further up, fits if and only if the lines at the characters per line just above it are as high as the box already at the size itself |
| TextFit.LargestExactlyWhen | tools/deck/theme.py:106 | what it returns is the largest size at which the text fits, as documented, if and only if it fits and is the start, or meets that condition |
| TextFit.BetweenRungsMayFit | tools/deck/theme.py:106 | with the default floor and leading there is a box for which it does not: 9 points are returned where 9.25 fit |
| TextFit.FittedFitsExactlyWhenTheFloorDoes | tools/deck/theme.py:105-110 | it fits if and only if the first rung at or below the floor does, wherever that can be measured |
| Figures.WithThousands | xtask/src/docnumbers.rs:140-150 | the loop is the grouping function the round trip is about |
| Figures.GroupedShape | xtask/src/docnumbers.rs:140-150 | one to three digits, then groups of a comma and three; without the commas, the digits |
| Figures.ThousandsRoundTrip | xtask/src/docnumbers.rs:312-322 | what is printed with commas is read back as the number |
| Figures.RespellReads | xtask/src/docnumbers.rs:75-82 | whichever style a figure is respelled in, it is read as the actual number |
| Figures.RespellKeepsStyle | xtask/src/docnumbers.rs:75-82 | a figure with a comma is respelled grouped in threes, one without in digits alone |
| Figures.WordNumberMeaning | xtask/src/docnumbers.rs:213-228 | a word is a number exactly when the table has it, or has what stands before and after its first dash, as tens from twenty on and units under ten; capitals count as small letters |
| Figures.LoweredMeaning | xtask/src/docnumbers.rs:221 | lowering changes the capitals of the ASCII alphabet and nothing else |
| Figures.WordsCountUp | xtask/src/docnumbers.rs:214-220 | the table's numbers are one to twenty and the tens to fifty |
| DocNumbers.ClaimedNumbers | xtask/src/docnumbers.rs:243-340 | both loops are the scanning function the theorems are about; a frozen line claims nothing |
| DocNumbers.ClaimsMeaning | xtask/src/docnumbers.rs:286-338 | a claim is listed exactly when one of the markers, its context being on the line, occurs there and a figure is read before it |
| DocNumbers.ToolSettingIsGood | xtask/src/docnumbers.rs:270-285 | the tool's eight markers cannot overlap themselves or each other and hold no figure, and its reader does not look past a space |
| DocNumbers.CheckLine | xtask/src/docnumbers.rs:175-192 | true exactly when every claim of the line is the actual number |
| DocNumbers.SyncLine | xtask/src/docnumbers.rs:54-85 | the line after every claim's replacement, and nothing is touched exactly when no claim in digits is stale |
| ToolFigures.FigureIsRead | xtask/src/docnumbers.rs:311-322 | a figure is read whatever emphasis stands around it, and the emphasis is no part of its spelling |
| ToolFigures.WordIsRead | xtask/src/docnumbers.rs:323-335 | where a marker allows words the word before it is looked up without the punctuation around it, and elsewhere is no claim |
| ToolFigures.BeforeTests | xtask/src/docnumbers.rs:279-290 | a figure before ` tests`, never a word, is compared with the tests |
| ToolFigures.BeforeMutations | xtask/src/docnumbers.rs:279-290 | a figure before one of four texts, never a word, is compared with the mutations |
| ToolFigures.BeforeExamples | xtask/src/docnumbers.rs:279-290 | a figure or word before one of two texts is compared with the examples |
| ToolFigures.BeforeInvariants | xtask/src/docnumbers.rs:279-290 | a figure or word before ` invariants` is compared with the checks, and only on a line that holds `check-all` |
| ToolFigures.OneStandsThere | xtask/src/docnumbers.rs:279-290 | and every claim stands before one of those eight texts |
| ToolFigures.RecordText | xtask/src/docnumbers.rs:235 | the record mark, written out |
| ToolFigures.RecordIsLeft | xtask/src/docnumbers.rs:261-263 | a line that holds the record mark claims nothing and is left as it is |
| ToolFigures.RewriteMeaning | xtask/src/docnumbers.rs:65-83 | a claim changes the line exactly when it is wrong, starts with a digit and occurs: then the first place that spells it is respelled |
| ToolFigures.ClaimsAreInOrder | xtask/src/docnumbers.rs:279-338 | claims come marker by marker in the order of the list, and for each from left to right |
| DocNumbers.ClaimsUnchanged | xtask/src/docnumbers.rs:243-340 | changing one figure changes no claim that a space separates from it |
| DocNumbers.AimedRepairs | xtask/src/docnumbers.rs:83 | on a line that is otherwise right, rewriting the figure before the marker makes the line right |
| DocNumbers.MissedStays | xtask/src/docnumbers.rs:83 | rewriting any other text leaves the stale claim on the line |
| DocNumbers.RewrittenIsRightWhenAimed | xtask/src/docnumbers.rs:83 | so the rewritten line is right if and only if the first place that spells the figure is the figure |
| DocNumbers.SyncRepairsExactlyWhenAimed | xtask/src/docnumbers.rs:54-85 | with one stale figure in digits, `check` accepts the line after `sync` if and only if `sync` was aimed; then only that figure changed and a second pass changes nothing |
| Turns.TurnRepairsExactlyWhenAimed | xtask/src/docnumbers.rs:55-84 | whatever else is wrong on a line, a turn puts its own figure right if and only if it is aimed |
| Turns.TurnTracks | xtask/src/docnumbers.rs:55-84 | after a turn that is aimed, the claims still to come are the ones they were, moved with the text, and every stale claim of the line is among them |
| Turns.ClaimsAreTracked | xtask/src/docnumbers.rs:270-338 | the scan lists no claim twice and leaves no stale one out |
| Turns.SyncRepairsInTurn | xtask/src/docnumbers.rs:54-85 | with any number of stale figures, each aimed at when its turn comes: none is left, a second pass changes nothing, and `check` accepts exactly when every wrong figure was spelled from a digit on |
| Aiming.AimedInTurnExactlyWhenClear | xtask/src/docnumbers.rs:55-84 | every turn is aimed, on the line as it then is, if and only if on the line as it is at first each stale figure is in one piece, is spelled earlier only in stale figures of earlier turns, and is spelled in no earlier replacement before it |
| Aiming.FigureOccurs | xtask/src/docnumbers.rs:83 | a figure occurs before another's place, within it, or after it, never over its edge |
| Patching.SyncPatches | xtask/src/docnumbers.rs:54-85 | on such a line `sync` gives the line read once from left to right with every stale figure respelled where it stands and all other text kept |
| Collisions.SecondTurnSpoilsTheFirst | xtask/src/docnumbers.rs:70-84 | each of two figures can be aimed at on the line as it is, and the second turn still hit what the first wrote |
| Collisions.MissesCanCancel | xtask/src/docnumbers.rs:70-84 | two turns that both miss can leave a line whose figures are both right |
| Documents.CheckDocument | xtask/src/docnumbers.rs:174-193 | true exactly when every line of the document is right |
| Documents.SyncDocument | xtask/src/docnumbers.rs:50-97 | what is left in the file, and it is left alone exactly when no line has a figure to respell |
| Documents.LinesOfPrinted | xtask/src/docnumbers.rs:85-88 | the lines written are the lines read back, less a carriage return at their end |
| Documents.RightBeforeReturn | xtask/src/docnumbers.rs:54-88 | and losing that carriage return changes no verdict |
| Documents.SyncThenCheck | xtask/src/docnumbers.rs:50-97 | where each line has one figure to respell at most, whatever else on it is wrong, or clear ones, `check` passes after `sync` if and only if every wrong figure is in digits and clear; a document that passes is not written by the next `sync` |
| Documents.SyncRepairs | xtask/src/docnumbers.rs:50-97 | a document whose wrong figures are all in digits and clear passes after `sync`, however many they are, and the next `sync` does not write it |
| Documents.AfterIsPatched | xtask/src/docnumbers.rs:50-97 | what is then written is the document's lines with every stale figure respelled where it stands |
| Documents.PrintedBack | xtask/src/docnumbers.rs:54-88 | writing back the lines of a text is no change if and only if it has no carriage return before a newline and is empty or ends in a newline |
| Documents.ToolIsGood | xtask/src/docnumbers.rs:213-285 | the tool's own markers, words and frozen mark meet what the theorem asks |
| BuildTree.SplitRejoins | xtask/src/buildtree.rs:137-149 | a name is parsed as a stem and an extension exactly when it is the stem, a dash, a hash and the extension |
| BuildTree.IsHashExactlyWhen | xtask/src/buildtree.rs:144 | a hash is eight or more hexadecimal digits, in either case |
| BuildTree.BuildDir.GroupArtefacts | xtask/src/buildtree.rs:91-113 | each group is exactly the parsed files of one identity, in listing order; what does not parse is in none |
| BuildTree.BuildDir.RemoveTail | xtask/src/buildtree.rs:122-127 | a file is counted exactly when it went or, in a dry run, would have; nothing else goes |
| BuildTree.BuildDir.SweepDir | xtask/src/buildtree.rs:86-130 | the files gone, the count and the bytes are those of the chosen files that could be deleted, and with what is left add up to what was there; a dry run reports all the chosen and changes nothing |
| BuildTree.NewestFirstMeaning | xtask/src/buildtree.rs:121 | sorting keeps the generations and orders them newest first |
| BuildTree.NewestFirstIsStable | xtask/src/buildtree.rs:121 | those of one moment keep the order they are listed in |
| BuildTree.SweepKeepsNewest | xtask/src/buildtree.rs:116-122 | only files whose names are parsed are chosen; of every group the smaller of two and its size stays, and nothing kept is older than anything chosen |
| BuildTree.SecondSweepRemovesNothing | xtask/src/buildtree.rs:86-130 | after a sweep whose deletions succeeded, another finds nothing, in whatever order it lists |
| BuildTree.AccountedConserves | xtask/src/buildtree.rs:114-130 | files left plus the count, and bytes left plus the bytes, are the originals; a dry run leaves everything |

## Left out

- Writing one whole file is one step, and taking the lock is one step: partial and buffered writes, newline translation on reading and writing, and two runs inside `take_lock` at once.
- Removing a record that another process has just removed, where the source raises; no run that keeps to the condition comes to it.
- An unrelated process that has been given a dead run's process id, and edits to the sources by anyone else; a later run with a dead one's process id is in the model.
- `cargo test` is a function from sources, crate and target to what it printed and returned, or to running out of time.
- The sha-256 digests are modelled as the contents themselves.
- Removing regression seeds after a run.
- The shape check of catalogue entries, which the entry datatype makes always true.
- Printed messages, and the order in which problems are reported.
- Overflow of brace depths and of counts; positions are characters, not bytes.
- Sizes, widths and heights are reals: floating-point rounding is not modelled.
- TextFit.FittedFitsExactlyWhenTheFloorDoes: says nothing where the first rung at or below the floor is zero and there is text, which the source cannot measure.
- TextFit.LargestExactlyWhen: about results over zero and a positive leading.
- LockOrder.BindsExactlyTheLet: asks that no alphanumeric character is a space, as none is in Unicode.
- Searches.FieldSearchIsExact: asks that a field name hold none of `%`, `?` and `=`, as the names on the tool's list do; likewise a variant holds no `(` or `{`, and a kernel no `:`.
- DocNumbers.SyncRepairsExactlyWhenAimed: one stale figure on a line; `Turns` and `Aiming` are about any number of them.
- Turns.SyncRepairsInTurn: asks that each turn is aimed; where some miss, `MissesCanCancel` shows that the outcome does not depend on that alone, and no condition for it is stated beyond what each turn does.
- Documents.SyncThenCheck: asks of each line one figure to respell at most, or clear ones, for the same reason; counts are at most the largest `usize`.
- How the true counts are found (`catalogue_size`, `test_count`, `example_scripts`, `check_tasks`), and failing to write a document.
- BuildTree.BuildDir.SweepDir: the order in which groups are swept is arbitrary in the model and by name in the source; files whose names are not text and entries whose metadata cannot be read are not in the listing.
- Walking directories and parsing `Cargo.toml` into crates and layers: the parsed graph, file list or text is the input.
- Reachability.EveryCrateIsReachableOrOwned: takes the listing of `crates/` as given; where it cannot be listed the source passes.
- The other checks of `xtask` (vocabulary, duplicates, features, packaging, coverage and the rest), the generated Markdown, the drawing of slides, and the storage and query crates.
