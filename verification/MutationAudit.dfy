/** `mutation-audit.py`: the verdict, the catalogue check, and an uninterrupted run of `main`. */
module MutationAudit {
  import opened Text
  import opened WorkingTree
  import opened Replacement

  // ---------- The verdict ----------

  /** What running cargo came to. */
  datatype Outcome = TimedOut | Ran(code: int, output: string)

  datatype Verdict = Caught | Survived | NoCompile | Hung | DidNotRun

  function ReadOutcome(outcome: Outcome): Verdict {
    match outcome
    case TimedOut => Hung
    case Ran(code, output) =>
      if Contains(output, "error[E") || Contains(output, "could not compile") then NoCompile
      else if Contains(output, "test result: FAILED") then Caught
      else if code == 0 then Survived
      else DidNotRun
  }

  /** What cargo comes to on the tests of a crate, or of one named target of it, over the sources as they stand. */
  type Tests = (map<string, string>, string, Option<string>) -> Outcome

  function Named(hint: Option<string>): bool {
    hint.Some? && hint.value != ""
  }

  /** One run of the tests. */
  function Once(tests: Tests, files: map<string, string>, crate: string, target: Option<string>): Verdict {
    ReadOutcome(tests(files, crate, target))
  }

  /** `judge`: a named target's survival, or failure to run, is checked against the whole crate. */
  function Judge(tests: Tests, files: map<string, string>, crate: string, hint: Option<string>): Verdict {
    if Named(hint) then
      var verdict := Once(tests, files, crate, hint);
      if verdict != Survived && verdict != DidNotRun then verdict
      else Once(tests, files, crate, None)
    else Once(tests, files, crate, None)
  }

  /** The harness printed that a test failed, and nothing failed to compile. */
  predicate TestFailed(outcome: Outcome) {
    && outcome.Ran? && Contains(outcome.output, "test result: FAILED")
    && !Contains(outcome.output, "error[E") && !Contains(outcome.output, "could not compile")
  }

  lemma CaughtIsTestFailed(outcome: Outcome)
    ensures ReadOutcome(outcome) == Caught <==> TestFailed(outcome)
  {
  }

  /** The named target neither failed a test nor stopped the build: it ran clean, or cargo could not run it. */
  predicate Inconclusive(outcome: Outcome) {
    && outcome.Ran? && !Contains(outcome.output, "test result: FAILED")
    && !Contains(outcome.output, "error[E") && !Contains(outcome.output, "could not compile")
  }

  lemma InconclusiveIsRetried(outcome: Outcome)
    ensures ReadOutcome(outcome) in {Survived, DidNotRun} <==> Inconclusive(outcome)
  {
  }

  /**
   * A mutation is caught exactly when a test is seen to fail: in the named target, or, where that is
   * inconclusive or not named, in the whole crate. An exit code never makes it so.
   */
  lemma CaughtExactlyWhenATestFailed(tests: Tests, files: map<string, string>, crate: string, hint: Option<string>)
    ensures Judge(tests, files, crate, hint) == Caught
            <==> (Named(hint) && TestFailed(tests(files, crate, hint)))
                 || ((Named(hint) ==> Inconclusive(tests(files, crate, hint))) && TestFailed(tests(files, crate, None)))
  {
    CaughtIsTestFailed(tests(files, crate, hint));
    CaughtIsTestFailed(tests(files, crate, None));
    InconclusiveIsRetried(tests(files, crate, hint));
  }

  /** A hint costs a re-run and never a wrong answer. */
  lemma HintsAreNotTrustedToPass(tests: Tests, files: map<string, string>, crate: string, hint: Option<string>)
    ensures Judge(tests, files, crate, hint) in {Survived, DidNotRun} ==> Inconclusive(tests(files, crate, None))
    ensures Named(hint) && Inconclusive(tests(files, crate, hint))
            ==> Judge(tests, files, crate, hint) == Judge(tests, files, crate, None)
  {
    InconclusiveIsRetried(tests(files, crate, hint));
    InconclusiveIsRetried(tests(files, crate, None));
  }

  /** The build failed. */
  predicate NotBuilt(outcome: Outcome) {
    outcome.Ran? && (Contains(outcome.output, "error[E") || Contains(outcome.output, "could not compile"))
  }

  /** The run of the tests the verdict rests on. */
  ghost predicate RestsOn(tests: Tests, files: map<string, string>, crate: string, hint: Option<string>,
                          outcome: Outcome)
  {
    if hint == None || hint == Some("") || Inconclusive(tests(files, crate, hint)) then
      outcome == tests(files, crate, None)
    else outcome == tests(files, crate, hint)
  }

  /** Each verdict, in what the run it rests on printed and returned. */
  lemma VerdictExactlyWhen(tests: Tests, files: map<string, string>, crate: string, hint: Option<string>,
                           outcome: Outcome)
    requires RestsOn(tests, files, crate, hint, outcome)
    ensures var verdict := Judge(tests, files, crate, hint);
            && (verdict == Hung <==> outcome.TimedOut?)
            && (verdict == NoCompile <==> NotBuilt(outcome))
            && (verdict == Caught <==> TestFailed(outcome))
            && (verdict == Survived <==> Inconclusive(outcome) && outcome.code == 0)
            && (verdict == DidNotRun <==> Inconclusive(outcome) && outcome.code != 0)
  {
    InconclusiveIsRetried(tests(files, crate, hint));
  }

  // ---------- The catalogue ----------

  /** `count` and `hint` are the optional sixth and seventh fields. */
  datatype Entry = Entry(title: string, path: string, find: string, repl: string, crate: string,
                         count: Option<int>, hint: Option<string>)
  {
    function Declared(): int {
      if count.Some? then count.value else 1
    }
  }

  function Mutate(source: string, entry: Entry): string {
    Replace(source, entry.find, entry.repl, entry.Declared())
  }

  /** The entry names the sites it means: as many as it declares, and some. */
  predicate Matches(files: map<string, string>, entry: Entry) {
    && entry.path in files
    && Count(files[entry.path], entry.find) != 0
    && Count(files[entry.path], entry.find) == entry.Declared()
  }

  /** An entry that declares no count means one place. */
  lemma MatchesExactlyWhen(files: map<string, string>, entry: Entry)
    ensures entry.count == None ==>
              (Matches(files, entry) <==> entry.path in files && Count(files[entry.path], entry.find) == 1)
    ensures entry.count.Some? ==>
              (Matches(files, entry)
               <==> entry.path in files && entry.count.value > 0
                    && Count(files[entry.path], entry.find) == entry.count.value)
  {
  }

  /** How a command of the script ends. */
  datatype Exit = Exited(code: int) | Raised

  /** What there is of a crate's tests: the files under `tests/`, and its manifests. */
  datatype CrateTests = CrateTests(files: set<string>, manifests: seq<string>)

  type Workspaces = string -> CrateTests

  /**
   * `declared_test_targets`. A manifest's `[[test]]` blocks are read with `re`, which the script does
   * not import: `None` stands for the exception.
   */
  function DeclaredTargets(tests: CrateTests): (targets: Option<set<string>>)
    ensures targets.None? <==> exists m | m in tests.manifests :: Contains(m, "[[test]]")
  {
    if exists m | m in tests.manifests :: Contains(m, "[[test]]") then None else Some(tests.files)
  }

  /** Looking up the target a hint names raises. */
  predicate HintRaises(entry: Entry, crates: Workspaces) {
    Named(entry.hint) && DeclaredTargets(crates(entry.crate)).None?
  }

  /** The target a hint names exists. */
  predicate HintExists(entry: Entry, crates: Workspaces) {
    Named(entry.hint) ==>
      var targets := DeclaredTargets(crates(entry.crate));
      targets.Some? && entry.hint.value in targets.value
  }

  /** What `--check` asks of a hint: of one that names a target, that no manifest has a block and the file is there. */
  lemma HintMeaning(entry: Entry, crates: Workspaces)
    ensures HintRaises(entry, crates)
            <==> && entry.hint != None && entry.hint != Some("")
                 && exists m | m in crates(entry.crate).manifests :: Contains(m, "[[test]]")
    ensures HintExists(entry, crates)
            <==> || entry.hint == None || entry.hint == Some("")
                 || (!HintRaises(entry, crates) && entry.hint.value in crates(entry.crate).files)
  {
  }

  /** The same edit of the same place. */
  predicate SameEdit(a: Entry, b: Entry) {
    a.path == b.path && a.find == b.find && a.repl == b.repl
  }

  function Site(entry: Entry): (string, string, string) {
    (entry.path, entry.find, entry.repl)
  }

  predicate NewSite(catalogue: seq<Entry>, k: nat)
    requires k < |catalogue|
  {
    forall j | 0 <= j < k :: !SameEdit(catalogue[j], catalogue[k])
  }

  /** The sites of the first `k` entries. */
  ghost predicate SeenUpTo(catalogue: seq<Entry>, k: nat, seen: set<(string, string, string)>)
    requires k <= |catalogue|
  {
    forall site :: site in seen <==> exists j | 0 <= j < k :: Site(catalogue[j]) == site
  }

  lemma SeenNext(catalogue: seq<Entry>, k: nat, seen: set<(string, string, string)>)
    requires k < |catalogue| && SeenUpTo(catalogue, k, seen)
    ensures SeenUpTo(catalogue, k + 1, seen + {Site(catalogue[k])})
    ensures Site(catalogue[k]) in seen ==> SeenUpTo(catalogue, k + 1, seen)
    ensures Site(catalogue[k]) in seen <==> !NewSite(catalogue, k)
  {
    forall j | 0 <= j < k ensures SameEdit(catalogue[j], catalogue[k]) <==> Site(catalogue[j]) == Site(catalogue[k]) {}
  }

  predicate EntryAccepted(files: map<string, string>, catalogue: seq<Entry>, k: nat, crates: Workspaces)
    requires k < |catalogue|
  {
    Matches(files, catalogue[k]) && HintExists(catalogue[k], crates) && NewSite(catalogue, k)
  }

  /** The first `k` entries name targets that exist and edit what no earlier one does. */
  ghost predicate ProveUpTo(catalogue: seq<Entry>, k: nat, crates: Workspaces)
    requires k <= |catalogue|
  {
    k == 0 || (ProveUpTo(catalogue, k - 1, crates) && HintExists(catalogue[k - 1], crates) && NewSite(catalogue, k - 1))
  }

  lemma {:induction false} ProveUpToMeaning(catalogue: seq<Entry>, k: nat, crates: Workspaces)
    requires k <= |catalogue|
    ensures ProveUpTo(catalogue, k, crates)
            <==> forall j | 0 <= j < k :: HintExists(catalogue[j], crates) && NewSite(catalogue, j)
  {
    if k > 0 { ProveUpToMeaning(catalogue, k - 1, crates); }
  }

  /** `check_hints_and_duplicates`: how many entries cannot prove anything, or `None` where it raises. */
  method CheckHintsAndDuplicates(catalogue: seq<Entry>, crates: Workspaces) returns (problems: Option<nat>)
    ensures problems.None? <==> exists k | 0 <= k < |catalogue| :: HintRaises(catalogue[k], crates)
    ensures problems == Some(0)
            <==> forall k | 0 <= k < |catalogue| :: HintExists(catalogue[k], crates) && NewSite(catalogue, k)
  {
    var found := 0;
    var seen: set<(string, string, string)> := {};
    ProveUpToMeaning(catalogue, |catalogue|, crates);
    for k := 0 to |catalogue|
      invariant SeenUpTo(catalogue, k, seen)
      invariant forall j | 0 <= j < k :: !HintRaises(catalogue[j], crates)
      invariant found == 0 <==> ProveUpTo(catalogue, k, crates)
    {
      var entry := catalogue[k];
      if Named(entry.hint) {
        var available := DeclaredTargets(crates(entry.crate));
        if available.None? {
          assert HintRaises(catalogue[k], crates) && !HintExists(catalogue[k], crates);
          return None;
        }
        if entry.hint.value !in available.value {
          found := found + 1;
        }
      }
      SeenNext(catalogue, k, seen);
      if Site(entry) in seen {
        found := found + 1;
      } else {
        seen := seen + {Site(entry)};
      }
    }
    return Some(found);
  }

  /** The first loop of `check_only`: how many entries do not match the source they name. */
  method CountUnmatched(files: map<string, string>, catalogue: seq<Entry>) returns (absent: nat, ambiguous: nat)
    ensures absent + ambiguous == 0 <==> forall k | 0 <= k < |catalogue| :: Matches(files, catalogue[k])
  {
    absent, ambiguous := 0, 0;
    for k := 0 to |catalogue|
      invariant absent + ambiguous == 0 <==> forall j | 0 <= j < k :: Matches(files, catalogue[j])
    {
      var entry := catalogue[k];
      if entry.path !in files {
        absent := absent + 1;
        continue;
      }
      var occurrences := Count(files[entry.path], entry.find);
      if occurrences == 0 {
        absent := absent + 1;
      } else if occurrences != entry.Declared() {
        ambiguous := ambiguous + 1;
      }
    }
  }

  /** `--check`: every entry matches its source, names a target that exists, and is no other's site. */
  method CheckOnly(files: map<string, string>, catalogue: seq<Entry>, crates: Workspaces) returns (exit: Exit)
    ensures exit == Exited(0) <==> forall k | 0 <= k < |catalogue| :: EntryAccepted(files, catalogue, k, crates)
    ensures exit == Raised
            <==> && (forall k | 0 <= k < |catalogue| :: Matches(files, catalogue[k]))
                 && exists k | 0 <= k < |catalogue| :: HintRaises(catalogue[k], crates)
    ensures exit in {Exited(0), Exited(1), Raised}
  {
    var absent, ambiguous := CountUnmatched(files, catalogue);
    if absent > 0 || ambiguous > 0 {
      ghost var j :| 0 <= j < |catalogue| && !Matches(files, catalogue[j]);
      assert !EntryAccepted(files, catalogue, j, crates);
      return Exited(1);
    }
    var problems := CheckHintsAndDuplicates(catalogue, crates);
    if problems != Some(0) {
      ghost var j :| 0 <= j < |catalogue| && !(HintExists(catalogue[j], crates) && NewSite(catalogue, j));
      assert !EntryAccepted(files, catalogue, j, crates);
    }
    match problems
    case None => return Raised;
    case Some(n) => return Exited(if n != 0 then 1 else 0);
  }

  /** An accepted entry's bounded replacement is the replacement of every occurrence. */
  lemma AcceptedEntryReplacesAll(files: map<string, string>, entry: Entry)
    requires Matches(files, entry)
    ensures var source := files[entry.path];
            && Mutate(source, entry) == JoinWith(Pieces(source, entry.find), entry.repl)
            && source == JoinWith(Pieces(source, entry.find), entry.find)
            && |Pieces(source, entry.find)| == entry.Declared() + 1
            && |Mutate(source, entry)| == |source| + entry.Declared() * (|entry.repl| - |entry.find|)
  {
    var source := files[entry.path];
    BoundCoversAll(source, entry.find, entry.repl, Count(source, entry.find));
    PiecesRejoin(source, entry.find);
    ReplacementLength(source, entry.find, entry.repl, Count(source, entry.find));
  }

  // ---------- A run ----------

  datatype Class = Stale | Unproven | Survivor | Killed

  /** What one entry comes to over the sources as they should be. */
  function ClassOf(files: map<string, string>, entry: Entry, tests: Tests): Class
    requires entry.path in files
  {
    var original := files[entry.path];
    if !Contains(original, entry.find) then Stale
    else
      match Judge(tests, files[entry.path := Mutate(original, entry)], entry.crate, entry.hint)
      case Caught => Killed
      case NoCompile => Unproven
      case Hung => Unproven
      case Survived => Survivor
      case DidNotRun => Survivor
  }

  function Selected(catalogue: seq<Entry>, pattern: string): seq<Entry> {
    if catalogue == [] then []
    else
      (if Contains(catalogue[0].title, pattern) then [catalogue[0]] else []) + Selected(catalogue[1..], pattern)
  }

  /** The entry's title holds the pattern. */
  predicate Wanted(entry: Entry, pattern: string) {
    exists at | 0 <= at <= |entry.title| :: OccursAt(entry.title, pattern, at)
  }

  lemma WantedIsContained(entry: Entry, pattern: string)
    ensures Wanted(entry, pattern) <==> Contains(entry.title, pattern)
  {
    FindIsLeftmost(entry.title, pattern);
  }

  ghost predicate Ascending(indices: seq<nat>) {
    forall i, j | 0 <= i < j < |indices| :: indices[i] < indices[j]
  }

  /** The entries at the places, in that order. */
  ghost predicate StandsAt(entries: seq<Entry>, catalogue: seq<Entry>, places: seq<nat>) {
    && |entries| == |places| && Ascending(places)
    && forall i | 0 <= i < |places| :: places[i] < |catalogue| && entries[i] == catalogue[places[i]]
  }

  ghost predicate ArePlaces(places: seq<nat>, catalogue: seq<Entry>, pattern: string) {
    forall k: nat | k < |catalogue| :: k in places <==> Wanted(catalogue[k], pattern)
  }

  /** Just the entries whose title holds the pattern are selected, each once, in the catalogue's order. */
  lemma {:induction false} SelectedInOrder(catalogue: seq<Entry>, pattern: string) returns (places: seq<nat>)
    ensures StandsAt(Selected(catalogue, pattern), catalogue, places) && ArePlaces(places, catalogue, pattern)
  {
    if catalogue == [] {
      places := [];
    } else {
      var rest := SelectedInOrder(catalogue[1..], pattern);
      var later := seq(|rest|, i requires 0 <= i < |rest| => rest[i] + 1);
      LaterPlaces(Selected(catalogue[1..], pattern), catalogue, rest, later);
      WantedIsContained(catalogue[0], pattern);
      PlacesLater(catalogue, pattern, rest, later);
      if Contains(catalogue[0].title, pattern) {
        FirstPlace(Selected(catalogue[1..], pattern), catalogue, later);
        places := [0] + later;
      } else {
        places := later;
        assert [] + Selected(catalogue[1..], pattern) == Selected(catalogue[1..], pattern);
      }
    }
  }

  lemma FirstPlace(entries: seq<Entry>, catalogue: seq<Entry>, later: seq<nat>)
    requires catalogue != [] && StandsAt(entries, catalogue, later) && 0 !in later
    ensures StandsAt([catalogue[0]] + entries, catalogue, [0] + later)
  {
    forall i | 0 <= i < |later| ensures later[i] > 0 {
      assert later[i] in later;
    }
  }

  lemma PlacesLater(catalogue: seq<Entry>, pattern: string, rest: seq<nat>, later: seq<nat>)
    requires catalogue != [] && ArePlaces(rest, catalogue[1..], pattern)
    requires forall k: nat | k > 0 :: k in later <==> k - 1 in rest
    ensures forall k: nat | 0 < k < |catalogue| :: k in later <==> Wanted(catalogue[k], pattern)
  {
    forall k: nat | 0 < k < |catalogue| ensures k in later <==> Wanted(catalogue[k], pattern) {
      assert catalogue[1..][k - 1] == catalogue[k];
    }
  }

  lemma LaterPlaces(entries: seq<Entry>, catalogue: seq<Entry>, rest: seq<nat>, later: seq<nat>)
    requires catalogue != [] && StandsAt(entries, catalogue[1..], rest)
    requires |later| == |rest| && forall i | 0 <= i < |rest| :: later[i] == rest[i] + 1
    ensures StandsAt(entries, catalogue, later) && 0 !in later
    ensures forall k: nat | k > 0 :: k in later <==> k - 1 in rest
  {
    forall k: nat | k > 0 && k - 1 in rest ensures k in later {
      var i :| 0 <= i < |rest| && rest[i] == k - 1;
      assert later[i] == k;
    }
  }

  lemma SelectedMembers(catalogue: seq<Entry>, pattern: string)
    ensures forall entry :: entry in Selected(catalogue, pattern) <==> entry in catalogue && Wanted(entry, pattern)
  {
    var places := SelectedInOrder(catalogue, pattern);
    var entries := Selected(catalogue, pattern);
    forall entry | entry in catalogue && Wanted(entry, pattern) ensures entry in entries {
      var k: nat :| k < |catalogue| && catalogue[k] == entry;
      var i :| 0 <= i < |places| && places[i] == k;
      assert entries[i] == entry;
    }
    forall entry | entry in entries ensures entry in catalogue && Wanted(entry, pattern) {
      var i :| 0 <= i < |entries| && entries[i] == entry;
      assert places[i] in places;
    }
  }

  predicate Readable(files: map<string, string>, entries: seq<Entry>) {
    forall entry | entry in entries :: entry.path in files
  }

  /** The titles of the entries that came to `class`, in order. */
  function Titled(files: map<string, string>, entries: seq<Entry>, tests: Tests, kind: Class): seq<string>
    requires Readable(files, entries)
  {
    if entries == [] then []
    else
      var last := entries[|entries| - 1];
      Titled(files, entries[..|entries| - 1], tests, kind)
      + if ClassOf(files, last, tests) == kind then [last.title] else []
  }

  datatype Report = Report(survivors: seq<string>, missing: seq<string>, unproven: seq<string>)

  function ReportOn(files: map<string, string>, entries: seq<Entry>, tests: Tests): Report
    requires Readable(files, entries)
  {
    Report(Titled(files, entries, tests, Survivor), Titled(files, entries, tests, Stale),
           Titled(files, entries, tests, Unproven))
  }

  function Add(report: Report, kind: Class, title: string): Report {
    match kind
    case Survivor => report.(survivors := report.survivors + [title])
    case Stale => report.(missing := report.missing + [title])
    case Unproven => report.(unproven := report.unproven + [title])
    case Killed => report
  }

  lemma ReportNext(files: map<string, string>, entries: seq<Entry>, tests: Tests, k: nat)
    requires k < |entries| && Readable(files, entries[..k + 1])
    ensures Readable(files, entries[..k]) && entries[k].path in files
    ensures ReportOn(files, entries[..k + 1], tests)
            == Add(ReportOn(files, entries[..k], tests), ClassOf(files, entries[k], tests), entries[k].title)
  {
    assert entries[..k + 1][..k] == entries[..k];
    assert entries[k] == entries[..k + 1][k] && entries[k] in entries[..k + 1];
    assert forall entry | entry in entries[..k] :: entry in entries[..k + 1];
  }

  ghost predicate AllKilled(files: map<string, string>, entries: seq<Entry>, tests: Tests)
    requires Readable(files, entries)
  {
    forall entry | entry in entries :: ClassOf(files, entry, tests) == Killed
  }

  lemma {:induction false} CleanReport(files: map<string, string>, entries: seq<Entry>, tests: Tests)
    requires Readable(files, entries)
    ensures ReportOn(files, entries, tests) == Report([], [], []) <==> AllKilled(files, entries, tests)
  {
    if entries != [] {
      var n := |entries| - 1;
      assert entries[..n + 1] == entries;
      ReportNext(files, entries, tests, n);
      CleanReport(files, entries[..n], tests);
      assert entries == entries[..n] + [entries[n]];
    }
  }

  /** The sources with an entry's text replaced, at most as often as it declares. */
  function Mutated(files: map<string, string>, entry: Entry): map<string, string>
    requires entry.path in files
  {
    files[entry.path := Replace(files[entry.path], entry.find, entry.repl, entry.Declared())]
  }

  /** The run that decides: the named target's, unless that is inconclusive; else the whole crate's. */
  function Decides(files: map<string, string>, entry: Entry, tests: Tests): Outcome
    requires entry.path in files
  {
    var named := tests(Mutated(files, entry), entry.crate, entry.hint);
    if Named(entry.hint) && !Inconclusive(named) then named else tests(Mutated(files, entry), entry.crate, None)
  }

  /** The entry's text is there, and on the mutated sources a test is seen to fail. */
  predicate SeenToFail(files: map<string, string>, entry: Entry, tests: Tests)
    requires entry.path in files
  {
    && (exists at | 0 <= at <= |files[entry.path]| :: OccursAt(files[entry.path], entry.find, at))
    && TestFailed(Decides(files, entry, tests))
  }

  lemma OutcomeIsRead(outcome: Outcome)
    ensures ReadOutcome(outcome) == Caught <==> TestFailed(outcome)
    ensures ReadOutcome(outcome) in {Survived, DidNotRun} <==> Inconclusive(outcome)
  {
    CaughtIsTestFailed(outcome);
    InconclusiveIsRetried(outcome);
  }

  /** What an entry comes to, in what cargo printed of the run that decides. */
  lemma ClassMeaning(files: map<string, string>, entry: Entry, tests: Tests)
    requires entry.path in files
    ensures var kind, found := ClassOf(files, entry, tests), Contains(files[entry.path], entry.find);
            var outcome := Decides(files, entry, tests);
            && (kind == Stale <==> !found)
            && (kind == Killed <==> found && TestFailed(outcome))
            && (kind == Survivor <==> found && Inconclusive(outcome))
            && (kind == Killed <==> SeenToFail(files, entry, tests))
  {
    var mutated := Mutated(files, entry);
    OutcomeIsRead(tests(mutated, entry.crate, entry.hint));
    OutcomeIsRead(tests(mutated, entry.crate, None));
    FindIsLeftmost(files[entry.path], entry.find);
  }

  /** Where every entry can be read: all are killed exactly when each is seen to fail. */
  lemma KilledIsSeenToFail(files: map<string, string>, entries: seq<Entry>, tests: Tests)
    requires Readable(files, entries)
    ensures AllKilled(files, entries, tests) <==> forall entry | entry in entries :: SeenToFail(files, entry, tests)
  {
    forall entry | entry in entries
      ensures ClassOf(files, entry, tests) == Killed <==> SeenToFail(files, entry, tests)
    {
      ClassMeaning(files, entry, tests);
    }
  }

  lemma {:induction false} TitledMeaning(files: map<string, string>, entries: seq<Entry>, tests: Tests, kind: Class,
                                         title: string)
    requires Readable(files, entries)
    ensures title in Titled(files, entries, tests, kind)
            <==> exists entry :: entry in entries && entry.title == title && ClassOf(files, entry, tests) == kind
  {
    if entries != [] {
      var before, last := entries[..|entries| - 1], entries[|entries| - 1];
      assert entries == before + [last];
      assert forall entry :: entry in entries <==> entry in before || entry == last;
      TitledMeaning(files, before, tests, kind, title);
    }
  }

  /** Some wanted entry of the catalogue under the title has the property. */
  ghost predicate SomeWanted(catalogue: seq<Entry>, pattern: string, title: string, has: Entry -> bool) {
    exists entry :: entry in catalogue && Wanted(entry, pattern) && entry.title == title && has(entry)
  }

  ghost predicate AllWantedReadable(files: map<string, string>, catalogue: seq<Entry>, pattern: string) {
    forall entry | entry in catalogue && Wanted(entry, pattern) :: entry.path in files
  }

  ghost predicate NoneWanted(catalogue: seq<Entry>, pattern: string) {
    forall entry | entry in catalogue :: !Wanted(entry, pattern)
  }

  ghost predicate AllWantedFail(files: map<string, string>, catalogue: seq<Entry>, pattern: string, tests: Tests)
    requires AllWantedReadable(files, catalogue, pattern)
  {
    forall entry | entry in catalogue && Wanted(entry, pattern) :: SeenToFail(files, entry, tests)
  }

  /** How a run that got the lock ends, of the catalogue, the pattern and what cargo prints. */
  ghost predicate ExitsRightly(files: map<string, string>, catalogue: seq<Entry>, pattern: string, tests: Tests,
                               exit: Exit)
  {
    && (exit == Exited(2) <==> NoneWanted(catalogue, pattern))
    && (exit == Raised <==> !AllWantedReadable(files, catalogue, pattern))
    && (AllWantedReadable(files, catalogue, pattern) ==>
          (exit == Exited(0)
           <==> !NoneWanted(catalogue, pattern) && AllWantedFail(files, catalogue, pattern, tests)))
    && (exit.Raised? || exit.code in {0, 1, 2})
  }

  lemma EndsRightly(files: map<string, string>, catalogue: seq<Entry>, pattern: string, tests: Tests, exit: Exit,
                    report: Report)
    requires EndsAs(files, Selected(catalogue, pattern), tests, exit, report)
    ensures ExitsRightly(files, catalogue, pattern, tests, exit)
  {
    var entries := Selected(catalogue, pattern);
    SelectedMembers(catalogue, pattern);
    assert entries == [] <==> NoneWanted(catalogue, pattern) by {
      if entries != [] { assert entries[0] in entries; }
    }
    assert Readable(files, entries) <==> AllWantedReadable(files, catalogue, pattern);
    if Readable(files, entries) { KilledIsSeenToFail(files, entries, tests); }
  }

  ghost predicate Found(files: map<string, string>, entry: Entry) {
    entry.path in files && exists at :: OccursAt(files[entry.path], entry.find, at)
  }

  /** The text is there and the deciding run was inconclusive. */
  ghost predicate Survives(files: map<string, string>, entry: Entry, tests: Tests) {
    Found(files, entry) && Inconclusive(Decides(files, entry, tests))
  }

  /** The text is there and the deciding run was refused by the compiler, or did not end. */
  ghost predicate Unproved(files: map<string, string>, entry: Entry, tests: Tests) {
    && Found(files, entry)
    && (Decides(files, entry, tests).TimedOut? || NotBuilt(Decides(files, entry, tests)))
  }

  lemma ClassesExactly(files: map<string, string>, entry: Entry, tests: Tests)
    requires entry.path in files
    ensures ClassOf(files, entry, tests) == Stale <==> !Found(files, entry)
    ensures ClassOf(files, entry, tests) == Survivor <==> Survives(files, entry, tests)
    ensures ClassOf(files, entry, tests) == Unproven <==> Unproved(files, entry, tests)
  {
    ClassMeaning(files, entry, tests);
    FindIsLeftmost(files[entry.path], entry.find);
  }

  lemma ListedExactlyWhen(files: map<string, string>, catalogue: seq<Entry>, pattern: string, tests: Tests,
                          title: string, kind: Class, has: Entry -> bool)
    requires AllWantedReadable(files, catalogue, pattern)
    requires forall entry | entry in catalogue && Wanted(entry, pattern) ::
               ClassOf(files, entry, tests) == kind <==> has(entry)
    ensures Readable(files, Selected(catalogue, pattern))
    ensures title in Titled(files, Selected(catalogue, pattern), tests, kind)
            <==> SomeWanted(catalogue, pattern, title, has)
  {
    SelectedMembers(catalogue, pattern);
    TitledMeaning(files, Selected(catalogue, pattern), tests, kind, title);
  }

  /** Whose title is on each list of the report. */
  lemma ReportMeaning(files: map<string, string>, catalogue: seq<Entry>, pattern: string, tests: Tests, title: string)
    requires AllWantedReadable(files, catalogue, pattern)
    ensures Readable(files, Selected(catalogue, pattern))
    ensures var report := ReportOn(files, Selected(catalogue, pattern), tests);
            && (title in report.missing <==> SomeWanted(catalogue, pattern, title, e => !Found(files, e)))
            && (title in report.survivors <==> SomeWanted(catalogue, pattern, title, e => Survives(files, e, tests)))
            && (title in report.unproven <==> SomeWanted(catalogue, pattern, title, e => Unproved(files, e, tests)))
  {
    forall entry | entry in catalogue && Wanted(entry, pattern)
      ensures ClassOf(files, entry, tests) == Stale <==> !Found(files, entry)
      ensures ClassOf(files, entry, tests) == Survivor <==> Survives(files, entry, tests)
      ensures ClassOf(files, entry, tests) == Unproven <==> Unproved(files, entry, tests)
    {
      ClassesExactly(files, entry, tests);
    }
    ListedExactlyWhen(files, catalogue, pattern, tests, title, Stale, e => !Found(files, e));
    ListedExactlyWhen(files, catalogue, pattern, tests, title, Survivor, e => Survives(files, e, tests));
    ListedExactlyWhen(files, catalogue, pattern, tests, title, Unproven, e => Unproved(files, e, tests));
  }

  /** One entry: record, mutate, judge, restore. */
  method TryEntry(ws: Workspace, entry: Entry, tests: Tests, report0: Report) returns (report: Report)
    requires entry.path in ws.files && ws.inFlight.None?
    modifies ws
    ensures ws.View() == old(ws.View())
    ensures report == Add(report0, ClassOf(old(ws.files), entry, tests), entry.title)
  {
    report := report0;
    var original := ws.files[entry.path];
    if !Contains(original, entry.find) {
      return report.(missing := report.missing + [entry.title]);
    }
    ws.Begin(entry.path, original);
    ws.files := ws.files[entry.path := Mutate(original, entry)];
    var verdict := Judge(tests, ws.files, entry.crate, entry.hint);
    ws.Finish(entry.path, original);
    assert ws.files == old(ws.files);
    if verdict == NoCompile || verdict == Hung {
      report := report.(unproven := report.unproven + [entry.title]);
    } else if verdict != Caught {
      report := report.(survivors := report.survivors + [entry.title]);
    }
  }

  /** Every selected source as it is before the run, by path. */
  function Digests(files: map<string, string>, entries: seq<Entry>): (before: map<string, string>)
    ensures forall p | p in before :: p in files && before[p] == files[p]
  {
    if entries == [] then map[]
    else
      var rest := Digests(files, entries[1..]);
      if entries[0].path in files then rest[entries[0].path := files[entries[0].path]] else rest
  }

  predicate Changed(files: map<string, string>, before: map<string, string>) {
    exists p | p in before :: p !in files || files[p] != before[p]
  }

  /** The tree an uninterrupted run leaves, given how it ended. */
  function After(t: Tree, pid: nat, exit: Exit): Tree {
    Recovered(t).(lock := if exit.Raised? then Owner(pid) else Absent)
  }

  /** How a run that got the lock ends, said of the sources alone. */
  ghost predicate EndsAs(files: map<string, string>, entries: seq<Entry>, tests: Tests, exit: Exit, report: Report) {
    if entries == [] then exit == Exited(2)
    else if !Readable(files, entries) then exit == Raised
    else
      && report == ReportOn(files, entries, tests)
      && exit == Exited(if AllKilled(files, entries, tests) then 0 else 1)
  }

  /** The loop over the entries; a source that cannot be read ends it with an exception. */
  method RunEntries(ws: Workspace, entries: seq<Entry>, tests: Tests) returns (raised: bool, report: Report)
    requires ws.inFlight.None?
    modifies ws
    ensures ws.View() == old(ws.View())
    ensures raised <==> !Readable(ws.files, entries)
    ensures !raised ==> report == ReportOn(ws.files, entries, tests)
  {
    report := Report([], [], []);
    ghost var start := ws.View();
    for k := 0 to |entries|
      invariant ws.View() == start
      invariant Readable(ws.files, entries[..k]) && report == ReportOn(ws.files, entries[..k], tests)
    {
      if entries[k].path !in ws.files {
        assert entries[k] in entries;
        return true, report;
      }
      assert entries[..k + 1] == entries[..k] + [entries[k]];
      ReportNext(ws.files, entries, tests, k);
      report := TryEntry(ws, entries[k], tests, report);
    }
    assert entries[..|entries|] == entries;
    return false, report;
  }

  /** `main` from its selection on, the lock held and the tree recovered. */
  method AuditEntries(ws: Workspace, pid: nat, entries: seq<Entry>, tests: Tests) returns (exit: Exit, report: Report)
    requires ws.lock == Owner(pid) && ws.inFlight.None?
    modifies ws
    ensures ws.View() == old(ws.View()).(lock := if exit.Raised? then Owner(pid) else Absent)
    ensures EndsAs(old(ws.files), entries, tests, exit, report)
  {
    report := Report([], [], []);
    if entries == [] {
      ws.ReleaseLock(pid);
      return Exited(2), report;
    }
    var before := Digests(ws.files, entries);
    var raised;
    raised, report := RunEntries(ws, entries, tests);
    if raised {
      return Raised, report;
    }
    CleanReport(ws.files, entries, tests);
    if Changed(ws.files, before) {
      assert false;
    }
    ws.ReleaseLock(pid);
    if report.survivors != [] || report.missing != [] || report.unproven != [] {
      return Exited(1), report;
    }
    return Exited(0), report;
  }

  /**
   * `main`. The sources come out as recovery left them, whatever the verdicts; the exit code is
   * 0 exactly when every selected entry matched its source and was caught. The last comparison,
   * which would release the lock and return 2, is never true.
   */
  method RunAudit(ws: Workspace, pid: nat, alive: set<nat>, catalogue: seq<Entry>, pattern: string, tests: Tests)
    returns (exit: Exit, report: Report)
    modifies ws
    ensures Refused(old(ws.lock), pid, alive) ==> exit == Exited(2) && ws.View() == old(ws.View())
    ensures !Refused(old(ws.lock), pid, alive) ==>
              && ws.View() == After(old(ws.View()), pid, exit)
              && EndsAs(Recovered(old(ws.View())).files, Selected(catalogue, pattern), tests, exit, report)
              && ExitsRightly(Recovered(old(ws.View())).files, catalogue, pattern, tests, exit)
  {
    var taken := ws.TakeLock(pid, alive);
    if !taken {
      return Exited(2), Report([], [], []);
    }
    ws.Recover();
    exit, report := AuditEntries(ws, pid, Selected(catalogue, pattern), tests);
    EndsRightly(Recovered(old(ws.View())).files, catalogue, pattern, tests, exit, report);
  }

  lemma CountedIsContained(s: string, find: string)
    requires Count(s, find) != 0
    ensures Contains(s, find)
  {
    FindIsLeftmost(s, find);
    assert find == "" ==> OccursAt(s, find, 0);
  }

  /** Over a tree `--check` accepts, a run with any pattern reads every source and finds nothing stale. */
  lemma CheckedRunIsNeverStale(files: map<string, string>, catalogue: seq<Entry>, crates: Workspaces,
                               pattern: string, tests: Tests)
    requires forall k | 0 <= k < |catalogue| :: EntryAccepted(files, catalogue, k, crates)
    ensures Readable(files, Selected(catalogue, pattern))
    ensures ReportOn(files, Selected(catalogue, pattern), tests).missing == []
  {
    SelectedMembers(catalogue, pattern);
    var entries := Selected(catalogue, pattern);
    forall entry | entry in entries ensures Matches(files, entry) {
      var k :| 0 <= k < |catalogue| && catalogue[k] == entry;
      assert EntryAccepted(files, catalogue, k, crates);
    }
    NothingStale(files, entries, tests);
  }

  lemma {:induction false} NothingStale(files: map<string, string>, entries: seq<Entry>, tests: Tests)
    requires forall entry | entry in entries :: Matches(files, entry)
    ensures Readable(files, entries) && Titled(files, entries, tests, Stale) == []
  {
    if entries != [] {
      var last := entries[|entries| - 1];
      assert last in entries && Matches(files, last);
      CountedIsContained(files[last.path], last.find);
      NothingStale(files, entries[..|entries| - 1], tests);
    }
  }
}
