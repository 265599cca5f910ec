/**
 * Any number of mutation runs over one working tree, interleaved write by write, each liable to
 * be signalled or killed between any two writes. Writing one whole file is one step.
 */
module MutationProtocol {
  import opened Text
  import opened WorkingTree

  /** A file and the text it is to be given back. */
  datatype Restore = Restore(path: string, original: string)

  /** Where `recover` is: about to look for a record, to write a file back, to remove the record. */
  datatype Stage = Look | Write(restore: Restore) | Clear

  /**
   * What `recover` was called for: starting up, or handling a signal. A signal that came inside
   * the `try` leaves a `finally` pending; one that came late finds the lock already released.
   */
  datatype Purpose = Startup | Handler(pending: Option<Restore>, released: bool)

  datatype Phase =
    | Starting
    | Recovering(stage: Stage, purpose: Purpose)
    | Ready                                                  // between entries, handlers installed
    | Recorded(restore: Restore, mutated: string)            // the record is written, the file is not
    | Mutated(restore: Restore)                              // the tests are running
    | Restored                                               // the file is back, the record is not removed
    | Releasing(pending: Option<Restore>, released: bool)    // a handler has recovered
    | Exiting(pending: Option<Restore>)                      // past `release_lock`, a `finally` perhaps to come
    | UnwindClearing                                         // that `finally` has written the file back
  {
    /** Past `release_lock` and still alive. */
    predicate Lingers() {
      || Exiting? || UnwindClearing?
      || (Recovering? && purpose.Handler? && purpose.released)
      || (Releasing? && released)
    }

    predicate HoldsLock() {
      !Starting? && !Lingers()
    }
  }

  datatype System = System(tree: Tree, live: map<nat, Phase>)

  datatype Action =
    | Start(pid: nat)
    | TakeLock(pid: nat)
    | Advance(pid: nat)                                    // the next write of whatever is under way
    | BeginEntry(pid: nat, path: string, mutated: string)  // read the source, write the record
    | EndRun(pid: nat)
    | Signal(pid: nat, inTry: bool)
    | Kill(pid: nat)

  function Without(live: map<nat, Phase>, pid: nat): map<nat, Phase> {
    live - {pid}
  }

  predicate SomeoneLingers(live: map<nat, Phase>) {
    exists pid | pid in live :: live[pid].Lingers()
  }

  /** The record on file, if there is one. */
  function RestoreOnFile(t: Tree): Option<Restore> {
    match t.inFlight
    case None => None
    case Some(record) => Some(Restore(RecordedPath(record), RecordedOriginal(record)))
  }

  function AfterRecovery(purpose: Purpose): Phase {
    match purpose
    case Startup => Ready
    case Handler(pending, released) => Releasing(pending, released)
  }

  /** The next step of a process in the middle of something; `None` for its phase means it exits. */
  function Progress(t: Tree, pid: nat, phase: Phase): Option<(Tree, Option<Phase>)> {
    match phase
    case Starting => None
    case Recovering(Look, purpose) =>
      (match RestoreOnFile(t)
       case None => Some((t, Some(AfterRecovery(purpose))))
       case Some(restore) => Some((t, Some(Recovering(Write(restore), purpose)))))
    case Recovering(Write(restore), purpose) =>
      Some((Undo(t, restore.path, restore.original), Some(Recovering(Clear, purpose))))
    case Recovering(Clear, purpose) => Some((ClearRecord(t), Some(AfterRecovery(purpose))))
    case Ready => None
    case Recorded(restore, mutated) => Some((WriteFile(t, restore.path, mutated), Some(Mutated(restore))))
    case Mutated(restore) => Some((WriteFile(t, restore.path, restore.original), Some(Restored)))
    case Restored => Some((ClearRecord(t), Some(Ready)))
    case Releasing(pending, _) => Some((Release(t, pid), Some(Exiting(pending))))
    case Exiting(Some(restore)) => Some((WriteFile(t, restore.path, restore.original), Some(UnwindClearing)))
    case Exiting(None) => Some((t, None))
    case UnwindClearing => Some((ClearRecord(t), Some(Exiting(None))))
  }

  /**
   * What a signal makes of a process: its handler starts `recover`, with the lock or without it.
   * `inTry` says whether the code interrupted is inside the `try`. Before the handler is installed
   * a signal is a kill.
   */
  function OnSignal(phase: Phase, inTry: bool): Option<Purpose> {
    match phase
    case Starting => None
    case Recovering(_, Startup) => None
    case Recovering(_, Handler(pending, released)) => Some(Handler(pending, released))
    case Ready => Some(Handler(None, false))
    case Recorded(_, _) => Some(Handler(None, false))
    case Mutated(restore) => Some(Handler(if inTry then Some(restore) else None, false))
    case Restored => Some(Handler(None, false))
    case Releasing(pending, released) => Some(Handler(pending, released))
    case Exiting(pending) => Some(Handler(if inTry then pending else None, true))
    case UnwindClearing => Some(Handler(None, true))
  }

  function Place(s: System, pid: nat, tree: Tree, phase: Option<Phase>): System {
    match phase
    case None => System(tree, Without(s.live, pid))
    case Some(next) => System(tree, s.live[pid := next])
  }

  /** One step, or `None` where it is not possible. */
  function Next(s: System, a: Action): Option<System> {
    match a
    case Start(pid) =>
      if pid in s.live then None else Some(s.(live := s.live[pid := Starting]))
    case TakeLock(pid) =>
      if pid !in s.live || !s.live[pid].Starting? then None
      else if Refused(s.tree.lock, pid, s.live.Keys) then Some(s.(live := Without(s.live, pid)))
      else Some(Place(s, pid, Claim(s.tree, pid), Some(Recovering(Look, Startup))))
    case Advance(pid) =>
      if pid !in s.live then None
      else (match Progress(s.tree, pid, s.live[pid])
            case None => None
            case Some((tree, phase)) => Some(Place(s, pid, tree, phase)))
    case BeginEntry(pid, path, mutated) =>
      if pid !in s.live || !s.live[pid].Ready? || path !in s.tree.files then None
      else
        var original := s.tree.files[path];
        var recorded := Recorded(Restore(path, original), mutated);
        Some(Place(s, pid, WriteRecord(s.tree, path, original), Some(recorded)))
    case EndRun(pid) =>
      if pid !in s.live || !s.live[pid].Ready? then None
      else Some(Place(s, pid, Release(s.tree, pid), Some(Exiting(None))))
    case Signal(pid, inTry) =>
      if pid !in s.live then None
      else (match OnSignal(s.live[pid], inTry)
            case None => None
            case Some(purpose) => Some(Place(s, pid, s.tree, Some(Recovering(Look, purpose)))))
    case Kill(pid) =>
      if pid in s.live then Some(s.(live := Without(s.live, pid))) else None
  }

  function Run(s: System, actions: seq<Action>): Option<System> {
    if actions == [] then Some(s)
    else
      match Run(s, actions[..|actions| - 1])
      case None => None
      case Some(before) => Next(before, actions[|actions| - 1])
  }

  /** The step is one by which a process gets the lock. */
  predicate Takes(s: System, a: Action) {
    a.TakeLock? && a.pid in s.live && s.live[a.pid].Starting? && !Refused(s.tree.lock, a.pid, s.live.Keys)
  }

  /** Throughout the run, the lock is taken only when nobody who has released it is still alive. */
  predicate Guarded(s: System, actions: seq<Action>) {
    if actions == [] then true
    else
      var earlier := actions[..|actions| - 1];
      && Guarded(s, earlier)
      && (match Run(s, earlier)
          case None => true
          case Some(before) => Takes(before, actions[|actions| - 1]) ==> !SomeoneLingers(before.live))
  }

  /** The sources as they should be: their paths are ones a record can hold. */
  ghost predicate Sources(truth: map<string, string>) {
    forall p | p in truth :: p != "" && '\n' !in p
  }

  /** Nobody is running and nothing is recorded; a lock of any kind may have been left behind. */
  ghost predicate Initial(s: System, truth: map<string, string>) {
    s.live == map[] && s.tree.files == truth && s.tree.inFlight.None?
  }

  /** By a run that is guarded. */
  ghost predicate Reachable(truth: map<string, string>, s: System) {
    exists init, actions :: Initial(init, truth) && Guarded(init, actions) && Run(init, actions) == Some(s)
  }

  // ---------- What every step keeps ----------

  ghost predicate Clean(t: Tree, truth: map<string, string>) {
    t.files == truth && t.inFlight.None?
  }

  ghost predicate IsTrue(restore: Restore, truth: map<string, string>) {
    restore.path in truth && restore.original == truth[restore.path]
  }

  ghost predicate PendingIsTrue(pending: Option<Restore>, truth: map<string, string>) {
    pending.Some? ==> IsTrue(pending.value, truth)
  }

  /** Only the recorded file may differ, and the record holds what it should be. */
  ghost predicate DamageIsRecorded(t: Tree, truth: map<string, string>) {
    match RestoreOnFile(t)
    case None => t.files == truth
    case Some(restore) =>
      && IsTrue(restore, truth)
      && t.files.Keys == truth.Keys
      && t.files[restore.path := restore.original] == truth
  }

  ghost predicate PurposeIsTrue(t: Tree, truth: map<string, string>, stage: Stage, purpose: Purpose) {
    purpose.Handler? ==>
      PendingIsTrue(purpose.pending, truth) && (purpose.released ==> stage.Look? && Clean(t, truth))
  }

  ghost predicate PhaseIsTrue(t: Tree, truth: map<string, string>, phase: Phase) {
    match phase
    case Starting => true
    case Recovering(stage, purpose) =>
      && PurposeIsTrue(t, truth, stage, purpose)
      && (match stage
          case Look => true
          case Write(restore) => RestoreOnFile(t) == Some(restore)
          case Clear => t.files == truth)
    case Ready => Clean(t, truth)
    case Recorded(restore, _) => t.files == truth && RestoreOnFile(t) == Some(restore)
    case Mutated(restore) => RestoreOnFile(t) == Some(restore)
    case Restored => t.files == truth
    case Releasing(pending, _) => Clean(t, truth) && PendingIsTrue(pending, truth)
    case Exiting(pending) => Clean(t, truth) && PendingIsTrue(pending, truth)
    case UnwindClearing => Clean(t, truth)
  }

  ghost predicate ProcessIsTrue(s: System, truth: map<string, string>, pid: nat)
    requires pid in s.live
  {
    && PhaseIsTrue(s.tree, truth, s.live[pid])
    && (s.live[pid].HoldsLock() ==> s.tree.lock == Owner(pid))
  }

  /** One process at most has got the lock and is still alive, whether or not it has released it. */
  ghost predicate OneInside(live: map<nat, Phase>) {
    forall p, q | p in live && q in live && !live[p].Starting? && !live[q].Starting? :: p == q
  }

  ghost predicate Inv(s: System, truth: map<string, string>) {
    && DamageIsRecorded(s.tree, truth)
    && (forall pid | pid in s.live :: ProcessIsTrue(s, truth, pid))
    && OneInside(s.live)
  }

  // ---------- The invariant, step by step ----------

  /** A step of the one inside that leaves the tree and its own phase true keeps the invariant. */
  lemma InsiderSteps(s: System, truth: map<string, string>, pid: nat, tree: Tree, phase: Option<Phase>)
    requires Inv(s, truth) && pid in s.live && !s.live[pid].Starting?
    requires DamageIsRecorded(tree, truth)
    requires phase.Some? ==> PhaseIsTrue(tree, truth, phase.value)
    requires phase.Some? && phase.value.HoldsLock() ==> tree.lock == Owner(pid)
    ensures Inv(Place(s, pid, tree, phase), truth)
  {
    forall q | q in s.live && q != pid ensures s.live[q].Starting? {}
  }

  lemma RecoveryProgress(t: Tree, truth: map<string, string>, pid: nat, stage: Stage, purpose: Purpose)
    requires Sources(truth) && DamageIsRecorded(t, truth) && PhaseIsTrue(t, truth, Recovering(stage, purpose))
    ensures Progress(t, pid, Recovering(stage, purpose)).Some?
    ensures var (tree, phase) := Progress(t, pid, Recovering(stage, purpose)).value;
            && phase.Some? && (phase.value.Lingers() <==> Recovering(stage, purpose).Lingers()) && tree.lock == t.lock
            && DamageIsRecorded(tree, truth) && PhaseIsTrue(tree, truth, phase.value)
  {
    if stage.Write? {
      assert Undo(t, stage.restore.path, stage.restore.original).files == truth;
    }
  }

  lemma AdvanceKeeps(s: System, truth: map<string, string>, pid: nat)
    requires Sources(truth) && Inv(s, truth) && pid in s.live && Progress(s.tree, pid, s.live[pid]).Some?
    ensures var (tree, phase) := Progress(s.tree, pid, s.live[pid]).value;
            Inv(Place(s, pid, tree, phase), truth)
  {
    assert ProcessIsTrue(s, truth, pid);
    var phase := s.live[pid];
    var (tree, next) := Progress(s.tree, pid, phase).value;
    match phase {
      case Recovering(stage, purpose) => RecoveryProgress(s.tree, truth, pid, stage, purpose);
      case Recorded(restore, mutated) => assert tree.files[restore.path := restore.original] == truth;
      case Mutated(restore) =>
      case Restored =>
      case Releasing(pending, _) =>
      case Exiting(_) => assert tree == s.tree;
      case UnwindClearing =>
    }
    InsiderSteps(s, truth, pid, tree, next);
  }

  lemma SomeProcessLeaves(s: System, truth: map<string, string>, pid: nat)
    requires Inv(s, truth)
    ensures Inv(s.(live := Without(s.live, pid)), truth)
  {
    var after := s.(live := Without(s.live, pid));
    forall q | q in after.live ensures ProcessIsTrue(after, truth, q) {
      assert ProcessIsTrue(s, truth, q);
    }
  }

  lemma StartKeeps(s: System, truth: map<string, string>, pid: nat)
    requires Inv(s, truth) && pid !in s.live
    ensures Inv(s.(live := s.live[pid := Starting]), truth)
  {
    var after := s.(live := s.live[pid := Starting]);
    forall q | q in after.live ensures ProcessIsTrue(after, truth, q) {
      assert q != pid ==> ProcessIsTrue(s, truth, q);
    }
  }

  lemma TakeLockKeeps(s: System, truth: map<string, string>, pid: nat)
    requires Inv(s, truth) && Takes(s, TakeLock(pid)) && !SomeoneLingers(s.live)
    ensures Inv(Place(s, pid, Claim(s.tree, pid), Some(Recovering(Look, Startup))), truth)
  {
    var after := Place(s, pid, Claim(s.tree, pid), Some(Recovering(Look, Startup)));
    forall q | q in after.live ensures ProcessIsTrue(after, truth, q) && (q == pid || after.live[q].Starting?) {
      assert q in s.live && ProcessIsTrue(s, truth, q) && !s.live[q].Lingers();
    }
  }

  lemma BeginKeeps(s: System, truth: map<string, string>, pid: nat, path: string, mutated: string)
    requires Sources(truth) && Inv(s, truth) && pid in s.live && s.live[pid].Ready? && path in s.tree.files
    ensures var original := s.tree.files[path];
            var recorded := Recorded(Restore(path, original), mutated);
            Inv(Place(s, pid, WriteRecord(s.tree, path, original), Some(recorded)), truth)
  {
    assert ProcessIsTrue(s, truth, pid);
    var original := s.tree.files[path];
    RecordRoundTrip(path, original);
    var tree := WriteRecord(s.tree, path, original);
    assert truth[path := original] == truth;
    InsiderSteps(s, truth, pid, tree, Some(Recorded(Restore(path, original), mutated)));
  }

  lemma SignalKeeps(s: System, truth: map<string, string>, pid: nat, inTry: bool)
    requires Inv(s, truth) && pid in s.live && OnSignal(s.live[pid], inTry).Some?
    ensures Inv(Place(s, pid, s.tree, Some(Recovering(Look, OnSignal(s.live[pid], inTry).value))), truth)
  {
    assert ProcessIsTrue(s, truth, pid);
    InsiderSteps(s, truth, pid, s.tree, Some(Recovering(Look, OnSignal(s.live[pid], inTry).value)));
  }

  lemma StepKeeps(s: System, truth: map<string, string>, a: Action)
    requires Sources(truth) && Inv(s, truth) && Next(s, a).Some?
    requires Takes(s, a) ==> !SomeoneLingers(s.live)
    ensures Inv(Next(s, a).value, truth)
  {
    match a {
      case Start(pid) => StartKeeps(s, truth, pid);
      case TakeLock(pid) =>
        if Refused(s.tree.lock, pid, s.live.Keys) {
          SomeProcessLeaves(s, truth, pid);
        } else {
          TakeLockKeeps(s, truth, pid);
        }
      case Advance(pid) => AdvanceKeeps(s, truth, pid);
      case BeginEntry(pid, path, mutated) => BeginKeeps(s, truth, pid, path, mutated);
      case EndRun(pid) =>
        assert ProcessIsTrue(s, truth, pid);
        InsiderSteps(s, truth, pid, Release(s.tree, pid), Some(Exiting(None)));
      case Signal(pid, inTry) => SignalKeeps(s, truth, pid, inTry);
      case Kill(pid) => SomeProcessLeaves(s, truth, pid);
    }
  }

  lemma {:induction false} RunKeeps(s: System, truth: map<string, string>, actions: seq<Action>)
    requires Sources(truth) && Inv(s, truth) && Guarded(s, actions) && Run(s, actions).Some?
    ensures Inv(Run(s, actions).value, truth)
  {
    if actions != [] {
      RunKeeps(s, truth, actions[..|actions| - 1]);
      StepKeeps(Run(s, actions[..|actions| - 1]).value, truth, actions[|actions| - 1]);
    }
  }

  lemma ReachableKeeps(truth: map<string, string>, s: System)
    requires Sources(truth) && Reachable(truth, s)
    ensures Inv(s, truth)
  {
    var init, actions :| Initial(init, truth) && Guarded(init, actions) && Run(init, actions) == Some(s);
    RunKeeps(init, truth, actions);
  }

  // ---------- Safety ----------

  /** One run at most is past the lock; one file at most differs, and the record says which and how. */
  ghost predicate Safe(s: System, truth: map<string, string>) {
    && (forall p, q | p in s.live && q in s.live && s.live[p].HoldsLock() && s.live[q].HoldsLock() :: p == q)
    && s.tree.files.Keys == truth.Keys
    && (forall p | p in truth && s.tree.files[p] != truth[p] ::
          RestoreOnFile(s.tree) == Some(Restore(p, truth[p])))
  }

  lemma InvIsSafe(s: System, truth: map<string, string>)
    requires Inv(s, truth)
    ensures Safe(s, truth)
  {
    var restore := RestoreOnFile(s.tree);
    forall p | p in truth && s.tree.files[p] != truth[p] ensures restore == Some(Restore(p, truth[p])) {
      if restore.Some? {
        assert s.tree.files[restore.value.path := restore.value.original][p] == truth[p];
      }
    }
  }

  /** Over every guarded run, with signals and kills anywhere. */
  lemma EveryReachableStateIsSafe(truth: map<string, string>, s: System)
    requires Sources(truth) && Reachable(truth, s)
    ensures Safe(s, truth)
  {
    ReachableKeeps(truth, s);
    InvIsSafe(s, truth);
  }

  // ---------- Recovery ----------

  /** Whatever was interrupted, an earlier `recover` included, `recover` gives every source back. */
  lemma RecoverRestoresEverything(truth: map<string, string>, s: System)
    requires Sources(truth) && Reachable(truth, s)
    ensures Clean(Recovered(s.tree), truth) && Recovered(s.tree).lock == s.tree.lock
  {
    ReachableKeeps(truth, s);
  }

  /** What a new run does up to its first entry, when nothing interrupts it. */
  function StartUp(t: Tree, pid: nat): seq<Action> {
    if t.inFlight.Some? then [Start(pid), TakeLock(pid), Advance(pid), Advance(pid), Advance(pid)]
    else [Start(pid), TakeLock(pid), Advance(pid)]
  }

  /**
   * A run is turned away only by an owner that is alive: where the owner on file is not, or there
   * is none, a new run gets the lock, recovers, and is ready over the true sources.
   */
  lemma DeadOwnerNeverBlocks(truth: map<string, string>, s: System, pid: nat)
    requires Sources(truth) && Reachable(truth, s) && pid !in s.live
    requires s.tree.lock.Owner? ==> s.tree.lock.pid !in s.live
    ensures Run(s, StartUp(s.tree, pid)) == Some(System(Claim(Recovered(s.tree), pid), s.live[pid := Ready]))
    ensures Clean(Recovered(s.tree), truth)
  {
    RecoverRestoresEverything(truth, s);
    var claimed := Claim(s.tree, pid);
    var s1 := System(s.tree, s.live[pid := Starting]);
    var s2 := System(claimed, s.live[pid := Recovering(Look, Startup)]);
    assert StepsTo(s, Start(pid), s1);
    assert StepsTo(s1, TakeLock(pid), s2);
    var ready := System(Claim(Recovered(s.tree), pid), s.live[pid := Ready]);
    if RestoreOnFile(s.tree).None? {
      assert StepsTo(s2, Advance(pid), ready);
      RunInTurn([s, s1, s2, ready], StartUp(s.tree, pid));
    } else {
      RecoverInThree(claimed, s.live, pid, Startup);
      var restore := RestoreOnFile(s.tree).value;
      var s3 := System(claimed, s.live[pid := Recovering(Write(restore), Startup)]);
      var s4 := System(Undo(claimed, restore.path, restore.original), s.live[pid := Recovering(Clear, Startup)]);
      RunInTurn([s, s1, s2, s3, s4, ready], StartUp(s.tree, pid));
    }
  }

  /** What recovery with a record on file goes through. */
  lemma RecoverInThree(tree: Tree, live: map<nat, Phase>, pid: nat, purpose: Purpose)
    requires RestoreOnFile(tree).Some?
    ensures var restore := RestoreOnFile(tree).value;
            var s1 := System(tree, live[pid := Recovering(Look, purpose)]);
            var s2 := System(tree, live[pid := Recovering(Write(restore), purpose)]);
            var s3 := System(Undo(tree, restore.path, restore.original), live[pid := Recovering(Clear, purpose)]);
            && StepsTo(s1, Advance(pid), s2) && StepsTo(s2, Advance(pid), s3)
            && StepsTo(s3, Advance(pid), System(Recovered(tree), live[pid := AfterRecovery(purpose)]))
  {
  }

  ghost predicate StepsTo(s: System, a: Action, next: System) {
    var after := Next(s, a);
    after.Some? && after.value.tree == next.tree && after.value.live == next.live
  }

  lemma {:induction false} RunInTurn(states: seq<System>, actions: seq<Action>)
    requires |states| == |actions| + 1
    requires forall k | 0 <= k < |actions| :: StepsTo(states[k], actions[k], states[k + 1])
    ensures Run(states[0], actions) == Some(states[|actions|])
  {
    if actions != [] {
      var n := |actions| - 1;
      RunInTurn(states[..n + 1], actions[..n]);
      assert StepsTo(states[n], actions[n], states[n + 1]);
    }
  }

  lemma {:induction false} RunAppend(s: System, before: seq<Action>, after: seq<Action>)
    ensures Run(s, before + after) == match Run(s, before) case None => None case Some(mid) => Run(mid, after)
  {
    if after == [] {
      assert before + after == before;
    } else {
      assert (before + after)[..|before + after| - 1] == before + after[..|after| - 1];
      RunAppend(s, before, after[..|after| - 1]);
    }
  }

  // ---------- The guard is needed, at every take ----------

  /** A process takes the lock over a clean tree and records its first entry. */
  function Begins(q: nat, path: string, defect: string): seq<Action> {
    [TakeLock(q), Advance(q), BeginEntry(q, path, defect)]
  }

  lemma BeginsOver(s: System, truth: map<string, string>, q: nat, path: string, defect: string)
    requires Sources(truth) && Clean(s.tree, truth) && path in truth && Takes(s, TakeLock(q))
    ensures Run(s, Begins(q, path, defect))
            == Some(System(WriteRecord(Claim(s.tree, q), path, truth[path]),
                           s.live[q := Recorded(Restore(path, truth[path]), defect)]))
  {
    var claimed := Claim(s.tree, q);
    var recorded := WriteRecord(claimed, path, truth[path]);
    RunInTurn([s, System(claimed, s.live[q := Recovering(Look, Startup)]), System(claimed, s.live[q := Ready]),
               System(recorded, s.live[q := Recorded(Restore(path, truth[path]), defect)])],
              Begins(q, path, defect));
  }

  /** Another one's handler finds the record, undoes it and removes it; then the first one writes its defect. */
  function LateHandler(p: nat, q: nat): seq<Action> {
    [Signal(p, false), Advance(p), Advance(p), Advance(p), Advance(q)]
  }

  lemma LateHandlerUndoes(s: System, p: nat, q: nat, restore: Restore, defect: string)
    requires p in s.live && q in s.live && p != q && s.live[p].Lingers() && s.live[q] == Recorded(restore, defect)
    requires RestoreOnFile(s.tree) == Some(restore) && restore.path != ""
    requires restore.path in s.tree.files && s.tree.files[restore.path] == restore.original
    ensures Run(s, LateHandler(p, q)).Some?
    ensures Run(s, LateHandler(p, q)).value.tree == WriteFile(ClearRecord(s.tree), restore.path, defect)
  {
    var purpose := OnSignal(s.live[p], false).value;
    assert s.tree.files[restore.path := restore.original] == s.tree.files;
    var after := AfterRecovery(purpose);
    RunInTurn([s, System(s.tree, s.live[p := Recovering(Look, purpose)]),
               System(s.tree, s.live[p := Recovering(Write(restore), purpose)]),
               System(s.tree, s.live[p := Recovering(Clear, purpose)]),
               System(ClearRecord(s.tree), s.live[p := after]),
               System(WriteFile(ClearRecord(s.tree), restore.path, defect),
                      s.live[p := after][q := Mutated(restore)])],
              LateHandler(p, q));
  }

  /** Whoever takes the lock while another lingers, in whatever phase: a defect can be left without a record. */
  lemma LingererLosesADefect(truth: map<string, string>, s: System, p: nat, q: nat, path: string, defect: string)
    requires Sources(truth) && Inv(s, truth) && path in truth && defect != truth[path]
    requires p in s.live && s.live[p].Lingers() && Takes(s, TakeLock(q))
    ensures var actions := Begins(q, path, defect) + LateHandler(p, q);
            && Run(s, actions).Some? && !Safe(Run(s, actions).value, truth)
            && Guarded(Next(s, TakeLock(q)).value, actions[1..])
  {
    var actions := Begins(q, path, defect) + LateHandler(p, q);
    assert ProcessIsTrue(s, truth, p);
    BeginsOver(s, truth, q, path, defect);
    RecordRoundTrip(path, truth[path]);
    var begun := Run(s, Begins(q, path, defect)).value;
    LateHandlerUndoes(begun, p, q, Restore(path, truth[path]), defect);
    RunAppend(s, Begins(q, path, defect), LateHandler(p, q));
    assert Run(s, actions).value.tree.files[path] != truth[path];
    NoTakesIsGuarded(Next(s, TakeLock(q)).value, actions[1..]);
  }

  lemma {:induction false} NoTakesIsGuarded(s: System, actions: seq<Action>)
    requires forall k | 0 <= k < |actions| :: !actions[k].TakeLock?
    ensures Guarded(s, actions)
  {
    if actions != [] { NoTakesIsGuarded(s, actions[..|actions| - 1]); }
  }

  /** However it goes on, as long as the guard is kept from here on. */
  ghost predicate StaysSafe(s: System, truth: map<string, string>) {
    forall actions | Guarded(s, actions) && Run(s, actions).Some? :: Safe(Run(s, actions).value, truth)
  }

  lemma {:induction false} RunTail(s: System, actions: seq<Action>)
    requires actions != [] && Next(s, actions[0]).Some?
    ensures Run(s, actions) == Run(Next(s, actions[0]).value, actions[1..])
  {
    if |actions| > 1 {
      var n := |actions| - 1;
      RunTail(s, actions[..n]);
      assert actions[..n][1..] == actions[1..][..n - 1];
    } else {
      assert Run(s, actions[..0]) == Some(s) && actions[1..] == [];
    }
  }

  /** After any guarded run: taking the lock is safe, now and later, exactly when nobody who released it is alive. */
  lemma TakingIsSafeExactlyWhenNobodyLingers(truth: map<string, string>, s: System, q: nat)
    requires Sources(truth) && truth != map[] && Reachable(truth, s) && Takes(s, TakeLock(q))
    ensures StaysSafe(Next(s, TakeLock(q)).value, truth) <==> !SomeoneLingers(s.live)
  {
    ReachableKeeps(truth, s);
    var taken := Next(s, TakeLock(q)).value;
    if SomeoneLingers(s.live) {
      var p :| p in s.live && s.live[p].Lingers();
      var path :| path in truth;
      var defect := truth[path] + "x";
      LingererLosesADefect(truth, s, p, q, path, defect);
      RunTail(s, Begins(q, path, defect) + LateHandler(p, q));
    } else {
      TakeLockKeeps(s, truth, q);
      forall actions | Guarded(taken, actions) && Run(taken, actions).Some?
        ensures Safe(Run(taken, actions).value, truth)
      {
        RunKeeps(taken, truth, actions);
        InvIsSafe(Run(taken, actions).value, truth);
      }
    }
  }

  // ---------- What one process does when nobody else steps ----------

  function Advances(pid: nat, n: nat): seq<Action> {
    if n == 0 then [] else [Advance(pid)] + Advances(pid, n - 1)
  }

  /** The process has installed its handlers: it holds the lock and is past startup, or has released it. */
  predicate Handles(phase: Phase) {
    !phase.Starting? && !(phase.Recovering? && phase.purpose.Startup?)
  }

  /**
   * A signal is a step of its own exactly once the handlers are installed; before, it is a kill. It writes
   * nothing, and a process holds the lock after it just where it did before.
   */
  lemma SignalIsHandledExactlyWhen(s: System, pid: nat, inTry: bool)
    ensures Next(s, Signal(pid, inTry)).Some? <==> pid in s.live && Handles(s.live[pid])
    ensures Next(s, Signal(pid, inTry)).Some? ==>
              var after := Next(s, Signal(pid, inTry)).value;
              && after.tree == s.tree && pid in after.live && Handles(after.live[pid])
              && (after.live[pid].HoldsLock() <==> s.live[pid].HoldsLock())
  {
  }

  /** Any process can be killed at any moment, and nothing else comes of it. */
  lemma AnyoneCanBeKilled(s: System, pid: nat)
    requires pid in s.live
    ensures Next(s, Kill(pid)).Some?
    ensures var after := Next(s, Kill(pid)).value;
            && after.tree == s.tree && pid !in after.live
            && forall q | q != pid :: q in after.live <==> q in s.live
    ensures forall q | q in s.live && q != pid :: Next(s, Kill(pid)).value.live[q] == s.live[q]
  {
  }

  /** A signal that comes in the phase, there or not inside the `try`, leaves a `finally` to run. */
  predicate LeavesFinally(phase: Phase, inTry: bool) {
    match phase
    case Mutated(_) => inTry
    case Exiting(pending) => inTry && pending.Some?
    case Recovering(_, Handler(pending, _)) => pending.Some?
    case Releasing(pending, _) => pending.Some?
    case _ => false
  }

  /** The release, the two writes of the `finally` where there is one, the exit. */
  function StepsOut(leavesFinally: bool): nat {
    if leavesFinally then 4 else 2
  }

  /** Before them the look for a record, and where there is one its two writes. */
  function StepsToExit(recorded: bool, leavesFinally: bool): nat {
    (if recorded then 3 else 1) + StepsOut(leavesFinally)
  }

  /** The process's next step, and then the rest of them. */
  lemma {:induction false} AdvanceTo(s: System, pid: nat, n: nat, next: System)
    requires n > 0 && StepsTo(s, Advance(pid), next)
    ensures Run(s, Advances(pid, n)) == Run(next, Advances(pid, n - 1))
  {
    RunTail(s, Advances(pid, n));
    assert Advances(pid, n)[1..] == Advances(pid, n - 1);
  }

  /** Without the process, over the tree it leaves. */
  function Gone(live: map<nat, Phase>, pid: nat, tree: Tree): System {
    System(tree, Without(live, pid))
  }

  lemma GoneAnyway(live: map<nat, Phase>, pid: nat, phase: Phase, tree: Tree)
    ensures Gone(live[pid := phase], pid, tree) == Gone(live, pid, tree)
  {
    assert Without(live[pid := phase], pid) == Without(live, pid);
  }

  lemma Exits(tree: Tree, live: map<nat, Phase>, pid: nat)
    ensures Run(System(tree, live[pid := Exiting(None)]), Advances(pid, 1)) == Some(Gone(live, pid, tree))
  {
    GoneAnyway(live, pid, Exiting(None), tree);
    AdvanceTo(System(tree, live[pid := Exiting(None)]), pid, 1, Gone(live, pid, tree));
  }

  /** A pending `finally` over a clean tree changes nothing. */
  lemma ExitsThroughFinally(tree: Tree, live: map<nat, Phase>, pid: nat, truth: map<string, string>, restore: Restore)
    requires Clean(tree, truth) && IsTrue(restore, truth)
    ensures Run(System(tree, live[pid := Exiting(Some(restore))]), Advances(pid, 3)) == Some(Gone(live, pid, tree))
  {
    assert WriteFile(tree, restore.path, restore.original) == tree;
    var s1 := System(tree, live[pid := UnwindClearing]);
    AdvanceTo(System(tree, live[pid := Exiting(Some(restore))]), pid, 3, s1);
    AdvanceTo(s1, pid, 2, System(tree, live[pid := Exiting(None)]));
    Exits(tree, live, pid);
  }

  /** From the end of its recovery to its exit. */
  lemma ReleasesAndExits(tree: Tree, live: map<nat, Phase>, pid: nat, truth: map<string, string>, purpose: Purpose)
    requires purpose.Handler? && Clean(tree, truth) && PendingIsTrue(purpose.pending, truth)
    ensures Run(System(tree, live[pid := AfterRecovery(purpose)]), Advances(pid, StepsOut(purpose.pending.Some?)))
            == Some(Gone(live, pid, Release(tree, pid)))
  {
    var n := StepsOut(purpose.pending.Some?);
    var free := Release(tree, pid);
    AdvanceTo(System(tree, live[pid := AfterRecovery(purpose)]), pid, n,
              System(free, live[pid := Exiting(purpose.pending)]));
    match purpose.pending
    case None => Exits(free, live, pid);
    case Some(restore) => ExitsThroughFinally(free, live, pid, truth, restore);
  }

  /** The handler's recovery where there is a record. */
  lemma UndoesAndGoesOn(tree: Tree, live: map<nat, Phase>, pid: nat, purpose: Purpose, n: nat)
    requires RestoreOnFile(tree).Some?
    ensures Run(System(tree, live[pid := Recovering(Look, purpose)]), Advances(pid, n + 3))
            == Run(System(Recovered(tree), live[pid := AfterRecovery(purpose)]), Advances(pid, n))
  {
    var restore := RestoreOnFile(tree).value;
    var undone := Undo(tree, restore.path, restore.original);
    var s1 := System(tree, live[pid := Recovering(Write(restore), purpose)]);
    var s2 := System(undone, live[pid := Recovering(Clear, purpose)]);
    RecoverInThree(tree, live, pid, purpose);
    AdvanceTo(System(tree, live[pid := Recovering(Look, purpose)]), pid, n + 3, s1);
    AdvanceTo(s1, pid, n + 2, s2);
    AdvanceTo(s2, pid, n + 1, System(Recovered(tree), live[pid := AfterRecovery(purpose)]));
  }

  /** A handler that has just been entered, over a tree whose damage is recorded. */
  lemma HandlerExits(tree: Tree, live: map<nat, Phase>, pid: nat, truth: map<string, string>, purpose: Purpose)
    requires purpose.Handler? && DamageIsRecorded(tree, truth) && PendingIsTrue(purpose.pending, truth)
    requires Sources(truth)
    ensures var n := StepsToExit(tree.inFlight.Some?, purpose.pending.Some?);
            Run(System(tree, live[pid := Recovering(Look, purpose)]), Advances(pid, n))
            == Some(Gone(live, pid, Release(Recovered(tree), pid)))
    ensures Clean(Recovered(tree), truth)
  {
    var out := StepsOut(purpose.pending.Some?);
    ReleasesAndExits(Recovered(tree), live, pid, truth, purpose);
    if RestoreOnFile(tree).None? {
      AdvanceTo(System(tree, live[pid := Recovering(Look, purpose)]), pid, out + 1,
                System(tree, live[pid := AfterRecovery(purpose)]));
    } else {
      UndoesAndGoesOn(tree, live, pid, purpose, out);
    }
  }

  /**
   * A signal at any moment of a run, once its handlers are installed: in at most seven steps of its
   * own the process is gone, with every source true, no record, and the lock absent or somebody else's.
   */
  lemma SignalEndsTheRun(truth: map<string, string>, s: System, pid: nat, inTry: bool)
    requires Sources(truth) && Reachable(truth, s) && pid in s.live && Handles(s.live[pid])
    ensures var n := StepsToExit(s.tree.inFlight.Some?, LeavesFinally(s.live[pid], inTry));
            var lock := if s.tree.lock.Owner? && s.tree.lock.pid != pid then s.tree.lock else Absent;
            && n <= 7
            && Run(s, [Signal(pid, inTry)] + Advances(pid, n)) == Some(System(Tree(truth, None, lock), s.live - {pid}))
    ensures s.live[pid].HoldsLock() ==> s.tree.lock == Owner(pid)
  {
    ReachableKeeps(truth, s);
    assert ProcessIsTrue(s, truth, pid);
    var purpose := OnSignal(s.live[pid], inTry).value;
    var n := StepsToExit(s.tree.inFlight.Some?, LeavesFinally(s.live[pid], inTry));
    HandlerExits(s.tree, s.live, pid, truth, purpose);
    SignalThen(s, pid, inTry, Advances(pid, n));
  }

  lemma SignalThen(s: System, pid: nat, inTry: bool, more: seq<Action>)
    requires pid in s.live && OnSignal(s.live[pid], inTry).Some?
    ensures Run(s, [Signal(pid, inTry)] + more)
            == Run(System(s.tree, s.live[pid := Recovering(Look, OnSignal(s.live[pid], inTry).value)]), more)
  {
    RunTail(s, [Signal(pid, inTry)] + more);
    assert ([Signal(pid, inTry)] + more)[1..] == more;
  }

  lemma EntryBegins(s: System, truth: map<string, string>, pid: nat, path: string, defect: string)
      returns (s1: System, s2: System)
    requires Sources(truth) && Clean(s.tree, truth) && pid in s.live && s.live[pid].Ready? && path in truth
    ensures var restore := Restore(path, truth[path]);
            && s1 == System(WriteRecord(s.tree, path, truth[path]), s.live[pid := Recorded(restore, defect)])
            && s2 == System(WriteFile(s1.tree, path, defect), s.live[pid := Mutated(restore)])
            && RestoreOnFile(s2.tree) == Some(restore) && s2.tree.files == truth[path := defect]
    ensures StepsTo(s, BeginEntry(pid, path, defect), s1) && StepsTo(s1, Advance(pid), s2)
  {
    RecordRoundTrip(path, truth[path]);
    s1 := System(WriteRecord(s.tree, path, truth[path]), s.live[pid := Recorded(Restore(path, truth[path]), defect)]);
    s2 := System(WriteFile(s1.tree, path, defect), s.live[pid := Mutated(Restore(path, truth[path]))]);
  }

  lemma EntryEnds(s: System, truth: map<string, string>, pid: nat, path: string, defect: string, s2: System)
      returns (s3: System)
    requires Clean(s.tree, truth) && pid in s.live && s.live[pid].Ready? && path in truth
    requires s2.tree == WriteFile(WriteRecord(s.tree, path, truth[path]), path, defect)
    requires s2.live == s.live[pid := Mutated(Restore(path, truth[path]))]
    ensures StepsTo(s2, Advance(pid), s3) && StepsTo(s3, Advance(pid), s)
  {
    assert truth[path := defect][path := truth[path]] == truth;
    s3 := System(WriteRecord(s.tree, path, truth[path]), s.live[pid := Restored]);
    assert s.live[pid := Restored][pid := Ready] == s.live;
  }

  /** One entry that nothing interrupts: the defect is in its file, recorded, and then all is as it was. */
  lemma EntryComesBack(truth: map<string, string>, s: System, pid: nat, path: string, defect: string)
    requires Sources(truth) && Reachable(truth, s) && pid in s.live && s.live[pid].Ready? && path in truth
    ensures var begun := Run(s, [BeginEntry(pid, path, defect), Advance(pid)]);
            && begun.Some? && begun.value.tree.files == truth[path := defect]
            && RestoreOnFile(begun.value.tree) == Some(Restore(path, truth[path]))
    ensures Run(s, [BeginEntry(pid, path, defect), Advance(pid), Advance(pid), Advance(pid)]) == Some(s)
  {
    ReachableKeeps(truth, s);
    assert ProcessIsTrue(s, truth, pid);
    var s1, s2 := EntryBegins(s, truth, pid, path, defect);
    var s3 := EntryEnds(s, truth, pid, path, defect, s2);
    RunInTurn([s, s1, s2], [BeginEntry(pid, path, defect), Advance(pid)]);
    RunInTurn([s, s1, s2, s3, s], [BeginEntry(pid, path, defect), Advance(pid), Advance(pid), Advance(pid)]);
  }

  /** A run that ends between entries releases the lock and is gone. */
  lemma EndedRunIsGone(truth: map<string, string>, s: System, pid: nat)
    requires Sources(truth) && Reachable(truth, s) && pid in s.live && s.live[pid].Ready?
    ensures Run(s, [EndRun(pid), Advance(pid)]) == Some(System(Tree(truth, None, Absent), s.live - {pid}))
  {
    ReachableKeeps(truth, s);
    assert ProcessIsTrue(s, truth, pid);
    var released := Tree(truth, None, Absent);
    RunInTurn([s, System(released, s.live[pid := Exiting(None)]), System(released, s.live - {pid})],
              [EndRun(pid), Advance(pid)]);
  }

  /** While one process holds the lock any other that tries to take it is turned away, and nothing else changes. */
  lemma HolderTurnsOthersAway(truth: map<string, string>, s: System, holder: nat, pid: nat)
    requires Sources(truth) && Reachable(truth, s) && pid in s.live && s.live[pid].Starting?
    requires holder in s.live && s.live[holder].HoldsLock()
    ensures Next(s, TakeLock(pid)) == Some(System(s.tree, s.live - {pid}))
  {
    ReachableKeeps(truth, s);
    assert ProcessIsTrue(s, truth, holder);
  }

  // ---------- Each way to linger comes about ----------

  /** By a guarded run the first process gets to the phase, and a second one can take the lock. */
  ghost predicate Window(truth: map<string, string>, phase: Phase) {
    exists s :: Reachable(truth, s) && 1 in s.live && s.live[1] == phase && Takes(s, TakeLock(2))
  }

  function Fresh(truth: map<string, string>): System {
    System(Tree(truth, None, Absent), map[])
  }

  lemma StartsAfter(s: System, actions: seq<Action>, pid: nat, mid: System)
    requires Run(s, actions) == Some(mid) && Guarded(s, actions) && pid !in mid.live
    ensures var all := actions + [Start(pid)];
            Run(s, all) == Some(System(mid.tree, mid.live[pid := Starting])) && Guarded(s, all)
  {
    assert (actions + [Start(pid)])[..|actions|] == actions;
  }

  lemma IsReachable(truth: map<string, string>, init: System, actions: seq<Action>, s: System)
    requires Initial(init, truth) && Guarded(init, actions) && Run(init, actions) == Some(s)
    ensures Reachable(truth, s)
  {
  }

  /** The first process is in the phase over a free lock, and the second has started. */
  function BothAlive(truth: map<string, string>, phase: Phase): System {
    System(Tree(truth, None, Absent), map[1 := phase][2 := Starting])
  }

  lemma IsWindow(truth: map<string, string>, phase: Phase)
    requires Reachable(truth, BothAlive(truth, phase))
    ensures Window(truth, phase)
  {
  }

  /** The first process is alone; then the second starts. */
  lemma WindowOpens(truth: map<string, string>, actions: seq<Action>, phase: Phase)
    requires Run(Fresh(truth), actions) == Some(System(Tree(truth, None, Absent), map[1 := phase]))
    requires Guarded(Fresh(truth), actions)
    ensures Window(truth, phase)
  {
    StartsAfter(Fresh(truth), actions, 2, System(Tree(truth, None, Absent), map[1 := phase]));
    IsReachable(truth, Fresh(truth), actions + [Start(2)], BothAlive(truth, phase));
    IsWindow(truth, phase);
  }

  /** The first take of a run that starts with it is guarded, and no other step needs to be. */
  lemma {:induction false} OneTakeIsGuarded(s: System, actions: seq<Action>)
    requires s.live == map[] && |actions| >= 2 && actions[0] == Start(1)
    requires forall k | 2 <= k < |actions| :: !actions[k].TakeLock?
    ensures Guarded(s, actions)
  {
    if |actions| > 2 {
      OneTakeIsGuarded(s, actions[..|actions| - 1]);
    } else {
      var first := actions[..1];
      assert first[..0] == [];
      assert s.live[1 := Starting] == map[1 := Starting];
      assert Run(s, first) == Some(System(s.tree, map[1 := Starting]));
      assert Guarded(s, first);
    }
  }

  function StartAlone(): seq<Action> {
    [Start(1), TakeLock(1), Advance(1)]
  }

  /** One entry whose tests are interrupted, up to the handler's release. */
  function Interrupted(path: string, defect: string): seq<Action> {
    [BeginEntry(1, path, defect), Advance(1), Signal(1, true), Advance(1), Advance(1), Advance(1), Advance(1)]
  }

  lemma AloneIsReady(truth: map<string, string>)
    ensures Run(Fresh(truth), StartAlone()) == Some(System(Tree(truth, None, Owner(1)), map[1 := Ready]))
  {
    var free, claimed := Tree(truth, None, Absent), Tree(truth, None, Owner(1));
    RunInTurn([System(free, map[]), System(free, map[1 := Starting]),
               System(claimed, map[1 := Recovering(Look, Startup)]), System(claimed, map[1 := Ready])],
              StartAlone());
  }

  lemma InterruptedReleases(truth: map<string, string>, path: string, defect: string)
    requires Sources(truth) && path in truth
    ensures Run(System(Tree(truth, None, Owner(1)), map[1 := Ready]), Interrupted(path, defect))
            == Some(System(Tree(truth, None, Absent), map[1 := Exiting(Some(Restore(path, truth[path])))]))
  {
    var restore := Restore(path, truth[path]);
    RecordRoundTrip(path, truth[path]);
    assert truth[path := defect][path := truth[path]] == truth;
    var claimed := Tree(truth, None, Owner(1));
    var recorded := WriteRecord(claimed, path, truth[path]);
    var mutated := WriteFile(recorded, path, defect);
    var purpose := Handler(Some(restore), false);
    RunInTurn([
      System(claimed, map[1 := Ready]), System(recorded, map[1 := Recorded(restore, defect)]),
      System(mutated, map[1 := Mutated(restore)]), System(mutated, map[1 := Recovering(Look, purpose)]),
      System(mutated, map[1 := Recovering(Write(restore), purpose)]),
      System(recorded, map[1 := Recovering(Clear, purpose)]),
      System(claimed, map[1 := Releasing(Some(restore), false)]),
      System(Tree(truth, None, Absent), map[1 := Exiting(Some(restore))])], Interrupted(path, defect));
  }

  lemma NormalEndWindow(truth: map<string, string>)
    ensures Window(truth, Exiting(None))
  {
    var actions := StartAlone() + [EndRun(1)];
    AloneIsReady(truth);
    var ready := Run(Fresh(truth), StartAlone()).value;
    RunInTurn([ready, System(Tree(truth, None, Absent), map[1 := Exiting(None)])], [EndRun(1)]);
    RunAppend(Fresh(truth), StartAlone(), [EndRun(1)]);
    OneTakeIsGuarded(Fresh(truth), actions);
    WindowOpens(truth, actions, Exiting(None));
  }

  lemma InterruptedAlone(truth: map<string, string>, path: string) returns (actions: seq<Action>)
    requires Sources(truth) && path in truth
    ensures |actions| >= 2 && actions[0] == Start(1) && forall k | 2 <= k < |actions| :: !actions[k].TakeLock?
    ensures Run(Fresh(truth), actions)
            == Some(System(Tree(truth, None, Absent), map[1 := Exiting(Some(Restore(path, truth[path])))]))
  {
    actions := StartAlone() + Interrupted(path, "");
    AloneIsReady(truth);
    InterruptedReleases(truth, path, "");
    RunAppend(Fresh(truth), StartAlone(), Interrupted(path, ""));
  }

  lemma PendingWindow(truth: map<string, string>, path: string)
    requires Sources(truth) && path in truth
    ensures Window(truth, Exiting(Some(Restore(path, truth[path]))))
  {
    var actions := InterruptedAlone(truth, path);
    OneTakeIsGuarded(Fresh(truth), actions);
    WindowOpens(truth, actions, Exiting(Some(Restore(path, truth[path]))));
  }

  lemma UnwindingWindow(truth: map<string, string>, path: string)
    requires Sources(truth) && path in truth
    ensures Window(truth, UnwindClearing)
  {
    var actions := InterruptedAlone(truth, path);
    assert truth[path := truth[path]] == truth;
    var released := Run(Fresh(truth), actions).value;
    RunInTurn([released, System(Tree(truth, None, Absent), map[1 := UnwindClearing])], [Advance(1)]);
    RunAppend(Fresh(truth), actions, [Advance(1)]);
    OneTakeIsGuarded(Fresh(truth), actions + [Advance(1)]);
    WindowOpens(truth, actions + [Advance(1)], UnwindClearing);
  }

  /** A run that ended normally, and a handler's, before and within the `finally` it left pending. */
  lemma WindowsComeAbout(truth: map<string, string>, path: string)
    requires Sources(truth) && path in truth
    ensures Window(truth, Exiting(None))
    ensures Window(truth, Exiting(Some(Restore(path, truth[path]))))
    ensures Window(truth, UnwindClearing)
  {
    NormalEndWindow(truth);
    PendingWindow(truth, path);
    UnwindingWindow(truth, path);
  }

  /** The second process writes its defect; the first one's `finally` writes its file back and removes the record. */
  function LateFinally(p: nat, q: nat): seq<Action> {
    [Advance(q), Advance(p), Advance(p)]
  }

  lemma LateFinallyRemoves(s: System, p: nat, q: nat, pending: Restore, restore: Restore, defect: string)
    requires p in s.live && q in s.live && p != q
    requires s.live[p] == Exiting(Some(pending)) && s.live[q] == Recorded(restore, defect)
    requires pending.path != restore.path && pending.path in s.tree.files
    requires s.tree.files[pending.path] == pending.original
    ensures Run(s, LateFinally(p, q)).Some?
    ensures Run(s, LateFinally(p, q)).value.tree == ClearRecord(WriteFile(s.tree, restore.path, defect))
  {
    var mutated := WriteFile(s.tree, restore.path, defect);
    assert mutated.files[pending.path := pending.original] == mutated.files;
    var live := s.live[q := Mutated(restore)];
    RunInTurn([s, System(mutated, live), System(mutated, live[p := UnwindClearing]),
               System(ClearRecord(mutated), live[p := Exiting(None)])], LateFinally(p, q));
  }

  /** A pending `finally` needs no second signal: it removes the second process's record by itself. */
  lemma FinallyLosesADefect(truth: map<string, string>, s: System, p: nat, q: nat, path: string, defect: string)
    requires Sources(truth) && Inv(s, truth) && path in truth && defect != truth[path]
    requires p in s.live && s.live[p].Exiting? && s.live[p].pending.Some? && s.live[p].pending.value.path != path
    requires Takes(s, TakeLock(q))
    ensures var actions := Begins(q, path, defect) + LateFinally(p, q);
            && Run(s, actions).Some? && !Safe(Run(s, actions).value, truth)
            && Guarded(Next(s, TakeLock(q)).value, actions[1..])
  {
    var actions := Begins(q, path, defect) + LateFinally(p, q);
    assert ProcessIsTrue(s, truth, p);
    BeginsOver(s, truth, q, path, defect);
    var begun := Run(s, Begins(q, path, defect)).value;
    LateFinallyRemoves(begun, p, q, s.live[p].pending.value, Restore(path, truth[path]), defect);
    RunAppend(s, Begins(q, path, defect), LateFinally(p, q));
    assert Run(s, actions).value.tree.files[path] != truth[path];
    NoTakesIsGuarded(Next(s, TakeLock(q)).value, actions[1..]);
  }
}
