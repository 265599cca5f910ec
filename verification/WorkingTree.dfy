/** The files the mutation runner writes: the sources, its in-flight record and its lock. */
module WorkingTree {
  import opened Text

  /** The lock file: not there, there with no process id in it, or naming its owner. */
  datatype LockFile = Absent | Unreadable | Owner(pid: nat)

  datatype Tree = Tree(files: map<string, string>, inFlight: Option<string>, lock: LockFile)

  // ---------- The in-flight record ----------

  /** What `begin` writes: the path on a line of its own, then the original text. */
  function Record(path: string, original: string): string {
    path + "\n" + original
  }

  /** What `recover` reads back: `readline().rstrip("\n")`, then the rest. */
  function RecordedPath(record: string): string {
    BeforeFirst(record, '\n')
  }

  function RecordedOriginal(record: string): string {
    match Find(record, "\n")
    case None => ""
    case Some(i) => if i < |record| then record[i + 1..] else ""
  }

  /** The record reads back exactly when the path holds no newline, whatever the file holds. */
  lemma RecordRoundTrip(path: string, original: string)
    ensures RecordedPath(Record(path, original)) == path && RecordedOriginal(Record(path, original)) == original
            <==> '\n' !in path
  {
    var record := Record(path, original);
    FindIsLeftmost(record, "\n");
    assert record[|path|..|path| + 1] == "\n";
    assert OccursAt(record, "\n", |path|);
    var i := Find(record, "\n").value;
    AbsentBefore(record, '\n', i);
    assert record[..i] == path[..i];
    assert record[i..i + 1][0] == '\n' == record[i];
    assert i < |path| ==> path[i] == record[i];
    assert i == |path| ==> record[..i] == path && record[i + 1..] == original;
  }

  // ---------- Single writes ----------

  function WriteFile(t: Tree, path: string, text: string): Tree {
    t.(files := t.files[path := text])
  }

  function WriteRecord(t: Tree, path: string, original: string): Tree {
    t.(inFlight := Some(Record(path, original)))
  }

  function ClearRecord(t: Tree): Tree {
    t.(inFlight := None)
  }

  /** `take_lock` refuses when the owner on file is another process that is alive. */
  predicate Refused(lock: LockFile, pid: nat, alive: set<nat>) {
    lock.Owner? && lock.pid != pid && lock.pid in alive
  }

  function Claim(t: Tree, pid: nat): Tree {
    t.(lock := Owner(pid))
  }

  /** `release_lock` leaves a lock that names somebody else. */
  function Release(t: Tree, pid: nat): Tree {
    if t.lock.Owner? && t.lock.pid != pid then t else t.(lock := Absent)
  }

  /** `recover`'s write: only to a path that is there. */
  function Undo(t: Tree, path: string, original: string): Tree {
    if path != "" && path in t.files then WriteFile(t, path, original) else t
  }

  function Recovered(t: Tree): Tree {
    match t.inFlight
    case None => t
    case Some(record) => ClearRecord(Undo(t, RecordedPath(record), RecordedOriginal(record)))
  }

  /** What recovery leaves: the file the record names, if it is there, has the record's text; nothing else differs. */
  lemma RecoveredMeaning(t: Tree, path: string)
    ensures Recovered(t).inFlight.None? && Recovered(t).lock == t.lock && Recovered(t).files.Keys == t.files.Keys
    ensures path in t.files ==>
              Recovered(t).files[path]
              == if t.inFlight.Some? && path != "" && RecordedPath(t.inFlight.value) == path
                 then RecordedOriginal(t.inFlight.value) else t.files[path]
  {
  }

  /** What is read back of a record cut short: all of the path once it is written, and the text as far as it goes. */
  lemma CutRecordReads(path: string, original: string, cut: nat)
    requires '\n' !in path && cut <= |Record(path, original)|
    ensures var cutShort := Record(path, original)[..cut];
            if cut <= |path| then RecordedPath(cutShort) == path[..cut] && RecordedOriginal(cutShort) == ""
            else RecordedPath(cutShort) == path && RecordedOriginal(cutShort) == original[..cut - |path| - 1]
  {
    var cutShort := Record(path, original)[..cut];
    if cut <= |path| {
      assert cutShort == path[..cut];
      AbsentIsNotFound(cutShort, "\n");
    } else {
      assert cutShort == Record(path, original[..cut - |path| - 1]);
      RecordRoundTrip(path, original[..cut - |path| - 1]);
    }
  }

  /** So recovery from a record cut short once the path was written cuts the source short too. */
  lemma CutRecordCutsTheSource(t: Tree, path: string, cut: nat)
    requires path in t.files && path != "" && '\n' !in path && |path| <= cut <= |Record(path, t.files[path])|
    requires t.inFlight == Some(Record(path, t.files[path])[..cut])
    ensures Recovered(t).files[path] == t.files[path][..if cut > |path| then cut - |path| - 1 else 0]
  {
    CutRecordReads(path, t.files[path], cut);
    assert path[..|path|] == path;
  }

  // ---------- The functions of the script ----------

  class Workspace {
    var files: map<string, string>
    var inFlight: Option<string>
    var lock: LockFile

    constructor (t: Tree)
      ensures View() == t
    {
      files, inFlight, lock := t.files, t.inFlight, t.lock;
    }

    function View(): Tree
      reads this
    {
      Tree(files, inFlight, lock)
    }

    method TakeLock(pid: nat, alive: set<nat>) returns (taken: bool)
      modifies this
      ensures taken <==> !Refused(old(lock), pid, alive)
      ensures View() == if taken then Claim(old(View()), pid) else old(View())
    {
      if !lock.Absent? {
        var owner := if lock.Owner? then Some(lock.pid) else None;
        if owner.Some? && owner.value != pid && owner.value in alive {
          return false;
        }
      }
      lock := Owner(pid);
      return true;
    }

    method ReleaseLock(pid: nat)
      modifies this
      ensures View() == Release(old(View()), pid)
    {
      if !lock.Absent? {
        if lock.Owner? && lock.pid != pid {
          return;
        }
        lock := Absent;
      }
    }

    method Begin(path: string, original: string)
      modifies this
      ensures View() == WriteRecord(old(View()), path, original)
    {
      inFlight := Some(path + "\n" + original);
    }

    method Finish(path: string, original: string)
      modifies this
      ensures View() == ClearRecord(WriteFile(old(View()), path, original))
    {
      files := files[path := original];
      if inFlight.Some? {
        inFlight := None;
      }
    }

    method Recover()
      modifies this
      ensures View() == Recovered(old(View()))
    {
      if inFlight.None? {
        return;
      }
      var path := RecordedPath(inFlight.value);
      var original := RecordedOriginal(inFlight.value);
      if path != "" && path in files {
        files := files[path := original];
      }
      inFlight := None;
    }
  }
}
