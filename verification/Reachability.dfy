/** `check-surfaces`: which crates a start crate depends on, through any number of manifests. */
module Reachability {
  import opened Text

  /** A manifest line, as the traversal reads it. */
  datatype Line = DevDependencies | Names(dependency: string) | Other

  function ReadLine(line: string): Line {
    var key := Trim(BeforeFirst(line, '='));
    if "[dev-dependencies]" <= TrimStart(line) then DevDependencies
    else if "sankhya-" <= key then Names(key)
    else Other
  }

  /**
   * The manifests under `crates/` (`None` where one cannot be read) and `packs/`, and how a manifest
   * is read line by line, which for the tool is `ReadManifest`.
   */
  datatype Tree = Tree(crates: map<string, Option<string>>, packs: map<string, string>, read: string -> seq<Line>)

  function ManifestOf(tree: Tree, name: string): Option<string> {
    if name in tree.crates then tree.crates[name]
    else if name in tree.packs then Some(tree.packs[name])
    else None
  }

  function ReadManifest(manifest: string): (lines: seq<Line>)
    ensures |lines| == |Lines(manifest)|
    ensures forall k | 0 <= k < |lines| :: lines[k] == ReadLine(Lines(manifest)[k])
  {
    seq(|Lines(manifest)|, k requires 0 <= k < |Lines(manifest)| => ReadLine(Lines(manifest)[k]))
  }

  /** The workspace dependencies a manifest names before its dev-dependencies. */
  function NamedBy(lines: seq<Line>): seq<string> {
    if lines == [] || lines[0].DevDependencies? then []
    else (if lines[0].Names? then [lines[0].dependency] else []) + NamedBy(lines[1..])
  }

  ghost predicate NamesBeforeDev(lines: seq<Line>, dependency: string, k: nat) {
    k < |lines| && lines[k] == Names(dependency) && forall j | 0 <= j < k :: !lines[j].DevDependencies?
  }

  /** A dependency is named by a line with no dev-dependencies header before it. */
  lemma {:induction false} NamedByMeaning(lines: seq<Line>, dependency: string)
    ensures dependency in NamedBy(lines) <==> exists k: nat :: NamesBeforeDev(lines, dependency, k)
  {
    if lines != [] {
      NamedByMeaning(lines[1..], dependency);
      if dependency in NamedBy(lines[1..]) && !lines[0].DevDependencies? {
        var k: nat :| NamesBeforeDev(lines[1..], dependency, k);
        assert NamesBeforeDev(lines, dependency, k + 1);
      }
      if lines[0] == Names(dependency) { assert NamesBeforeDev(lines, dependency, 0); }
      if k: nat :| NamesBeforeDev(lines, dependency, k) {
        if k > 0 {
          assert !lines[0].DevDependencies? && NamesBeforeDev(lines[1..], dependency, k - 1);
        }
      }
    }
  }

  function Dependencies(tree: Tree, name: string): seq<string> {
    match ManifestOf(tree, name)
    case None => []
    case Some(manifest) => NamedBy(tree.read(manifest))
  }

  // ---------- What a manifest line says ----------

  /** Blanks, and the header that ends the reading. */
  ghost predicate IsDevHeader(line: string) {
    exists blank, rest :: IsBlank(blank) && line == blank + "[dev-dependencies]" + rest
  }

  /** The pieces of a line: blanks, a key, blanks, and nothing or the first `=` and anything. */
  ghost predicate KeySplits(line: string, blank: string, key: string, trail: string, value: string) {
    && line == blank + key + trail + value && IsBlank(blank) && IsBlank(trail)
    && '=' !in key && (value != "" ==> value[0] == '=')
    && key != "" && !IsWhitespace(key[0]) && !IsWhitespace(key[|key| - 1])
  }

  /** The line's key is the name of a crate of the workspace. */
  ghost predicate NamesCrate(line: string, name: string) {
    "sankhya-" <= name && exists blank, trail, value :: KeySplits(line, blank, name, trail, value)
  }

  lemma HeaderIsRead(line: string)
    ensures "[dev-dependencies]" <= TrimStart(line) <==> IsDevHeader(line)
  {
    if "[dev-dependencies]" <= TrimStart(line) {
      var blank := TrimStartSplit(line);
      var rest := TrimStart(line)[|"[dev-dependencies]"|..];
      assert line == blank + "[dev-dependencies]" + rest;
    }
    if blank, rest :| IsBlank(blank) && line == blank + "[dev-dependencies]" + rest {
      HeaderAfter(line, blank, "[dev-dependencies]" + rest);
    }
  }

  lemma HeaderAfter(line: string, blank: string, more: string)
    requires IsBlank(blank) && line == blank + more && more != "" && !IsWhitespace(more[0])
    ensures TrimStart(line) == more
  {
    TrimStartIgnores(blank, more);
  }

  lemma KeyIsRead(line: string, name: string)
    requires "sankhya-" <= name
    ensures Trim(BeforeFirst(line, '=')) == name <==> NamesCrate(line, name)
  {
    if Trim(BeforeFirst(line, '=')) == name {
      var before, value := BeforeFirstSplit(line, '=');
      var blank, trail := TrimSplit(before);
      TrimmedEnds(before);
      assert line == blank + name + trail + value;
      assert forall c | c in name :: c in before;
      assert KeySplits(line, blank, name, trail, value);
    }
    if NamesCrate(line, name) {
      var blank, trail, value :| KeySplits(line, blank, name, trail, value);
      BeforeFirstIs(line, '=', blank + name + trail, value);
      TrimIgnores(blank, name, trail);
      TrimKeeps(name);
    }
  }

  lemma HeaderIsNoKey(line: string, name: string)
    requires "sankhya-" <= name && Trim(BeforeFirst(line, '=')) == name
    ensures !("[dev-dependencies]" <= TrimStart(line))
  {
    var before, value := BeforeFirstSplit(line, '=');
    var blank, trail := TrimSplit(before);
    assert line == blank + (name + trail + value);
    HeaderAfter(line, blank, name + trail + value);
    assert (name + trail + value)[0] == "sankhya-"[0];
  }

  /** What a line is read as, by its text. */
  lemma LineIsRead(line: string, name: string)
    ensures ReadLine(line) == DevDependencies <==> IsDevHeader(line)
    ensures ReadLine(line) == Names(name) <==> NamesCrate(line, name)
  {
    HeaderIsRead(line);
    if "sankhya-" <= name {
      KeyIsRead(line, name);
      if Trim(BeforeFirst(line, '=')) == name { HeaderIsNoKey(line, name); }
    }
  }

  /** The manifest read for a crate: under `crates/` if it has one there, readable or not, else under `packs/`. */
  ghost predicate HasManifest(tree: Tree, name: string, manifest: string) {
    || (name in tree.crates && tree.crates[name] == Some(manifest))
    || (name !in tree.crates && name in tree.packs && tree.packs[name] == manifest)
  }

  /** Some line of the manifest names the crate, and no line before it opens the dev-dependencies. */
  ghost predicate NamedInManifest(manifest: string, name: string) {
    exists k: nat :: k < |Lines(manifest)| && NamesCrate(Lines(manifest)[k], name)
                     && forall j | 0 <= j < k :: !IsDevHeader(Lines(manifest)[j])
  }

  lemma NamedAtLine(manifest: string, name: string, k: nat)
    ensures NamesBeforeDev(ReadManifest(manifest), name, k)
            <==> k < |Lines(manifest)| && NamesCrate(Lines(manifest)[k], name)
                 && forall j | 0 <= j < k :: !IsDevHeader(Lines(manifest)[j])
  {
    forall j: nat | j < |Lines(manifest)|
      ensures ReadManifest(manifest)[j] == DevDependencies <==> IsDevHeader(Lines(manifest)[j])
      ensures ReadManifest(manifest)[j] == Names(name) <==> NamesCrate(Lines(manifest)[j], name)
    {
      LineIsRead(Lines(manifest)[j], name);
    }
  }

  /** In the tool's reading, on the text of the manifest. */
  lemma DependsExactlyWhenNamed(tree: Tree, name: string, dependency: string)
    requires tree.read == ReadManifest
    ensures dependency in Dependencies(tree, name)
            <==> exists manifest :: HasManifest(tree, name, manifest) && NamedInManifest(manifest, dependency)
  {
    if ManifestOf(tree, name).Some? {
      var manifest := ManifestOf(tree, name).value;
      assert HasManifest(tree, name, manifest);
      NamedByMeaning(ReadManifest(manifest), dependency);
      forall k: nat ensures NamesBeforeDev(ReadManifest(manifest), dependency, k)
                            <==> k < |Lines(manifest)| && NamesCrate(Lines(manifest)[k], dependency)
                                 && forall j | 0 <= j < k :: !IsDevHeader(Lines(manifest)[j])
      {
        NamedAtLine(manifest, dependency, k);
      }
    }
  }

  // ---------- What reaching means ----------

  /** A chain of dependencies. */
  ghost predicate Chain(tree: Tree, path: seq<string>) {
    path != [] && forall k | 0 <= k < |path| - 1 :: path[k + 1] in Dependencies(tree, path[k])
  }

  ghost predicate Reaches(tree: Tree, start: string, name: string) {
    exists path :: Chain(tree, path) && path[0] == start && path[|path| - 1] == name
  }

  lemma ReachesItself(tree: Tree, start: string)
    ensures Reaches(tree, start, start)
  {
    assert Chain(tree, [start]);
  }

  lemma ReachesOn(tree: Tree, start: string, name: string, next: string)
    requires Reaches(tree, start, name) && next in Dependencies(tree, name)
    ensures Reaches(tree, start, next)
  {
    var path :| Chain(tree, path) && path[0] == start && path[|path| - 1] == name;
    var longer := path + [next];
    assert Chain(tree, longer) && longer[0] == start && longer[|longer| - 1] == next;
  }

  ghost predicate ClosedUnderDependencies(tree: Tree, names: set<string>) {
    forall n, d | n in names && d in Dependencies(tree, n) :: d in names
  }

  lemma {:induction false} ChainStaysInside(tree: Tree, names: set<string>, path: seq<string>, k: nat)
    requires ClosedUnderDependencies(tree, names) && Chain(tree, path) && path[0] in names && k < |path|
    ensures path[k] in names
  {
    if k > 0 {
      ChainStaysInside(tree, names, path, k - 1);
      assert path[k - 1 + 1] in Dependencies(tree, path[k - 1]);
    }
  }

  /** Every name a queue could ever hold. */
  ghost function Mentioned(tree: Tree, start: string): set<string> {
    {start} + set n, d | n in tree.crates.Keys + tree.packs.Keys && d in Dependencies(tree, n) :: d
  }

  // ---------- The worklist ----------

  ghost predicate Known(tree: Tree, start: string, name: string) {
    Reaches(tree, start, name) && name in Mentioned(tree, start)
  }

  ghost predicate Sound(tree: Tree, start: string, reached: set<string>, queue: seq<string>) {
    && (forall n | n in reached :: Known(tree, start, n))
    && (forall n | n in queue :: Known(tree, start, n))
  }

  ghost predicate Pending(tree: Tree, reached: set<string>, queue: seq<string>) {
    forall n, d | n in reached && d in Dependencies(tree, n) :: d in reached || d in queue
  }

  method PushDependencies(lines: seq<Line>, queue0: seq<string>) returns (queue: seq<string>)
    ensures queue == queue0 + NamedBy(lines)
  {
    queue := queue0;
    for k := 0 to |lines|
      invariant queue + NamedBy(lines[k..]) == queue0 + NamedBy(lines)
    {
      assert lines[k..][0] == lines[k] && lines[k..][1..] == lines[k + 1..];
      if lines[k].DevDependencies? {
        return;
      }
      if lines[k].Names? {
        queue := queue + [lines[k].dependency];
      }
    }
  }

  lemma KnownOn(tree: Tree, start: string, name: string, next: string)
    requires Known(tree, start, name) && next in Dependencies(tree, name)
    ensures Known(tree, start, next)
  {
    ReachesOn(tree, start, name, next);
    assert name in tree.crates.Keys + tree.packs.Keys;
  }

  lemma Expand(tree: Tree, start: string, reached: set<string>, queue: seq<string>, name: string)
    requires Sound(tree, start, reached, queue) && Known(tree, start, name)
    requires Pending(tree, reached, queue + [name])
    ensures var more := queue + Dependencies(tree, name);
            Sound(tree, start, reached + {name}, more) && Pending(tree, reached + {name}, more)
  {
    forall d | d in Dependencies(tree, name) ensures Known(tree, start, d) {
      KnownOn(tree, start, name, d);
    }
    SoundGrows(tree, start, reached, queue, name, Dependencies(tree, name));
    PendingGrows(tree, reached, queue, name);
  }

  lemma SoundGrows(tree: Tree, start: string, reached: set<string>, queue: seq<string>, name: string, more: seq<string>)
    requires Sound(tree, start, reached, queue) && Known(tree, start, name)
    requires forall d | d in more :: Known(tree, start, d)
    ensures Sound(tree, start, reached + {name}, queue + more)
  {
  }

  lemma PendingGrows(tree: Tree, reached: set<string>, queue: seq<string>, name: string)
    requires Pending(tree, reached, queue + [name])
    ensures Pending(tree, reached + {name}, queue + Dependencies(tree, name))
  {
    var more := queue + Dependencies(tree, name);
    forall n, d | n in reached + {name} && d in Dependencies(tree, n) ensures d in reached + {name} || d in more {
      if n == name {
        assert d in more;
      } else {
        assert d in reached || d in queue + [name];
      }
    }
  }

  lemma Pop(tree: Tree, start: string, reached: set<string>, queue: seq<string>, name: string)
    requires Sound(tree, start, reached, queue + [name])
    ensures Sound(tree, start, reached, queue) && Known(tree, start, name)
  {
    assert name in queue + [name];
    forall n | n in queue ensures Known(tree, start, n) {
      assert n in queue + [name];
    }
  }

  lemma PopRepeated(tree: Tree, reached: set<string>, queue: seq<string>, name: string)
    requires Pending(tree, reached, queue + [name]) && name in reached
    ensures Pending(tree, reached, queue)
  {
    forall n, d | n in reached && d in Dependencies(tree, n) ensures d in reached || d in queue {
      assert d in reached || d in queue + [name];
    }
  }

  /** Where the traversal stands. */
  ghost predicate Searching(tree: Tree, start: string, reached: set<string>, queue: seq<string>) {
    (start in reached || start in queue) && Sound(tree, start, reached, queue) && Pending(tree, reached, queue)
  }

  lemma SearchStarts(tree: Tree, start: string)
    ensures Searching(tree, start, {}, [start])
  {
    ReachesItself(tree, start);
  }

  lemma SearchSkips(tree: Tree, start: string, reached: set<string>, rest: seq<string>, name: string)
    requires Searching(tree, start, reached, rest + [name]) && name in reached
    ensures Searching(tree, start, reached, rest)
  {
    Pop(tree, start, reached, rest, name);
    PopRepeated(tree, reached, rest, name);
  }

  lemma SearchGoesOn(tree: Tree, start: string, reached: set<string>, rest: seq<string>, name: string)
    requires Searching(tree, start, reached, rest + [name]) && name !in reached
    ensures Searching(tree, start, reached + {name}, rest + Dependencies(tree, name))
    ensures name in Mentioned(tree, start)
  {
    Pop(tree, start, reached, rest, name);
    Expand(tree, start, reached, rest, name);
  }

  lemma ClosedHoldsReached(tree: Tree, start: string, reached: set<string>, n: string)
    requires ClosedUnderDependencies(tree, reached) && start in reached && Reaches(tree, start, n)
    ensures n in reached
  {
    var path :| Chain(tree, path) && path[0] == start && path[|path| - 1] == n;
    ChainStaysInside(tree, reached, path, |path| - 1);
  }

  lemma NothingPending(tree: Tree, reached: set<string>)
    requires Pending(tree, reached, [])
    ensures ClosedUnderDependencies(tree, reached)
  {
  }

  lemma SearchEnds(tree: Tree, start: string, reached: set<string>)
    requires Searching(tree, start, reached, [])
    ensures forall n :: n in reached <==> Reaches(tree, start, n)
  {
    NothingPending(tree, reached);
    forall n ensures n in reached <==> Reaches(tree, start, n) {
      if n in reached { assert Known(tree, start, n); }
      if Reaches(tree, start, n) { ClosedHoldsReached(tree, start, reached, n); }
    }
  }

  /** Exactly the crates some chain of dependencies leads to, the start itself included. */
  method ReachableFrom(tree: Tree, start: string) returns (reached: set<string>)
    ensures forall n :: n in reached <==> Reaches(tree, start, n)
  {
    reached := {};
    var queue := [start];
    SearchStarts(tree, start);
    while queue != []
      invariant Searching(tree, start, reached, queue)
      decreases Mentioned(tree, start) - reached, |queue|
    {
      var name := queue[|queue| - 1];
      var rest := queue[..|queue| - 1];
      assert queue == rest + [name];
      queue := rest;
      if name in reached {
        SearchSkips(tree, start, reached, rest, name);
        continue;
      }
      SearchGoesOn(tree, start, reached, rest, name);
      reached := reached + {name};
      match ManifestOf(tree, name) {
        case None =>
          assert rest + [] == rest;
          continue;
        case Some(manifest) =>
          queue := PushDependencies(tree.read(manifest), queue);
      }
    }
    SearchEnds(tree, start, reached);
  }

  // ---------- Every crate reached, or listed ----------

  datatype Verdict = Passed | Failed | Panicked

  ghost predicate ReachedFrom(tree: Tree, served: set<string>, roots: seq<string>, name: string) {
    name in served || exists root | root in roots :: Reaches(tree, root, name)
  }

  /** The reason the first entry under a name gives. */
  function ReasonFor(unreached: seq<(string, string)>, name: string): Option<string> {
    if unreached == [] then None
    else if unreached[0].0 == name then Some(unreached[0].1)
    else ReasonFor(unreached[1..], name)
  }

  /** The reason is that of the first entry under the name. */
  lemma {:induction false} ReasonIsTheFirst(unreached: seq<(string, string)>, name: string, why: string)
    ensures ReasonFor(unreached, name) == Some(why)
            <==> exists k :: 0 <= k < |unreached| && unreached[k] == (name, why)
                             && forall j | 0 <= j < k :: unreached[j].0 != name
  {
    if unreached != [] {
      ReasonIsTheFirst(unreached[1..], name, why);
      if unreached[0].0 != name && ReasonFor(unreached, name) == Some(why) {
        var k :| 0 <= k < |unreached[1..]| && unreached[1..][k] == (name, why)
                 && forall j | 0 <= j < k :: unreached[1..][j].0 != name;
        assert unreached[k + 1] == (name, why);
        assert forall j | 0 < j < k + 1 :: unreached[j] == unreached[1..][j - 1];
      }
      if k :| 0 <= k < |unreached| && unreached[k] == (name, why) && forall j | 0 <= j < k :: unreached[j].0 != name {
        if k > 0 {
          assert unreached[1..][k - 1] == (name, why);
          assert forall j | 0 <= j < k - 1 :: unreached[1..][j] == unreached[j + 1];
        }
      }
    }
  }

  lemma {:induction false} ReasonExists(unreached: seq<(string, string)>, name: string)
    ensures ReasonFor(unreached, name).Some? <==> exists e :: e in unreached && e.0 == name
  {
    if unreached != [] {
      ReasonExists(unreached[1..], name);
      assert forall e :: e in unreached <==> e == unreached[0] || e in unreached[1..];
      if unreached[0].0 == name { assert unreached[0] in unreached; }
    }
  }

  ghost predicate Stranded(tree: Tree, served: set<string>, roots: seq<string>, names: seq<string>, name: string) {
    name in names && !ReachedFrom(tree, served, roots, name)
  }

  /** The gate passes exactly when the list of excuses names the stranded crates and nothing else. */
  ghost predicate ListIsExact(tree: Tree, served: set<string>, roots: seq<string>, names: seq<string>,
                              unreached: seq<(string, string)>)
  {
    forall n :: Stranded(tree, served, roots, names, n) <==> exists e :: e in unreached && e.0 == n
  }

  /** An excuse that is used and gives no usable reason: the check panics rather than passing. */
  ghost predicate EmptyExcuse(tree: Tree, served: set<string>, roots: seq<string>, names: seq<string>,
                              unreached: seq<(string, string)>, name: string)
  {
    && Stranded(tree, served, roots, names, name)
    && ReasonFor(unreached, name).Some?
    && |ReasonFor(unreached, name).value| <= 30
  }

  lemma ExactOrNot(tree: Tree, served: set<string>, roots: seq<string>, names: seq<string>,
                   unreached: seq<(string, string)>, listed: set<string>, allListed: bool)
    requires forall n :: n in listed
                         <==> Stranded(tree, served, roots, names, n) && ReasonFor(unreached, n).Some?
    requires allListed <==> forall n | Stranded(tree, served, roots, names, n) :: ReasonFor(unreached, n).Some?
    ensures allListed && (forall j | 0 <= j < |unreached| :: unreached[j].0 in listed)
            <==> ListIsExact(tree, served, roots, names, unreached)
  {
    forall n ensures ReasonFor(unreached, n).Some? <==> exists e :: e in unreached && e.0 == n {
      ReasonExists(unreached, n);
    }
    if ListIsExact(tree, served, roots, names, unreached) {
      forall j | 0 <= j < |unreached| ensures unreached[j].0 in listed {
        assert unreached[j] in unreached;
        assert Stranded(tree, served, roots, names, unreached[j].0);
      }
    }
  }

  method ReachAll(tree: Tree, served: set<string>, roots: seq<string>) returns (reached: set<string>)
    ensures forall n :: n in reached <==> ReachedFrom(tree, served, roots, n)
  {
    reached := served;
    for k := 0 to |roots|
      invariant forall n :: n in reached <==> ReachedFrom(tree, served, roots[..k], n)
    {
      var more := ReachableFrom(tree, roots[k]);
      assert roots[..k + 1] == roots[..k] + [roots[k]];
      reached := reached + more;
    }
    assert roots[..|roots|] == roots;
  }

  method EveryCrateIsReachableOrOwned(tree: Tree, served: set<string>, roots: seq<string>, names: seq<string>,
                                      unreached: seq<(string, string)>)
    returns (verdict: Verdict)
    ensures verdict == Panicked <==> exists n :: EmptyExcuse(tree, served, roots, names, unreached, n)
    ensures verdict != Panicked ==> (verdict == Passed <==> ListIsExact(tree, served, roots, names, unreached))
  {
    var reached := ReachAll(tree, served, roots);
    var ok := true;
    var listed: set<string> := {};
    for k := 0 to |names|
      invariant forall n :: n in listed <==> n in names[..k] && n !in reached && ReasonFor(unreached, n).Some?
      invariant ok <==> forall n | n in names[..k] && n !in reached :: ReasonFor(unreached, n).Some?
      invariant forall n | n in listed :: !EmptyExcuse(tree, served, roots, names, unreached, n)
    {
      var name := names[k];
      assert names[..k + 1] == names[..k] + [name];
      if name in reached { continue; }
      match ReasonFor(unreached, name) {
        case Some(why) =>
          if |why| <= 30 {
            assert EmptyExcuse(tree, served, roots, names, unreached, name);
            return Panicked;
          }
          listed := listed + {name};
        case None =>
          ok := false;
      }
    }
    assert names[..|names|] == names;
    ghost var allListed := ok;
    for k := 0 to |unreached|
      invariant ok <==> allListed && forall j | 0 <= j < k :: unreached[j].0 in listed
    {
      if unreached[k].0 !in listed {
        ok := false;
      }
    }
    ExactOrNot(tree, served, roots, names, unreached, listed, allListed);
    return if ok then Passed else Failed;
  }
}
