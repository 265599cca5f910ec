/** `check-layers`: the direction rules, and the depth-first search for a cycle. */
module DependencyGraph {
  import opened Text

  datatype Crate = Crate(name: string, layer: nat, deps: seq<string>)

  type Graph = g: map<string, Crate> | forall n | n in g :: g[n].name == n

  /** The crates by name; of two with one name the later stands. */
  function ByName(crates: seq<Crate>): (g: Graph)
    ensures forall n | n in g :: g[n] in crates
    ensures forall c | c in crates :: c.name in g
  {
    if crates == [] then map[]
    else
      var last := crates[|crates| - 1];
      ByName(crates[..|crates| - 1])[last.name := last]
  }

  // ---------- Cycles ----------

  predicate Edge(g: Graph, u: string, v: string) {
    u in g && v in g && v in g[u].deps
  }

  ghost predicate Walk(g: Graph, w: seq<string>) {
    forall k | 0 <= k < |w| - 1 :: Edge(g, w[k], w[k + 1])
  }

  ghost predicate ClosedWalk(g: Graph, w: seq<string>) {
    |w| >= 2 && Walk(g, w) && w[0] == w[|w| - 1]
  }

  ghost predicate Acyclic(g: Graph) {
    forall w :: !ClosedWalk(g, w)
  }

  /** What the search reports: a walk whose last entry repeats an earlier one. */
  ghost predicate EndsInCycle(g: Graph, w: seq<string>) {
    |w| >= 2 && Walk(g, w) && w[|w| - 1] in w[..|w| - 1]
  }

  lemma ReportIsCycle(g: Graph, w: seq<string>)
    requires EndsInCycle(g, w)
    ensures !Acyclic(g)
  {
    var i :| 0 <= i < |w| - 1 && w[i] == w[|w| - 1];
    assert ClosedWalk(g, w[i..]);
  }

  // ---------- The search ----------

  datatype Mark = Open | Done

  /** Every edge out of a finished node leads to one that finished before it. */
  ghost predicate FinishOrder(g: Graph, finished: seq<string>) {
    forall k, v | 0 <= k < |finished| && Edge(g, finished[k], v) :: v in finished[..k]
  }

  /** Open nodes are exactly the stack, which is a walk; done nodes are a finish order. */
  ghost predicate SearchState(g: Graph, marks: map<string, Mark>, stack: seq<string>, finished: seq<string>) {
    && marks.Keys <= g.Keys
    && (forall n :: n in stack <==> n in marks && marks[n] == Open)
    && (forall n :: n in finished <==> n in marks && marks[n] == Done)
    && (forall i, j | 0 <= i < j < |stack| :: stack[i] != stack[j])
    && Walk(g, stack)
    && FinishOrder(g, finished)
  }

  lemma OpenNode(g: Graph, marks: map<string, Mark>, stack: seq<string>, finished: seq<string>, name: string)
    requires SearchState(g, marks, stack, finished) && name in g && name !in marks
    requires stack != [] ==> Edge(g, stack[|stack| - 1], name)
    ensures SearchState(g, marks[name := Open], stack + [name], finished)
  {
    PushWalk(g, stack, name);
    assert name !in stack && name !in finished;
  }

  lemma CloseNode(g: Graph, marks: map<string, Mark>, stack: seq<string>, finished: seq<string>, name: string)
    requires SearchState(g, marks, stack + [name], finished)
    requires name in g && forall d | d in g && d in g[name].deps :: d in finished
    ensures SearchState(g, marks[name := Done], stack, finished + [name])
  {
    var pushed := stack + [name];
    assert pushed[|stack|] == name && name in pushed;
    forall i | 0 <= i < |stack| ensures stack[i] != name && stack[i] in pushed {
      assert pushed[i] == stack[i];
    }
    assert forall n | n in pushed :: n == name || n in stack;
    forall i, j | 0 <= i < j < |stack| ensures stack[i] != stack[j] {
      assert pushed[i] == stack[i] && pushed[j] == stack[j];
    }
    PopWalk(g, stack, name);
    ExtendFinishOrder(g, finished, name);
  }

  /** Every internal dependency of the list is finished. */
  ghost predicate AllFinished(g: Graph, deps: seq<string>, finished: seq<string>) {
    forall d | d in deps && d in g :: d in finished
  }

  lemma FinishedNext(g: Graph, deps: seq<string>, k: nat, finished0: seq<string>, finished: seq<string>)
    requires k < |deps| && AllFinished(g, deps[..k], finished0) && finished0 <= finished
    requires deps[k] in g ==> deps[k] in finished
    ensures AllFinished(g, deps[..k + 1], finished)
  {
    assert deps[..k + 1] == deps[..k] + [deps[k]];
    assert forall d | d in finished0 :: d in finished;
  }

  class CycleSearch {
    const g: Graph
    var marks: map<string, Mark>
    var stack: seq<string>
    ghost var finished: seq<string>

    constructor (graph: Graph)
      ensures g == graph && Valid() && marks == map[] && stack == []
    {
      g := graph;
      marks := map[];
      stack := [];
      finished := [];
    }

    ghost predicate Valid()
      reads this
    {
      SearchState(g, marks, stack, finished)
    }

    method Enter(name: string)
      requires Valid() && name in g && name !in marks
      requires stack != [] ==> Edge(g, stack[|stack| - 1], name)
      modifies this
      ensures Valid() && stack == old(stack) + [name]
      ensures marks == old(marks)[name := Open] && finished == old(finished)
    {
      OpenNode(g, marks, stack, finished, name);
      marks := marks[name := Open];
      stack := stack + [name];
    }

    method Leave(name: string)
      requires Valid() && name in g && stack != [] && stack[|stack| - 1] == name
      requires AllFinished(g, g[name].deps, finished)
      modifies this
      ensures Valid() && stack == old(stack)[..|old(stack)| - 1]
      ensures marks == old(marks)[name := Done] && finished == old(finished) + [name]
    {
      assert stack == stack[..|stack| - 1] + [name];
      CloseNode(g, marks, stack[..|stack| - 1], finished, name);
      stack := stack[..|stack| - 1];
      marks := marks[name := Done];
      finished := finished + [name];
    }

    method Visit(name: string) returns (cycle: Option<seq<string>>)
      requires Valid()
      requires stack != [] ==> Edge(g, stack[|stack| - 1], name)
      modifies this
      ensures cycle.Some? ==> EndsInCycle(g, cycle.value)
      ensures cycle.None? ==> Valid() && stack == old(stack) && (name in g ==> name in finished)
      ensures cycle.None? ==> old(marks.Keys) <= marks.Keys && old(finished) <= finished
      decreases g.Keys - marks.Keys
    {
      if name in marks {
        match marks[name]
        case Done => return None;
        case Open =>
          StackIsCycle(g, stack, name);
          return Some(stack + [name]);
      }
      if name !in g {
        return None;
      }
      var crate := g[name];
      ghost var stack0 := stack;
      Enter(name);
      for k := 0 to |crate.deps|
        invariant Valid() && stack == stack0 + [name]
        invariant old(marks.Keys) + {name} <= marks.Keys && old(finished) <= finished
        invariant AllFinished(g, crate.deps[..k], finished)
      {
        var dep := crate.deps[k];
        ghost var finished0 := finished;
        if dep in g {
          assert Edge(g, stack[|stack| - 1], dep);
          cycle := Visit(g[dep].name);
          if cycle.Some? {
            return;
          }
        }
        FinishedNext(g, crate.deps, k, finished0, finished);
      }
      assert crate.deps[..|crate.deps|] == crate.deps;
      Leave(name);
      assert stack == stack0;
      return None;
    }
  }

  lemma StackIsCycle(g: Graph, stack: seq<string>, name: string)
    requires Walk(g, stack) && name in stack && Edge(g, stack[|stack| - 1], name)
    ensures EndsInCycle(g, stack + [name])
  {
    PushWalk(g, stack, name);
    assert (stack + [name])[..|stack|] == stack;
  }

  lemma PushWalk(g: Graph, stack: seq<string>, name: string)
    requires Walk(g, stack) && (stack != [] ==> Edge(g, stack[|stack| - 1], name))
    ensures Walk(g, stack + [name])
  {
  }

  lemma PopWalk(g: Graph, stack: seq<string>, name: string)
    requires Walk(g, stack + [name])
    ensures Walk(g, stack)
  {
    forall k | 0 <= k < |stack| - 1 ensures Edge(g, stack[k], stack[k + 1]) {
      assert (stack + [name])[k] == stack[k] && (stack + [name])[k + 1] == stack[k + 1];
    }
  }

  lemma ExtendFinishOrder(g: Graph, finished: seq<string>, name: string)
    requires FinishOrder(g, finished) && forall v | Edge(g, name, v) :: v in finished
    ensures FinishOrder(g, finished + [name])
  {
    var more := finished + [name];
    forall k, v | 0 <= k < |more| && Edge(g, more[k], v) ensures v in more[..k] {
      if k < |finished| {
        assert more[k] == finished[k] && more[..k] == finished[..k];
      } else {
        assert more[..k] == finished;
      }
    }
  }

  function FirstIndex(s: seq<string>, n: string): (i: nat)
    requires n in s
    ensures i < |s| && s[i] == n && n !in s[..i]
  {
    if s[0] == n then 0
    else
      var i := FirstIndex(s[1..], n);
      assert s[..i + 1] == [s[0]] + s[1..][..i];
      i + 1
  }

  lemma {:induction false} FirstIndexAtMost(s: seq<string>, n: string, j: nat)
    requires j < |s| && s[j] == n
    ensures FirstIndex(s, n) <= j
  {
    if s[0] != n {
      FirstIndexAtMost(s[1..], n, j - 1);
    }
  }

  lemma {:induction false} WalkDescends(g: Graph, finished: seq<string>, w: seq<string>, k: nat)
    requires FinishOrder(g, finished) && Walk(g, w) && 0 < k < |w| && w[0] in finished
    ensures w[k] in finished && FirstIndex(finished, w[k]) < FirstIndex(finished, w[0])
  {
    if k > 1 {
      WalkDescends(g, finished, w, k - 1);
    }
    assert Edge(g, w[k - 1], w[k]);
    var i := FirstIndex(finished, w[k - 1]);
    assert w[k] in finished[..i];
    var j :| 0 <= j < i && finished[j] == w[k];
    FirstIndexAtMost(finished, w[k], j);
  }

  lemma FinishedIsAcyclic(g: Graph, finished: seq<string>)
    requires FinishOrder(g, finished) && forall n | n in g :: n in finished
    ensures Acyclic(g)
  {
    forall w ensures !ClosedWalk(g, w) {
      if |w| >= 2 && Walk(g, w) {
        assert Edge(g, w[0], w[1]);
        WalkDescends(g, finished, w, |w| - 1);
      }
    }
  }

  /** Nothing is reported exactly when the internal graph has no cycle. */
  method FindCycle(crates: seq<Crate>, byName: Graph) returns (cycle: Option<seq<string>>)
    requires forall n | n in byName :: byName[n] in crates
    ensures cycle.None? <==> Acyclic(byName)
    ensures cycle.Some? ==> EndsInCycle(byName, cycle.value)
  {
    var search := new CycleSearch(byName);
    for k := 0 to |crates|
      invariant search.Valid() && search.stack == []
      invariant forall j | 0 <= j < k && crates[j].name in byName :: crates[j].name in search.finished
    {
      cycle := search.Visit(crates[k].name);
      if cycle.Some? {
        ReportIsCycle(byName, cycle.value);
        return;
      }
    }
    forall n | n in byName ensures n in search.finished {
      assert byName[n] in crates;
    }
    FinishedIsAcyclic(byName, search.finished);
    return None;
  }

  // ---------- The direction rules ----------

  const LAYER_PACK := 99
  const LAYER_TOOLING := 100
  const PACK_ALLOWANCE := ["sankhya-ext", "sankhya-types", "sankhya-error"]

  /** The rules for one edge, in the order the check applies them. */
  predicate EdgeAllowed(c: Crate, dep: Crate, allowance: seq<string>) {
    if c.layer == LAYER_PACK then dep.name in allowance
    else if dep.layer == LAYER_PACK then false
    else if dep.layer == LAYER_TOOLING then false
    else !(dep.layer > c.layer && c.layer != LAYER_TOOLING)
  }

  predicate DepsAllowed(c: Crate, g: Graph, allowance: seq<string>) {
    forall d | d in c.deps && d in g :: EdgeAllowed(c, g[d], allowance)
  }

  predicate DirectionsHold(crates: seq<Crate>, g: Graph, allowance: seq<string>) {
    forall c | c in crates :: DepsAllowed(c, g, allowance)
  }

  predicate RulesHold(crates: seq<Crate>, allowance: seq<string>) {
    DirectionsHold(crates, ByName(crates), allowance)
  }

  /** The direction rules over the edges of one crate. */
  method CheckDependencies(crate: Crate, byName: Graph, allowance: seq<string>) returns (ok: bool)
    ensures ok <==> DepsAllowed(crate, byName, allowance)
  {
    ok := true;
    for j := 0 to |crate.deps|
      invariant ok <==> forall d | d in crate.deps[..j] && d in byName :: EdgeAllowed(crate, byName[d], allowance)
    {
      var d := crate.deps[j];
      assert crate.deps[..j + 1] == crate.deps[..j] + [d];
      if d !in byName { continue; }
      var dep := byName[d];
      if crate.layer == LAYER_PACK {
        if d !in allowance {
          ok := false;
        }
        continue;
      }
      if dep.layer == LAYER_PACK {
        ok := false;
        continue;
      }
      if dep.layer == LAYER_TOOLING {
        ok := false;
        continue;
      }
      if dep.layer > crate.layer && crate.layer != LAYER_TOOLING {
        ok := false;
      }
    }
    assert crate.deps[..|crate.deps|] == crate.deps;
  }

  /** The direction rules over every crate. */
  method CheckDirections(crates: seq<Crate>, byName: Graph, allowance: seq<string>) returns (ok: bool)
    ensures ok <==> DirectionsHold(crates, byName, allowance)
  {
    ok := true;
    for i := 0 to |crates|
      invariant ok <==> forall k | 0 <= k < i :: DepsAllowed(crates[k], byName, allowance)
    {
      var fine := CheckDependencies(crates[i], byName, allowance);
      if !fine {
        ok := false;
      }
    }
  }

  method CheckLayers(crates: seq<Crate>) returns (ok: bool)
    ensures ok <==> RulesHold(crates, PACK_ALLOWANCE) && Acyclic(ByName(crates))
    ensures DistinctNames(crates) && AllOrdinary(crates) ==> (ok <==> PointsDownward(crates) && NoCircle(crates))
  {
    var byName := ByName(crates);
    ok := CheckDirections(crates, byName, PACK_ALLOWANCE);
    var cycle := FindCycle(crates, byName);
    if cycle.Some? {
      ok := false;
    }
    PassesExactlyWhen(crates);
  }

  // ---------- The rules and the graph, said of the list of crates ----------

  ghost predicate DistinctNames(crates: seq<Crate>) {
    forall i, j | 0 <= i < j < |crates| :: crates[i].name != crates[j].name
  }

  lemma {:induction false} LaterStands(crates: seq<Crate>, k: nat)
    requires k < |crates| && forall j | k < j < |crates| :: crates[j].name != crates[k].name
    ensures crates[k].name in ByName(crates) && ByName(crates)[crates[k].name] == crates[k]
  {
    var last := |crates| - 1;
    if k < last {
      assert crates[last].name != crates[k].name;
      LaterStands(crates[..last], k);
    }
  }

  /** A crate of the list depends on another by its name. */
  predicate DependsOn(c: Crate, dep: Crate) {
    dep.name in c.deps
  }

  lemma StandsForItself(crates: seq<Crate>, c: Crate)
    requires DistinctNames(crates) && c in crates
    ensures c.name in ByName(crates) && ByName(crates)[c.name] == c
  {
    var k :| 0 <= k < |crates| && crates[k] == c;
    LaterStands(crates, k);
  }

  lemma StandsFor(crates: seq<Crate>, name: string) returns (c: Crate)
    requires name in ByName(crates)
    ensures c in crates && c.name == name && c == ByName(crates)[name]
  {
    c := ByName(crates)[name];
  }

  /** The graph searched has an edge just where one crate of the list names another. */
  lemma EdgesAreDependencies(crates: seq<Crate>, u: string, v: string)
    requires DistinctNames(crates)
    ensures Edge(ByName(crates), u, v)
            <==> exists c, d :: c in crates && d in crates && c.name == u && d.name == v && DependsOn(c, d)
  {
    if Edge(ByName(crates), u, v) {
      var c := StandsFor(crates, u);
      var d := StandsFor(crates, v);
      assert DependsOn(c, d);
    }
    if c, d :| c in crates && d in crates && c.name == u && d.name == v && DependsOn(c, d) {
      StandsForItself(crates, c);
      StandsForItself(crates, d);
    }
  }

  /** One crate against the others it names, in the list's own terms. */
  lemma DepsAllowedMeaning(crates: seq<Crate>, c: Crate)
    requires DistinctNames(crates) && c in crates
    ensures DepsAllowed(c, ByName(crates), PACK_ALLOWANCE)
            <==> forall d | d in crates && DependsOn(c, d) :: EdgeAllowed(c, d, PACK_ALLOWANCE)
  {
    var g := ByName(crates);
    forall d | d in crates && DependsOn(c, d) ensures d.name in g && g[d.name] == d {
      StandsForItself(crates, d);
    }
  }

  /** A crate of an ordinary layer passes exactly when what it depends on is ordinary and in no higher layer. */
  lemma OrdinaryPassesExactlyWhen(crates: seq<Crate>, c: Crate)
    requires DistinctNames(crates) && c in crates && c.layer != 99 && c.layer != 100
    ensures DepsAllowed(c, ByName(crates), PACK_ALLOWANCE)
            <==> forall d | d in crates && DependsOn(c, d) :: d.layer != 99 && d.layer != 100 && d.layer <= c.layer
  {
    DepsAllowedMeaning(crates, c);
  }

  /** Tooling passes exactly when it depends on no pack and no other tooling, whatever the layer. */
  lemma ToolingPassesExactlyWhen(crates: seq<Crate>, c: Crate)
    requires DistinctNames(crates) && c in crates && c.layer == 100
    ensures DepsAllowed(c, ByName(crates), PACK_ALLOWANCE)
            <==> forall d | d in crates && DependsOn(c, d) :: d.layer != 99 && d.layer != 100
  {
    DepsAllowedMeaning(crates, c);
  }

  /** A pack passes exactly when each crate it depends on is one of three, by name, in whatever layer. */
  lemma PackPassesExactlyWhen(crates: seq<Crate>, c: Crate)
    requires DistinctNames(crates) && c in crates && c.layer == 99
    ensures DepsAllowed(c, ByName(crates), PACK_ALLOWANCE)
            <==> forall d | d in crates && DependsOn(c, d) ::
                   d.name == "sankhya-ext" || d.name == "sankhya-types" || d.name == "sankhya-error"
  {
    DepsAllowedMeaning(crates, c);
  }

  ghost predicate AllOrdinary(crates: seq<Crate>) {
    forall c | c in crates :: c.layer != 99 && c.layer != 100
  }

  /** No crate depends on one in a higher layer. */
  ghost predicate PointsDownward(crates: seq<Crate>) {
    forall c, d | c in crates && d in crates && DependsOn(c, d) :: d.layer <= c.layer
  }

  /** No crates of the list depend on each other in a circle. */
  ghost predicate NoCircle(crates: seq<Crate>) {
    forall w: seq<Crate> | |w| >= 2 && (forall c | c in w :: c in crates) && w[0] == w[|w| - 1] ::
      exists k :: 0 <= k < |w| - 1 && !DependsOn(w[k], w[k + 1])
  }

  lemma CircleIsClosedWalk(crates: seq<Crate>, w: seq<Crate>) returns (names: seq<string>)
    requires DistinctNames(crates) && |w| >= 2 && (forall c | c in w :: c in crates) && w[0] == w[|w| - 1]
    requires forall k | 0 <= k < |w| - 1 :: DependsOn(w[k], w[k + 1])
    ensures ClosedWalk(ByName(crates), names)
  {
    names := seq(|w|, k requires 0 <= k < |w| => w[k].name);
    forall k | 0 <= k < |names| - 1 ensures Edge(ByName(crates), names[k], names[k + 1]) {
      assert w[k] in w && w[k + 1] in w && DependsOn(w[k], w[k + 1]);
      EdgesAreDependencies(crates, names[k], names[k + 1]);
    }
  }

  lemma ClosedWalkIsCircle(crates: seq<Crate>, names: seq<string>) returns (w: seq<Crate>)
    requires DistinctNames(crates) && ClosedWalk(ByName(crates), names)
    ensures |w| >= 2 && (forall c | c in w :: c in crates) && w[0] == w[|w| - 1]
    ensures forall k | 0 <= k < |w| - 1 :: DependsOn(w[k], w[k + 1])
  {
    var g := ByName(crates);
    WalkInGraph(g, names);
    w := seq(|names|, k requires 0 <= k < |names| => g[names[k]]);
    forall k | 0 <= k < |w| - 1 ensures DependsOn(w[k], w[k + 1]) {
      assert Edge(g, names[k], names[k + 1]);
    }
  }

  lemma AcyclicMeansNoCircle(crates: seq<Crate>)
    requires DistinctNames(crates)
    ensures Acyclic(ByName(crates)) <==> NoCircle(crates)
  {
    if Acyclic(ByName(crates)) {
      forall w: seq<Crate> | |w| >= 2 && (forall c | c in w :: c in crates) && w[0] == w[|w| - 1]
        ensures exists k :: 0 <= k < |w| - 1 && !DependsOn(w[k], w[k + 1])
      {
        if forall k | 0 <= k < |w| - 1 :: DependsOn(w[k], w[k + 1]) {
          var names := CircleIsClosedWalk(crates, w);
        }
      }
    }
    if NoCircle(crates) {
      forall names ensures !ClosedWalk(ByName(crates), names) {
        if ClosedWalk(ByName(crates), names) {
          var w := ClosedWalkIsCircle(crates, names);
        }
      }
    }
  }

  /** The rules over crates of ordinary layers: every dependency points down, or along its own layer. */
  lemma RulesHoldExactlyWhenDownward(crates: seq<Crate>)
    requires DistinctNames(crates) && AllOrdinary(crates)
    ensures RulesHold(crates, PACK_ALLOWANCE) <==> PointsDownward(crates)
  {
    forall c | c in crates
      ensures DepsAllowed(c, ByName(crates), PACK_ALLOWANCE)
              <==> forall d | d in crates && DependsOn(c, d) :: d.layer <= c.layer
    {
      OrdinaryPassesExactlyWhen(crates, c);
    }
  }

  lemma PassesExactlyWhen(crates: seq<Crate>)
    ensures DistinctNames(crates) && AllOrdinary(crates) ==>
              (RulesHold(crates, PACK_ALLOWANCE) && Acyclic(ByName(crates))
               <==> PointsDownward(crates) && NoCircle(crates))
  {
    if DistinctNames(crates) && AllOrdinary(crates) {
      RulesHoldExactlyWhenDownward(crates);
      AcyclicMeansNoCircle(crates);
    }
  }

  // ---------- What the rules leave for the search ----------

  ghost predicate EdgesAllowed(g: Graph, allowance: seq<string>) {
    forall u, v | Edge(g, u, v) :: EdgeAllowed(g[u], g[v], allowance)
  }

  lemma RulesCoverEdges(crates: seq<Crate>, allowance: seq<string>)
    requires RulesHold(crates, allowance)
    ensures EdgesAllowed(ByName(crates), allowance)
  {
    var g := ByName(crates);
    forall u, v | Edge(g, u, v) ensures EdgeAllowed(g[u], g[v], allowance) {
      assert DepsAllowed(g[u], g, allowance);
    }
  }

  lemma {:induction false} PackSpreadsBack(g: Graph, allowance: seq<string>, w: seq<string>, k: nat)
    requires EdgesAllowed(g, allowance) && Walk(g, w) && k < |w|
    requires forall n | n in w :: n in g
    requires g[w[k]].layer == LAYER_PACK
    ensures forall j | 0 <= j <= k :: w[j] in w && g[w[j]].layer == LAYER_PACK
  {
    if k > 0 {
      assert Edge(g, w[k - 1], w[k]);
      PackSpreadsBack(g, allowance, w, k - 1);
    }
  }

  lemma {:induction false} LayersFall(g: Graph, allowance: seq<string>, w: seq<string>, i: nat, j: nat)
    requires EdgesAllowed(g, allowance) && Walk(g, w) && i <= j < |w|
    requires forall n | n in w :: n in g && g[n].layer != LAYER_PACK && g[n].layer != LAYER_TOOLING
    ensures g[w[j]].layer <= g[w[i]].layer
  {
    if i < j {
      assert Edge(g, w[j - 1], w[j]);
      LayersFall(g, allowance, w, i, j - 1);
    }
  }

  ghost predicate InOneLayer(g: Graph, w: seq<string>) {
    w != [] && w[0] in g && forall n | n in w :: n in g && g[n].layer == g[w[0]].layer
  }

  lemma WalkInGraph(g: Graph, w: seq<string>)
    requires |w| >= 2 && Walk(g, w)
    ensures forall n | n in w :: n in g
  {
    forall k | 0 <= k < |w| ensures w[k] in g {
      if k > 0 { assert Edge(g, w[k - 1], w[k]); } else { assert Edge(g, w[0], w[1]); }
    }
  }

  /** Where no direction rule is broken a cycle never leaves its layer, exemptions included. */
  lemma CyclesStayInOneLayer(crates: seq<Crate>, allowance: seq<string>, w: seq<string>)
    requires RulesHold(crates, allowance) && ClosedWalk(ByName(crates), w)
    ensures InOneLayer(ByName(crates), w)
  {
    var g := ByName(crates);
    var last := |w| - 1;
    RulesCoverEdges(crates, allowance);
    WalkInGraph(g, w);
    if exists k :: 0 <= k < |w| && w[k] in g && g[w[k]].layer == LAYER_PACK {
      var k :| 0 <= k < |w| && w[k] in g && g[w[k]].layer == LAYER_PACK;
      PackSpreadsBack(g, allowance, w, k);
      PackSpreadsBack(g, allowance, w, last);
    } else {
      forall k | 0 <= k < |w| ensures g[w[k]].layer != LAYER_TOOLING {
        var i := if k == 0 then last else k;
        assert Edge(g, w[i - 1], w[i]);
      }
      forall k | 0 <= k < |w| ensures g[w[k]].layer == g[w[0]].layer {
        LayersFall(g, allowance, w, 0, k);
        LayersFall(g, allowance, w, k, last);
      }
    }
  }

  /** So the rules reduce acyclicity to acyclicity within each layer. */
  lemma OnlySameLayerCyclesRemain(crates: seq<Crate>, allowance: seq<string>)
    requires RulesHold(crates, allowance)
    ensures Acyclic(ByName(crates))
            <==> forall w | InOneLayer(ByName(crates), w) :: !ClosedWalk(ByName(crates), w)
  {
    forall w ensures ClosedWalk(ByName(crates), w) ==> InOneLayer(ByName(crates), w) {
      if ClosedWalk(ByName(crates), w) {
        CyclesStayInOneLayer(crates, allowance, w);
      }
    }
  }

  /** And do not settle it: two crates of one layer may depend on each other by the rules. */
  lemma RulesAdmitSameLayerCycles(a: string, b: string, layer: nat, allowance: seq<string>)
    requires a != b && layer != LAYER_PACK && layer != LAYER_TOOLING
    ensures var crates := [Crate(a, layer, [b]), Crate(b, layer, [a])];
            RulesHold(crates, allowance) && !Acyclic(ByName(crates))
  {
    var crates := [Crate(a, layer, [b]), Crate(b, layer, [a])];
    assert crates[..1] == [crates[0]] && [crates[0]][..0] == [];
    assert ByName([crates[0]]) == map[a := crates[0]];
    assert ByName(crates) == map[a := crates[0], b := crates[1]];
    assert ClosedWalk(ByName(crates), [a, b, a]);
  }
}
