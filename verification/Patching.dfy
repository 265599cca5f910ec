/** What `sync` makes of a line it repairs: every stale figure respelled where it stands, all at once. */
module Patching {
  import opened Text
  import opened Figures
  import opened Replacement
  import opened DocNumbers
  import opened Turns
  import opened Aiming

  datatype Patch = Patch(width: nat, text: string)

  /** The stale figure that starts at a place, and what it is to be. */
  function PatchAt(line: string, claims: seq<Located>, actual: Actual, q: int): Option<Patch> {
    if claims == [] then None
    else if claims[0].at <= |line| && Stale(claims[0].claim, actual) && Start(line, claims[0]) == q then
      Some(Patch(|claims[0].claim.spelled|, RespelledClaim(claims[0], actual)))
    else PatchAt(line, claims[1..], actual, q)
  }

  /** What is written at a place, and where the line is read on. */
  datatype Taken = Taken(text: string, next: nat)

  function Take(line: string, claims: seq<Located>, actual: Actual, i: nat): (t: Taken)
    requires i < |line|
    ensures i < t.next <= |line|
  {
    match PatchAt(line, claims, actual, i)
    case None => Taken([line[i]], i + 1)
    case Some(patch) =>
      if 0 < patch.width <= |line| - i then Taken(patch.text, i + patch.width) else Taken([line[i]], i + 1)
  }

  /** The line from a place on, read once from left to right, with patches for the stale figures. */
  function Patched(line: string, claims: seq<Located>, actual: Actual, i: nat): string
    requires i <= |line|
    decreases |line| - i
  {
    if i == |line| then ""
    else
      var t := Take(line, claims, actual, i);
      t.text + Patched(line, claims, actual, t.next)
  }

  lemma {:induction false} NothingPatched(line: string, actual: Actual, i: nat)
    requires i <= |line|
    ensures Patched(line, [], actual, i) == line[i..]
    decreases |line| - i
  {
    if i < |line| {
      NothingPatched(line, actual, i + 1);
    }
  }

  lemma {:induction false} PatchedWithout(line: string, claims: seq<Located>, actual: Actual, i: nat)
    requires i <= |line| && claims != [] && !Stale(claims[0].claim, actual)
    ensures Patched(line, claims, actual, i) == Patched(line, claims[1..], actual, i)
    decreases |line| - i
  {
    if i < |line| {
      assert Take(line, claims, actual, i) == Take(line, claims[1..], actual, i);
      PatchedWithout(line, claims, actual, Take(line, claims, actual, i).next);
    }
  }

  // ---------- A turn is one patch ----------

  lemma FollowersPatch(a: string, x: string, b: string, y: string, actual: Actual, k: Located)
    requires x != "" && y != "" && Follows(a, x, b, y, k)
    ensures var start, start' := Start(a + x + b, k), Start(a + y + b, Moved(k, |a|, |x|, |y|));
            if k.at < |a| then start' == start && start + |k.claim.spelled| <= |a| && start < |a|
            else start' == start - |x| + |y| && |a| + |x| <= start
  {
  }

  /** The patches of later turns are before the figure of the turn, or after it and move with the text. */
  lemma {:induction false} PatchesMove(a: string, x: string, b: string, y: string, actual: Actual,
                                       later: seq<Located>, q: int)
    requires x != "" && y != "" && AllFollow(a, x, b, y, later, actual)
    ensures var moved, before := MovedAll(later, |a|, |x|, |y|), PatchAt(a + x + b, later, actual, q);
            && (q < |a| ==> PatchAt(a + y + b, moved, actual, q) == before
                            && (before.Some? ==> q + before.value.width <= |a|))
            && (|a| + |x| <= q ==> PatchAt(a + y + b, moved, actual, q - |x| + |y|) == before)
            && (|a| <= q < |a| + |y| ==> PatchAt(a + y + b, moved, actual, q) == None)
    decreases |later|
  {
    if later != [] {
      var k := later[0];
      assert k in later && forall j | j in later[1..] :: j in later;
      assert MovedAll(later, |a|, |x|, |y|)[1..] == MovedAll(later[1..], |a|, |x|, |y|);
      PatchesMove(a, x, b, y, actual, later[1..], q);
      if Stale(k.claim, actual) { FollowersPatch(a, x, b, y, actual, k); }
    }
  }

  ghost predicate Patching(a: string, x: string, b: string, y: string, claims: seq<Located>, actual: Actual) {
    && claims != [] && Turning(a, x, b, y, claims[0], actual)
    && AllFollow(a, x, b, y, claims[1..], actual)
  }

  lemma TakeAfter(a: string, x: string, b: string, y: string, claims: seq<Located>, actual: Actual, i: nat)
    requires Patching(a, x, b, y, claims, actual) && |a| + |x| <= i < |a + x + b|
    ensures var t := Take(a + x + b, claims, actual, i);
            Take(a + y + b, MovedAll(claims[1..], |a|, |x|, |y|), actual, i - |x| + |y|)
            == t.(next := t.next - |x| + |y|)
  {
    PatchesMove(a, x, b, y, actual, claims[1..], i);
    assert PatchAt(a + x + b, claims, actual, i) == PatchAt(a + x + b, claims[1..], actual, i);
    assert (a + x + b)[i] == b[i - |a| - |x|] == (a + y + b)[i - |x| + |y|];
  }

  /** The line is read on from where a step ends. */
  lemma PatchedStep(line: string, claims: seq<Located>, actual: Actual, i: nat, text: string, next: nat)
    requires i < |line| && Take(line, claims, actual, i) == Taken(text, next)
    ensures next <= |line| && Patched(line, claims, actual, i) == text + Patched(line, claims, actual, next)
  {
  }

  lemma {:induction false} PatchedAfter(a: string, x: string, b: string, y: string, claims: seq<Located>,
                                        actual: Actual, i: nat)
    requires Patching(a, x, b, y, claims, actual) && |a| + |x| <= i <= |a + x + b|
    ensures Patched(a + x + b, claims, actual, i)
            == Patched(a + y + b, MovedAll(claims[1..], |a|, |x|, |y|), actual, i - |x| + |y|)
    decreases |a + x + b| - i
  {
    var line, line', moved := a + x + b, a + y + b, MovedAll(claims[1..], |a|, |x|, |y|);
    if i < |line| {
      var t := Take(line, claims, actual, i);
      TakeAfter(a, x, b, y, claims, actual, i);
      PatchedStep(line, claims, actual, i, t.text, t.next);
      PatchedStep(line', moved, actual, i - |x| + |y|, t.text, t.next - |x| + |y|);
      PatchedAfter(a, x, b, y, claims, actual, t.next);
    }
  }

  lemma TakeInside(a: string, x: string, b: string, y: string, claims: seq<Located>, actual: Actual, i: nat)
    requires Patching(a, x, b, y, claims, actual) && |a| <= i < |a| + |y|
    ensures Take(a + y + b, MovedAll(claims[1..], |a|, |x|, |y|), actual, i) == Taken([y[i - |a|]], i + 1)
  {
    PatchesMove(a, x, b, y, actual, claims[1..], i);
    assert (a + y + b)[i] == y[i - |a|];
  }

  lemma {:induction false} PatchedInside(a: string, x: string, b: string, y: string, claims: seq<Located>,
                                         actual: Actual, i: nat)
    requires Patching(a, x, b, y, claims, actual) && |a| <= i <= |a| + |y|
    ensures var moved := MovedAll(claims[1..], |a|, |x|, |y|);
            Patched(a + y + b, moved, actual, i) == y[i - |a|..] + Patched(a + y + b, moved, actual, |a| + |y|)
    decreases |a| + |y| - i
  {
    var line', moved := a + y + b, MovedAll(claims[1..], |a|, |x|, |y|);
    if i < |a| + |y| {
      TakeInside(a, x, b, y, claims, actual, i);
      PatchedStep(line', moved, actual, i, [y[i - |a|]], i + 1);
      PatchedInside(a, x, b, y, claims, actual, i + 1);
      assert y[i - |a|..] == [y[i - |a|]] + y[i + 1 - |a|..];
      Regroup([y[i - |a|]], y[i + 1 - |a|..], Patched(line', moved, actual, |a| + |y|));
    }
  }

  lemma PatchedThere(a: string, x: string, b: string, y: string, claims: seq<Located>, actual: Actual)
    requires Patching(a, x, b, y, claims, actual)
    ensures Patched(a + x + b, claims, actual, |a|) == y + Patched(a + x + b, claims, actual, |a| + |x|)
  {
    assert PatchAt(a + x + b, claims, actual, |a|) == Some(Patch(|x|, y));
    PatchedStep(a + x + b, claims, actual, |a|, y, |a| + |x|);
  }

  lemma TakeBefore(a: string, x: string, b: string, y: string, claims: seq<Located>, actual: Actual, i: nat)
    requires Patching(a, x, b, y, claims, actual) && i < |a|
    ensures Take(a + x + b, claims, actual, i) == Take(a + y + b, MovedAll(claims[1..], |a|, |x|, |y|), actual, i)
    ensures Take(a + x + b, claims, actual, i).next <= |a|
  {
    PatchesMove(a, x, b, y, actual, claims[1..], i);
    assert PatchAt(a + x + b, claims, actual, i) == PatchAt(a + x + b, claims[1..], actual, i);
    assert (a + x + b)[i] == a[i] == (a + y + b)[i];
  }

  lemma {:induction false} PatchedBefore(a: string, x: string, b: string, y: string, claims: seq<Located>,
                                         actual: Actual, i: nat)
    requires Patching(a, x, b, y, claims, actual) && i <= |a|
    ensures Patched(a + x + b, claims, actual, i)
            == Patched(a + y + b, MovedAll(claims[1..], |a|, |x|, |y|), actual, i)
    decreases |a| - i
  {
    if i == |a| {
      assert y[0..] == y;
      PatchedThere(a, x, b, y, claims, actual);
      PatchedInside(a, x, b, y, claims, actual, i);
      PatchedAfter(a, x, b, y, claims, actual, |a| + |x|);
    } else {
      var t := Take(a + x + b, claims, actual, i);
      TakeBefore(a, x, b, y, claims, actual, i);
      PatchedStep(a + x + b, claims, actual, i, t.text, t.next);
      PatchedStep(a + y + b, MovedAll(claims[1..], |a|, |x|, |y|), actual, i, t.text, t.next);
      PatchedBefore(a, x, b, y, claims, actual, t.next);
    }
  }

  // ---------- All the turns are all the patches ----------

  lemma {:induction false} TurnsPatch(line: string, claims: seq<Located>, markers: seq<Marker>, read: Reader,
                                      actual: Actual)
    requires GoodMarkers(markers) && Local(read) && ReadsRuns(read) && InRange(actual)
    requires Tracked(line, claims, markers, read, actual) && AimedInTurn(line, claims, actual)
    ensures RewriteAll(line, claims, actual) == Patched(line, claims, actual, 0)
    decreases |claims|
  {
    if claims == [] {
      NothingPatched(line, actual, 0);
      assert line[0..] == line;
    } else if !Stale(claims[0].claim, actual) {
      SkipOne(line, claims, markers, read, actual);
      PatchedWithout(line, claims, actual, 0);
      TurnsPatch(line, claims[1..], markers, read, actual);
    } else {
      var l := claims[0];
      assert l in claims;
      var x, y := l.claim.spelled, RespelledClaim(l, actual);
      var a, e, rest := TurnAt(line, l, markers, read, actual);
      var b := e + rest;
      LaterAreElsewhere(claims);
      AllOthersFollow(a, x, e, rest, y, l, markers, read, actual, claims[1..]);
      TurnTurns(a, x, e, rest, y, l, markers, read, actual);
      TurnTracks(a, x, e, rest, y, claims, markers, read, actual);
      AimedUnfolds(line, claims, actual, a, b);
      PatchedBefore(a, x, b, y, claims, actual, 0);
      RewriteIgnoresPlaces(a + y + b, claims[1..], actual, |a|, |x|, |y|);
      TurnsPatch(a + y + b, MovedAll(claims[1..], |a|, |x|, |y|), markers, read, actual);
    }
  }

  /**
   * `sync` on a line whose stale figures are all clear: the line with each of them respelled where it
   * stands and nothing else changed, which is the same whatever the order of the turns.
   */
  lemma SyncPatches(line: string, markers: seq<Marker>, read: Reader, frozen: string, actual: Actual)
    requires GoodSetting(markers, read, frozen) && DistinctMarkers(markers) && InRange(actual)
    requires AllClear(line, Claims(line, markers, read, frozen), actual)
    ensures AimedInTurn(line, Claims(line, markers, read, frozen), actual)
    ensures Synced(line, markers, read, frozen, actual)
            == Patched(line, Claims(line, markers, read, frozen), actual, 0)
  {
    var claims := Claims(line, markers, read, frozen);
    if Contains(line, frozen) {
      NothingPatched(line, actual, 0);
      assert line[0..] == line;
    } else {
      ClaimsAreTracked(line, markers, read, frozen, actual);
      AimedInTurnExactlyWhenClear(line, claims, markers, read, actual);
      TurnsPatch(line, claims, markers, read, actual);
    }
  }
}
