/**
 * When every stale figure of a line is aimed at in its turn, read off the line as it is at first;
 * and what the line then becomes: each stale figure respelled where it stands, all at once.
 */
module Aiming {
  import opened Text
  import opened Figures
  import opened Replacement
  import opened DocNumbers
  import opened Turns

  // ---------- Where figures stand, before and after a turn ----------

  ghost predicate DigitClaim(line: string, markers: seq<Marker>, read: Reader, l: Located) {
    IsClaim(line, markers, read, l) && InDigits(l.claim.spelled)
  }

  lemma StandsInLine(line: string, markers: seq<Marker>, read: Reader, l: Located)
    requires ReadsRuns(read) && DigitClaim(line, markers, read, l)
    ensures 0 <= Start(line, l) && Start(line, l) + |l.claim.spelled| <= l.at
    ensures l.claim.spelled != "" && AllFigures(l.claim.spelled)
  {
    ClaimInDigits(read, line[..l.at], l.marker, l.claim);
    RunHoldsBoth(line[..l.at]);
  }

  lemma StandsAfterSpace(line: string, markers: seq<Marker>, read: Reader, l: Located, k: nat)
    requires ReadsRuns(read) && DigitClaim(line, markers, read, l) && k < l.at && line[k] == ' '
    ensures k < Start(line, l)
  {
    ClaimInDigits(read, line[..l.at], l.marker, l.claim);
    RunHoldsBoth(line[..l.at]);
    RunIsAfterSpace(line[..l.at], k);
  }

  lemma EmphasisAcross(a: string, x: string, y: string, b: string, j: nat)
    requires j <= |b| && ' ' in b[..j]
    ensures TrailingEmphasis((a + x + b)[..|a| + |x| + j]) == TrailingEmphasis((a + y + b)[..|a| + |y| + j])
  {
    EmphasisStops(a + x, b[..j]);
    EmphasisStops(a + y, b[..j]);
    assert (a + x + b)[..|a| + |x| + j] == (a + x) + b[..j];
    assert (a + y + b)[..|a| + |y| + j] == (a + y) + b[..j];
  }

  lemma EndsAtSpace(a: string, x: string, e: string, rest: string)
    requires rest != "" && rest[0] == ' '
    ensures (a + x + (e + rest))[|a| + |x| + |e|] == ' '
    ensures forall j | |e| < j <= |e + rest| :: ' ' in (e + rest)[..j]
  {
    forall j | |e| < j <= |e + rest| ensures ' ' in (e + rest)[..j] {
      assert (e + rest)[..j][|e|] == ' ';
    }
  }

  lemma StartBefore(a: string, x: string, y: string, b: string, k: Located)
    requires k.at < |a|
    ensures Start(a + y + b, k) == Start(a + x + b, k)
  {
    SameBefore(a, x, b, k.at);
    SameBefore(a, y, b, k.at);
  }

  lemma StartAfter(a: string, x: string, y: string, b: string, k: Located)
    requires |a| + |x| <= k.at <= |a + x + b| && ' ' in b[..k.at - |a| - |x|]
    ensures Start(a + y + b, k.(at := k.at - |x| + |y|)) == Start(a + x + b, k) + |y| - |x|
  {
    EmphasisAcross(a, x, y, b, k.at - |a| - |x|);
  }

  /** Where another claim stands, before the figure of the turn or after it, and where it is moved to. */
  lemma StartMoves(a: string, x: string, e: string, rest: string, y: string, l: Located, markers: seq<Marker>,
                   read: Reader, actual: Actual, k: Located)
    requires Turn(a, x, e, rest, y, l, markers, read, actual)
    requires DigitClaim(a + x + (e + rest), markers, read, k) && k.at != l.at
    ensures DigitClaim(a + y + (e + rest), markers, read, Moved(k, |a|, |x|, |y|))
    ensures k.at < |a| || |a| + |x| + |e| < Start(a + x + (e + rest), k)
    ensures k.at < |a| <==> k.at < l.at
    ensures Start(a + y + (e + rest), Moved(k, |a|, |x|, |y|))
            == Start(a + x + (e + rest), k) + if k.at < |a| then 0 else |y| - |x|
  {
    TurnIsCut(a, x, e, rest, y, l, markers, read, actual);
    ClaimMoves(a, x, y, e, rest, markers, read, l.marker, k);
    if k.at < |a| {
      StartBefore(a, x, y, e + rest, k);
    } else {
      EndsAtSpace(a, x, e, rest);
      StandsAfterSpace(a + x + (e + rest), markers, read, k, l.at);
      StartAfter(a, x, y, e + rest, k);
    }
  }

  lemma {:induction false} EmphasisIsRun(s: string)
    ensures AllRun(s[|s| - TrailingEmphasis(s)..])
  {
    if TrailingEmphasis(s) != 0 {
      var before, last := s[..|s| - 1], s[|s| - 1];
      var n := TrailingEmphasis(before);
      EmphasisIsRun(before);
      assert s == before + [last] && TrailingEmphasis(s) == n + 1;
      assert s[|s| - (n + 1)..] == before[|before| - n..] + [last];
    }
  }

  lemma AimedStands(line: string, markers: seq<Marker>, read: Reader, l: Located)
    requires GoodMarkers(markers) && ReadsRuns(read) && DigitClaim(line, markers, read, l) && Aimed(line, l)
    ensures Find(line, l.claim.spelled) == Some(Start(line, l))
  {
    var x := l.claim.spelled;
    var a, e, rest := CutAt(line, l, Find(line, x).value);
    assert line == (a + x + e) + rest && line[..l.at] == a + x + e;
    ClaimInDigits(read, line[..l.at], l.marker, l.claim);
    MarkerFollows(a + x + e, rest, l.marker.text);
    CutsAtFigure(a, x, e, rest);
  }

  /** Being aimed is being first found where one stands. */
  lemma AimedIsFirstAtStart(line: string, markers: seq<Marker>, read: Reader, l: Located)
    requires GoodMarkers(markers) && ReadsRuns(read) && DigitClaim(line, markers, read, l)
    ensures 0 <= Start(line, l)
    ensures Aimed(line, l) <==> Find(line, l.claim.spelled) == Some(Start(line, l))
  {
    StandsInLine(line, markers, read, l);
    if Aimed(line, l) {
      AimedStands(line, markers, read, l);
    }
    if Find(line, l.claim.spelled) == Some(Start(line, l)) {
      var prefix := line[..l.at];
      EmphasisIsRun(prefix);
      assert prefix[|prefix| - TrailingEmphasis(prefix)..] == line[Start(line, l) + |l.claim.spelled|..l.at];
    }
  }

  // ---------- Where figures occur ----------

  lemma OccurrenceIsFigures(line: string, x: string, q: int)
    requires AllFigures(x) && OccursAt(line, x, q)
    ensures forall i | q <= i < q + |x| :: IsFigure(line[i])
  {
    forall i | q <= i < q + |x| ensures IsFigure(line[i]) {
      assert line[q..q + |x|][i - q] == line[i] && x[i - q] in x;
    }
  }

  lemma OccursWithin(a: string, y: string, b: string, x: string, q: int)
    requires |a| <= q && q + |x| <= |a| + |y|
    ensures OccursAt(a + y + b, x, q) <==> OccursAt(y, x, q - |a|)
  {
    assert (a + y + b)[q..q + |x|] == y[q - |a|..q + |x| - |a|];
  }

  /** Figures do not run over the edge of a figure: an occurrence is before it, in it, or after it. */
  lemma FigureOccurs(a: string, y: string, b: string, x: string, q: int)
    requires x != "" && AllFigures(x)
    requires a != "" ==> !IsFigure(a[|a| - 1])
    requires b != "" ==> !IsFigure(b[0])
    ensures OccursAt(a + y + b, x, q)
            <==> OccursAt(a, x, q) || OccursAt(y, x, q - |a|) || OccursAt(b, x, q - |a| - |y|)
  {
    var line, end := a + y + b, q + |x|;
    assert a != "" ==> line[|a| - 1] == a[|a| - 1];
    assert b != "" ==> line[|a| + |y|] == b[0];
    if OccursAt(line, x, q) {
      OccurrenceIsFigures(line, x, q);
    }
    if 0 <= q && end <= |a| {
      OccursWithin("", a, y + b, x, q);
      assert "" + a + (y + b) == line;
    }
    if |a| <= q && end <= |a| + |y| {
      OccursWithin(a, y, b, x, q);
    }
    if |a| + |y| <= q && end <= |line| {
      OccursWithin(a + y, b, "", x, q);
      assert a + y + b + "" == line;
    }
  }

  // ---------- The condition, on the line as it is at first ----------

  ghost predicate Covers(line: string, k: Located, actual: Actual, q: int, end: int) {
    && k.at <= |line| && Stale(k.claim, actual)
    && Start(line, k) <= q && end <= Start(line, k) + |k.claim.spelled|
  }

  /** A stale figure of an earlier turn takes up the place. */
  ghost predicate Covered(line: string, earlier: seq<Located>, actual: Actual, q: int, end: int) {
    exists k :: k in earlier && Covers(line, k, actual, q, end)
  }

  /** What will be written for an earlier figure does not hold a later claim's spelling. */
  ghost predicate Silent(k: Located, l: Located, actual: Actual) {
    Stale(k.claim, actual) && k.at < l.at ==> !Contains(RespelledClaim(k, actual), l.claim.spelled)
  }

  ghost predicate Unspelled(earlier: seq<Located>, l: Located, actual: Actual) {
    forall k | k in earlier :: Silent(k, l, actual)
  }

  ghost predicate FirstButFor(line: string, earlier: seq<Located>, l: Located, actual: Actual)
    requires l.at <= |line|
  {
    forall q: nat | q < Start(line, l) && OccursAt(line, l.claim.spelled, q) ::
      Covered(line, earlier, actual, q, q + |l.claim.spelled|)
  }

  /**
   * The figure is in one piece; whatever spells it before its place is a figure of an earlier turn,
   * which will be gone; and what comes instead does not spell it.
   */
  ghost predicate Clear(line: string, earlier: seq<Located>, l: Located, actual: Actual)
    requires l.at <= |line|
  {
    && OccursAt(line, l.claim.spelled, Start(line, l))
    && FirstButFor(line, earlier, l, actual)
    && Unspelled(earlier, l, actual)
  }

  ghost predicate ClearAt(line: string, claims: seq<Located>, actual: Actual, i: nat)
    requires i < |claims|
  {
    Stale(claims[i].claim, actual) ==> claims[i].at <= |line| && Clear(line, claims[..i], claims[i], actual)
  }

  ghost predicate AllClear(line: string, claims: seq<Located>, actual: Actual) {
    forall i: nat | i < |claims| :: ClearAt(line, claims, actual, i)
  }

  // ---------- What a turn does to the condition ----------

  /** A claim apart from the figure of the turn: where it stands, and where it will. */
  ghost predicate Follows(a: string, x: string, b: string, y: string, k: Located) {
    && k.at <= |a + x + b| && Moved(k, |a|, |x|, |y|).at <= |a + y + b|
    && k.claim.spelled != "" && AllFigures(k.claim.spelled)
    && 0 <= Start(a + x + b, k) && Start(a + x + b, k) + |k.claim.spelled| <= k.at
    && (k.at < |a| || |a| + |x| <= Start(a + x + b, k))
    && Start(a + y + b, Moved(k, |a|, |x|, |y|)) == Start(a + x + b, k) + if k.at < |a| then 0 else |y| - |x|
  }

  lemma ClaimFollows(a: string, x: string, e: string, rest: string, y: string, l: Located, markers: seq<Marker>,
                     read: Reader, actual: Actual, k: Located)
    requires Turn(a, x, e, rest, y, l, markers, read, actual)
    requires DigitClaim(a + x + (e + rest), markers, read, k) && k.at != l.at
    ensures Follows(a, x, e + rest, y, k)
  {
    StartMoves(a, x, e, rest, y, l, markers, read, actual, k);
    StandsInLine(a + x + (e + rest), markers, read, k);
  }

  ghost predicate AllFollow(a: string, x: string, b: string, y: string, claims: seq<Located>, actual: Actual) {
    forall k | k in claims && Stale(k.claim, actual) :: Follows(a, x, b, y, k)
  }

  /** The figure of the turn itself, and the text around it. */
  ghost predicate Turning(a: string, x: string, b: string, y: string, l: Located, actual: Actual) {
    && x != "" && y != "" && (a != "" ==> !IsFigure(a[|a| - 1])) && (b != "" ==> !IsFigure(b[0]))
    && |a| + |x| <= l.at <= |a + x + b| && Start(a + x + b, l) == |a|
    && l.claim.spelled == x && Stale(l.claim, actual) && RespelledClaim(l, actual) == y
  }

  lemma OccursMoves(a: string, x: string, b: string, y: string, l: Located, actual: Actual, k: Located)
    requires Turning(a, x, b, y, l, actual) && Follows(a, x, b, y, k)
    ensures OccursAt(a + x + b, k.claim.spelled, Start(a + x + b, k))
            <==> OccursAt(a + y + b, k.claim.spelled, Start(a + y + b, Moved(k, |a|, |x|, |y|)))
  {
    FigureOccurs(a, x, b, k.claim.spelled, Start(a + x + b, k));
    FigureOccurs(a, y, b, k.claim.spelled, Start(a + y + b, Moved(k, |a|, |x|, |y|)));
  }

  lemma MovedMembers(claims: seq<Located>, p: nat, from: nat, to: nat)
    ensures forall k | k in claims :: Moved(k, p, from, to) in MovedAll(claims, p, from, to)
    ensures forall k' | k' in MovedAll(claims, p, from, to) :: exists k :: k in claims && Moved(k, p, from, to) == k'
  {
    var moved := MovedAll(claims, p, from, to);
    forall k | k in claims ensures Moved(k, p, from, to) in moved {
      var i :| 0 <= i < |claims| && claims[i] == k;
      assert moved[i] in moved;
    }
    forall k' | k' in moved ensures exists k :: k in claims && Moved(k, p, from, to) == k' {
      var i :| 0 <= i < |moved| && moved[i] == k';
      assert claims[i] in claims;
    }
  }

  lemma CoversMoves(a: string, x: string, b: string, y: string, actual: Actual, k: Located, q: int, end: int)
    requires Follows(a, x, b, y, k) && q < end && (end <= |a| || |a| + |x| <= q)
    ensures var d := if end <= |a| then 0 else |y| - |x|;
            Covers(a + x + b, k, actual, q, end)
            <==> Covers(a + y + b, Moved(k, |a|, |x|, |y|), actual, q + d, end + d)
  {
  }

  lemma SomeMoves(claims: seq<Located>, p: nat, from: nat, to: nat, before: Located -> bool, after: Located -> bool)
    requires forall k | k in claims :: before(k) <==> after(Moved(k, p, from, to))
    ensures (exists k :: k in claims && before(k)) <==> (exists k :: k in MovedAll(claims, p, from, to) && after(k))
  {
    MovedMembers(claims, p, from, to);
  }

  lemma CoveredWith(line: string, l: Located, earlier: seq<Located>, actual: Actual, q: int, end: int)
    ensures Covered(line, [l] + earlier, actual, q, end)
            <==> Covers(line, l, actual, q, end) || Covered(line, earlier, actual, q, end)
  {
    assert forall k :: k in [l] + earlier <==> k == l || k in earlier;
  }

  /** A stale figure of an earlier turn moves, or stays, with the place it takes up. */
  lemma CoveredMoves(a: string, x: string, b: string, y: string, l: Located, actual: Actual, earlier: seq<Located>,
                     q: int, end: int)
    requires Turning(a, x, b, y, l, actual) && AllFollow(a, x, b, y, earlier, actual)
    requires q < end && (end <= |a| || |a| + |x| <= q)
    ensures var d := if end <= |a| then 0 else |y| - |x|;
            Covered(a + x + b, [l] + earlier, actual, q, end)
            <==> Covered(a + y + b, MovedAll(earlier, |a|, |x|, |y|), actual, q + d, end + d)
  {
    var line, line', d := a + x + b, a + y + b, if end <= |a| then 0 else |y| - |x|;
    var before := (k: Located) => Covers(line, k, actual, q, end);
    var after := (k: Located) => Covers(line', k, actual, q + d, end + d);
    assert !Covers(line, l, actual, q, end);
    CoveredWith(line, l, earlier, actual, q, end);
    forall k | k in earlier ensures before(k) <==> after(Moved(k, |a|, |x|, |y|)) {
      if Stale(k.claim, actual) { CoversMoves(a, x, b, y, actual, k, q, end); }
    }
    SomeMoves(earlier, |a|, |x|, |y|, before, after);
  }

  lemma CoveredInside(a: string, x: string, b: string, y: string, l: Located, actual: Actual, earlier: seq<Located>,
                      q: int, end: int)
    requires Turning(a, x, b, y, l, actual) && AllFollow(a, x, b, y, earlier, actual) && |a| <= q < end
    ensures end <= |a| + |x| ==> Covered(a + x + b, [l] + earlier, actual, q, end)
    ensures end <= |a| + |y| ==> !Covered(a + y + b, MovedAll(earlier, |a|, |x|, |y|), actual, q, end)
  {
    MovedMembers(earlier, |a|, |x|, |y|);
    assert l in [l] + earlier && Covers(a + x + b, l, actual, |a|, |a| + |x|);
    forall k | k in earlier ensures end <= |a| + |y| ==> !Covers(a + y + b, Moved(k, |a|, |x|, |y|), actual, q, end) {
      assert Stale(k.claim, actual) ==> Follows(a, x, b, y, k);
    }
  }

  lemma NotSpelledIn(y: string, s: string, q: int)
    ensures OccursAt(y, s, q) ==> Contains(y, s)
  {
    FindIsLeftmost(y, s);
  }

  /** The claims of earlier turns and one of a later turn, in a turn before both. */
  ghost predicate Waiting(a: string, x: string, b: string, y: string, l: Located, actual: Actual,
                          earlier: seq<Located>, k: Located)
  {
    && Turning(a, x, b, y, l, actual) && AllFollow(a, x, b, y, earlier, actual) && Follows(a, x, b, y, k)
    && (k.at < |a| || l.at < k.at)
  }

  /** Outside the figure of the turn, what is spelled after it was spelled before it. */
  lemma OccursAlong(a: string, x: string, y: string, b: string, s: string, q: nat)
    requires s != "" && AllFigures(s) && OccursAt(a + y + b, s, q)
    requires (a != "" ==> !IsFigure(a[|a| - 1])) && (b != "" ==> !IsFigure(b[0]))
    ensures if |a| <= q && q + |s| <= |a| + |y| then OccursAt(y, s, q - |a|)
            else if q < |a| then q + |s| <= |a| && OccursAt(a + x + b, s, q)
            else |a| + |y| <= q && OccursAt(a + x + b, s, q - |y| + |x|)
  {
    FigureOccurs(a, y, b, s, q);
    FigureOccurs(a, x, b, s, if q < |a| then q else q - |y| + |x|);
  }

  lemma FirstForth(a: string, x: string, b: string, y: string, l: Located, actual: Actual, earlier: seq<Located>,
                   k: Located)
    requires Waiting(a, x, b, y, l, actual, earlier, k) && FirstButFor(a + x + b, [l] + earlier, k, actual)
    requires l.at < k.at ==> !Contains(y, k.claim.spelled)
    ensures FirstButFor(a + y + b, MovedAll(earlier, |a|, |x|, |y|), Moved(k, |a|, |x|, |y|), actual)
  {
    var s, moved, k' := k.claim.spelled, MovedAll(earlier, |a|, |x|, |y|), Moved(k, |a|, |x|, |y|);
    forall q: nat | q < Start(a + y + b, k') && OccursAt(a + y + b, s, q)
      ensures Covered(a + y + b, moved, actual, q, q + |s|)
    {
      OccursAlong(a, x, y, b, s, q);
      NotSpelledIn(y, s, q - |a|);
      var d := if q < |a| then 0 else |y| - |x|;
      CoveredMoves(a, x, b, y, l, actual, earlier, q - d, q - d + |s|);
    }
  }

  lemma FirstBack(a: string, x: string, b: string, y: string, l: Located, actual: Actual, earlier: seq<Located>,
                  k: Located)
    requires Waiting(a, x, b, y, l, actual, earlier, k)
    requires FirstButFor(a + y + b, MovedAll(earlier, |a|, |x|, |y|), Moved(k, |a|, |x|, |y|), actual)
    ensures FirstButFor(a + x + b, [l] + earlier, k, actual)
  {
    var s := k.claim.spelled;
    forall q: nat | q < Start(a + x + b, k) && OccursAt(a + x + b, s, q)
      ensures Covered(a + x + b, [l] + earlier, actual, q, q + |s|)
    {
      OccursAlong(a, y, x, b, s, q);
      if |a| <= q && q + |s| <= |a| + |x| {
        CoveredInside(a, x, b, y, l, actual, earlier, q, q + |s|);
      } else {
        CoveredMoves(a, x, b, y, l, actual, earlier, q, q + |s|);
      }
    }
  }

  lemma SilentBack(a: string, x: string, b: string, y: string, l: Located, actual: Actual, earlier: seq<Located>,
                   k: Located)
    requires Waiting(a, x, b, y, l, actual, earlier, k) && l.at < k.at
    requires FirstButFor(a + y + b, MovedAll(earlier, |a|, |x|, |y|), Moved(k, |a|, |x|, |y|), actual)
    ensures !Contains(y, k.claim.spelled)
  {
    var s := k.claim.spelled;
    if Contains(y, s) {
      FindIsLeftmost(y, s);
      var q := |a| + Find(y, s).value;
      FigureOccurs(a, y, b, s, q);
      CoveredInside(a, x, b, y, l, actual, earlier, q, q + |s|);
      assert false;
    }
  }

  lemma SilentMoves(a: string, x: string, b: string, y: string, actual: Actual, j: Located, k: Located)
    requires (Stale(j.claim, actual) ==> Follows(a, x, b, y, j)) && Follows(a, x, b, y, k)
    ensures Silent(j, k, actual) <==> Silent(Moved(j, |a|, |x|, |y|), Moved(k, |a|, |x|, |y|), actual)
  {
  }

  lemma UnspelledMoves(a: string, x: string, b: string, y: string, l: Located, actual: Actual, earlier: seq<Located>,
                       k: Located)
    requires Waiting(a, x, b, y, l, actual, earlier, k)
    ensures Unspelled([l] + earlier, k, actual)
            <==> && (l.at < k.at ==> !Contains(y, k.claim.spelled))
                 && Unspelled(MovedAll(earlier, |a|, |x|, |y|), Moved(k, |a|, |x|, |y|), actual)
  {
    var moved, k' := MovedAll(earlier, |a|, |x|, |y|), Moved(k, |a|, |x|, |y|);
    MovedMembers(earlier, |a|, |x|, |y|);
    assert Silent(l, k, actual) <==> (l.at < k.at ==> !Contains(y, k.claim.spelled));
    forall j | j in earlier ensures Silent(j, k, actual) <==> Silent(Moved(j, |a|, |x|, |y|), k', actual) {
      SilentMoves(a, x, b, y, actual, j, k);
    }
    assert Unspelled([l] + earlier, k, actual) <==> Silent(l, k, actual) && Unspelled(earlier, k, actual) by {
      assert l in [l] + earlier && forall j | j in earlier :: j in [l] + earlier;
    }
    assert Unspelled(earlier, k, actual) <==> Unspelled(moved, k', actual);
  }

  /** A later turn's condition holds before a turn that found its figure exactly when it does after it. */
  lemma ClearMoves(a: string, x: string, b: string, y: string, l: Located, actual: Actual, earlier: seq<Located>,
                   k: Located)
    requires Waiting(a, x, b, y, l, actual, earlier, k)
    ensures Clear(a + x + b, [l] + earlier, k, actual)
            <==> Clear(a + y + b, MovedAll(earlier, |a|, |x|, |y|), Moved(k, |a|, |x|, |y|), actual)
  {
    OccursMoves(a, x, b, y, l, actual, k);
    UnspelledMoves(a, x, b, y, l, actual, earlier, k);
    if Clear(a + x + b, [l] + earlier, k, actual) {
      FirstForth(a, x, b, y, l, actual, earlier, k);
    }
    if Clear(a + y + b, MovedAll(earlier, |a|, |x|, |y|), Moved(k, |a|, |x|, |y|), actual) {
      FirstBack(a, x, b, y, l, actual, earlier, k);
      if l.at < k.at { SilentBack(a, x, b, y, l, actual, earlier, k); }
    }
  }

  // ---------- Aimed in turn exactly when all clear ----------

  lemma TurnTurns(a: string, x: string, e: string, rest: string, y: string, l: Located, markers: seq<Marker>,
                  read: Reader, actual: Actual)
    requires Turn(a, x, e, rest, y, l, markers, read, actual) && RespelledClaim(l, actual) == y
    ensures Turning(a, x, e + rest, y, l, actual)
  {
    TurnIsCut(a, x, e, rest, y, l, markers, read, actual);
    if e != "" { assert e[0] in e; }
  }

  /** The first stale figure's own condition is that it is aimed at. */
  lemma FirstIsClear(line: string, markers: seq<Marker>, read: Reader, actual: Actual, l: Located)
    requires GoodMarkers(markers) && ReadsRuns(read) && DigitClaim(line, markers, read, l)
    ensures Clear(line, [], l, actual) <==> Aimed(line, l)
  {
    AimedIsFirstAtStart(line, markers, read, l);
    FindIsLeftmost(line, l.claim.spelled);
  }

  lemma PrefixesMove(claims: seq<Located>, p: nat, from: nat, to: nat, i: nat)
    requires claims != [] && 0 < i < |claims|
    ensures claims[..i] == [claims[0]] + claims[1..][..i - 1]
    ensures MovedAll(claims[1..], p, from, to)[..i - 1] == MovedAll(claims[1..][..i - 1], p, from, to)
  {
  }

  lemma AllOthersFollow(a: string, x: string, e: string, rest: string, y: string, l: Located, markers: seq<Marker>,
                        read: Reader, actual: Actual, later: seq<Located>)
    requires Turn(a, x, e, rest, y, l, markers, read, actual)
    requires forall k | k in later :: IsClaim(a + x + (e + rest), markers, read, k) && k.at != l.at
    ensures AllFollow(a, x, e + rest, y, later, actual)
    ensures forall k | k in later :: k.at < |a| || l.at < k.at
  {
    TurnIsCut(a, x, e, rest, y, l, markers, read, actual);
    forall k | k in later
      ensures (Stale(k.claim, actual) ==> Follows(a, x, e + rest, y, k)) && (k.at < |a| || l.at < k.at)
    {
      ClaimMoves(a, x, y, e, rest, markers, read, l.marker, k);
      if Stale(k.claim, actual) { ClaimFollows(a, x, e, rest, y, l, markers, read, actual, k); }
    }
  }

  /** One claim to come. */
  lemma OneMoves(a: string, x: string, e: string, rest: string, y: string, claims: seq<Located>,
                 markers: seq<Marker>, read: Reader, actual: Actual, i: nat)
    requires claims != [] && Turn(a, x, e, rest, y, claims[0], markers, read, actual)
    requires RespelledClaim(claims[0], actual) == y && Tracked(a + x + (e + rest), claims, markers, read, actual)
    requires 0 < i < |claims|
    ensures ClearAt(a + x + (e + rest), claims, actual, i)
            <==> ClearAt(a + y + (e + rest), MovedAll(claims[1..], |a|, |x|, |y|), actual, i - 1)
  {
    var l, later := claims[0], claims[1..];
    var earlier, k := later[..i - 1], later[i - 1];
    if Stale(k.claim, actual) {
      LaterAreElsewhere(claims);
      AllOthersFollow(a, x, e, rest, y, l, markers, read, actual, later);
      TurnTurns(a, x, e, rest, y, l, markers, read, actual);
      assert k in later && forall j | j in earlier :: j in later;
      ClearMoves(a, x, e + rest, y, l, actual, earlier, k);
      PrefixesMove(claims, |a|, |x|, |y|, i);
    }
  }

  /** The claims to come: clear of all the earlier ones before the turn exactly when clear of the rest after it. */
  lemma AllClearMoves(a: string, x: string, e: string, rest: string, y: string, claims: seq<Located>,
                      markers: seq<Marker>, read: Reader, actual: Actual)
    requires claims != [] && Turn(a, x, e, rest, y, claims[0], markers, read, actual)
    requires RespelledClaim(claims[0], actual) == y && Tracked(a + x + (e + rest), claims, markers, read, actual)
    requires ClearAt(a + x + (e + rest), claims, actual, 0)
    ensures AllClear(a + x + (e + rest), claims, actual)
            <==> AllClear(a + y + (e + rest), MovedAll(claims[1..], |a|, |x|, |y|), actual)
  {
    var line, line', moved := a + x + (e + rest), a + y + (e + rest), MovedAll(claims[1..], |a|, |x|, |y|);
    forall i: nat | 0 < i < |claims|
      ensures ClearAt(line, claims, actual, i) <==> ClearAt(line', moved, actual, i - 1)
    {
      OneMoves(a, x, e, rest, y, claims, markers, read, actual, i);
    }
    if AllClear(line, claims, actual) {
      forall i: nat | i < |moved| ensures ClearAt(line', moved, actual, i) {
        assert ClearAt(line, claims, actual, i + 1);
      }
    }
    if AllClear(line', moved, actual) {
      forall i: nat | i < |claims| ensures ClearAt(line, claims, actual, i) {
        assert i > 0 ==> ClearAt(line', moved, actual, i - 1);
      }
    }
  }

  /** A claim that is not stale hinders none. */
  lemma ClearWithout(line: string, claims: seq<Located>, actual: Actual, i: nat)
    requires 0 < i < |claims| && !Stale(claims[0].claim, actual)
    ensures ClearAt(line, claims, actual, i) <==> ClearAt(line, claims[1..], actual, i - 1)
  {
    var c, earlier := claims[0], claims[1..][..i - 1];
    assert claims[..i] == [c] + earlier && claims[1..][i - 1] == claims[i];
    assert forall k :: k in [c] + earlier <==> k == c || k in earlier;
    forall q, end ensures Covered(line, [c] + earlier, actual, q, end) <==> Covered(line, earlier, actual, q, end) {}
    assert Silent(c, claims[i], actual);
    assert Unspelled([c] + earlier, claims[i], actual) <==> Unspelled(earlier, claims[i], actual);
  }

  lemma AllClearWithout(line: string, claims: seq<Located>, actual: Actual)
    requires claims != [] && !Stale(claims[0].claim, actual)
    ensures AllClear(line, claims, actual) <==> AllClear(line, claims[1..], actual)
  {
    forall i: nat | 0 < i < |claims|
      ensures ClearAt(line, claims, actual, i) <==> ClearAt(line, claims[1..], actual, i - 1)
    {
      ClearWithout(line, claims, actual, i);
    }
    if AllClear(line, claims, actual) {
      forall i: nat | i < |claims[1..]| ensures ClearAt(line, claims[1..], actual, i) {
        assert ClearAt(line, claims, actual, i + 1);
      }
    }
    if AllClear(line, claims[1..], actual) {
      forall i: nat | i < |claims| ensures ClearAt(line, claims, actual, i) {
        assert i > 0 ==> ClearAt(line, claims[1..], actual, i - 1);
      }
    }
  }

  /** The condition on the line as it is at first is what each turn, on the line as it then is, needs. */
  lemma {:induction false} AimedInTurnExactlyWhenClear(line: string, claims: seq<Located>, markers: seq<Marker>,
                                                       read: Reader, actual: Actual)
    requires GoodMarkers(markers) && Local(read) && ReadsRuns(read) && InRange(actual)
    requires Tracked(line, claims, markers, read, actual)
    ensures AimedInTurn(line, claims, actual) <==> AllClear(line, claims, actual)
    decreases |claims|, 1
  {
    if claims != [] {
      var l := claims[0];
      assert l in claims && claims[..0] == [];
      if !Stale(l.claim, actual) {
        SkipOne(line, claims, markers, read, actual);
        AllClearWithout(line, claims, actual);
        AimedInTurnExactlyWhenClear(line, claims[1..], markers, read, actual);
      } else {
        FirstIsClear(line, markers, read, actual, l);
        assert ClearAt(line, claims, actual, 0) <==> Aimed(line, l);
        if Aimed(line, l) {
          TurnGoesOn(line, claims, markers, read, actual);
        }
      }
    }
  }

  lemma {:induction false} TurnGoesOn(line: string, claims: seq<Located>, markers: seq<Marker>, read: Reader,
                                      actual: Actual)
    requires GoodMarkers(markers) && Local(read) && ReadsRuns(read) && InRange(actual)
    requires Tracked(line, claims, markers, read, actual) && claims != [] && ClearAt(line, claims, actual, 0)
    requires Stale(claims[0].claim, actual) && Aimed(line, claims[0])
    ensures AimedInTurn(line, claims, actual) <==> AllClear(line, claims, actual)
    decreases |claims|, 0
  {
    var l := claims[0];
    assert l in claims;
    var x, y := l.claim.spelled, RespelledClaim(l, actual);
    var a, e, rest := TurnAt(line, l, markers, read, actual);
    TurnTracks(a, x, e, rest, y, claims, markers, read, actual);
    AllClearMoves(a, x, e, rest, y, claims, markers, read, actual);
    AimedUnfolds(line, claims, actual, a, e + rest);
    AimedInTurnExactlyWhenClear(a + y + (e + rest), MovedAll(claims[1..], |a|, |x|, |y|), markers, read, actual);
  }
}
