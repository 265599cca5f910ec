/**
 * Lines with any number of stale figures. `sync` respells them one after another, each where the
 * line as it is by then first spells it.
 */
module Turns {
  import opened Text
  import opened Figures
  import opened Replacement
  import opened DocNumbers

  // ---------- Where a figure stands ----------

  /** How many emphasis characters a text ends with. */
  function TrailingEmphasis(prefix: string): (n: nat)
    ensures n <= |prefix|
  {
    if prefix != "" && IsRun(prefix[|prefix| - 1]) && !IsFigure(prefix[|prefix| - 1]) then
      TrailingEmphasis(prefix[..|prefix| - 1]) + 1
    else 0
  }

  /** Where the figure of a claim starts, when it is written in one piece before the marker and its emphasis. */
  function Start(line: string, l: Located): int
    requires l.at <= |line|
  {
    l.at - TrailingEmphasis(line[..l.at]) - |l.claim.spelled|
  }

  function RespelledClaim(l: Located, actual: Actual): string {
    Respell(l.claim.spelled, actual(l.claim.unit))
  }

  lemma {:induction false} EmphasisAppend(s: string, e: string)
    requires AllRun(e) && (forall c | c in e :: !IsFigure(c))
    requires s != "" ==> IsFigure(s[|s| - 1]) || !IsRun(s[|s| - 1])
    ensures TrailingEmphasis(s + e) == |e|
  {
    if e == "" {
      assert s + e == s;
    } else {
      var before, last := e[..|e| - 1], e[|e| - 1];
      assert last in e && forall c | c in before :: c in e;
      assert (s + e)[..|s + e| - 1] == s + before;
      EmphasisAppend(s, before);
    }
  }

  lemma {:induction false} EmphasisStops(s: string, t: string)
    requires ' ' in t
    ensures TrailingEmphasis(s + t) == TrailingEmphasis(t)
  {
    var last := |t| - 1;
    assert (s + t)[..|s + t| - 1] == s + t[..last];
    if ' ' in t[..last] {
      EmphasisStops(s, t[..last]);
    } else {
      assert t == t[..last] + [t[last]];
      assert t[last] == ' ';
    }
  }

  /** The emphasis and the figures are all in the run. */
  lemma {:induction false} RunHoldsBoth(prefix: string)
    ensures TrailingEmphasis(prefix) + |Collected(prefix)| <= |TrailingRun(prefix)| <= |prefix|
  {
    if prefix != "" && IsRun(prefix[|prefix| - 1]) {
      var before, last := prefix[..|prefix| - 1], prefix[|prefix| - 1];
      RunHoldsBoth(before);
      KeepAppend(TrailingRun(before), [last], IsFigure);
      KeepOne(last, IsFigure);
    }
  }

  lemma {:induction false} RunIsAfterSpace(prefix: string, k: nat)
    requires k < |prefix| && prefix[k] == ' '
    ensures |TrailingRun(prefix)| < |prefix| - k
  {
    if IsRun(prefix[|prefix| - 1]) {
      RunIsAfterSpace(prefix[..|prefix| - 1], k);
    }
  }

  /** A line cut at a figure in its place: what surrounds the figure is not figure. */
  ghost predicate Cut(a: string, x: string, e: string, rest: string) {
    && x != "" && AllFigures(x)
    && AllRun(e) && (forall c | c in e :: !IsFigure(c))
    && (a != "" ==> !IsFigure(a[|a| - 1]))
    && rest != "" && rest[0] == ' '
  }

  lemma EndsInNoFigure(a: string)
    requires Keep(TrailingRun(a), IsFigure) == "" && a != ""
    ensures !IsFigure(a[|a| - 1])
  {
    if IsRun(a[|a| - 1]) {
      var lead, last := TrailingRun(a[..|a| - 1]), a[|a| - 1];
      KeepAppend(lead, [last], IsFigure);
      KeepOne(last, IsFigure);
    }
  }

  /** The figure of a claim that occurs in one piece in its own run fills it but for emphasis. */
  lemma CutsAtFigure(a: string, x: string, e: string, rest: string)
    requires x != "" && AllFigures(x) && AllRun(e) && Collected(a + x + e) == x && rest != "" && rest[0] == ' '
    ensures Cut(a, x, e, rest) && TrailingEmphasis(a + x + e) == |e|
  {
    CollectedAround(a, x, e);
    NothingAround(Keep(TrailingRun(a), IsFigure), x, Keep(e, IsFigure));
    KeepsFigures(e);
    if a != "" { EndsInNoFigure(a); }
    EmphasisAfterFigure(a, x, e);
  }

  lemma NothingAround(before: string, x: string, after: string)
    requires before + x + after == x
    ensures before == "" && after == ""
  {
    assert |before + x + after| == |before| + |x| + |after|;
  }

  lemma EmphasisAfterFigure(a: string, x: string, e: string)
    requires x != "" && AllFigures(x) && AllRun(e) && forall c | c in e :: !IsFigure(c)
    ensures TrailingEmphasis(a + x + e) == |e|
  {
    assert (a + x)[|a + x| - 1] == x[|x| - 1] && x[|x| - 1] in x;
    EmphasisAppend(a + x, e);
  }

  lemma {:induction false} KeepsFigures(s: string)
    requires Keep(s, IsFigure) == ""
    ensures forall c | c in s :: !IsFigure(c)
  {
    if s != "" {
      assert s == [s[0]] + s[1..];
      KeepAppend([s[0]], s[1..], IsFigure);
      KeepOne(s[0], IsFigure);
      KeepsFigures(s[1..]);
    }
  }

  // ---------- One turn ----------

  /** A claim of the line once the figure at `p` has another width. */
  function Moved(l: Located, p: nat, from: nat, to: nat): Located {
    if l.at < p + from then l else l.(at := l.at - from + to)
  }

  function MovedAll(claims: seq<Located>, p: nat, from: nat, to: nat): (moved: seq<Located>)
    ensures |moved| == |claims| && forall k | 0 <= k < |claims| :: moved[k] == Moved(claims[k], p, from, to)
  {
    seq(|claims|, k requires 0 <= k < |claims| => Moved(claims[k], p, from, to))
  }

  lemma MarkerAfterRun(a: string, x: string, e: string, rest: string, text: string, q: nat)
    requires text != "" && text[0] == ' ' && AllRun(e) && |a| + |x| <= q && OccursAt(a + x + (e + rest), text, q)
    ensures |a| + |x| + |e| <= q
  {
    var line := a + x + (e + rest);
    assert line[q] == line[q..q + |text|][0];
    assert forall k | 0 <= k < |e| :: line[|a| + |x| + k] == e[k] && e[k] in e;
  }

  /** The figures of no other claim are touched: they move with the text, either way. */
  lemma ClaimMoves(a: string, x: string, y: string, e: string, rest: string, markers: seq<Marker>, read: Reader,
                   m: Marker, l: Located)
    requires GoodMarkers(markers) && Local(read) && m in markers && m.text <= rest
    requires x != "" && y != "" && AllFigures(x) && AllFigures(y) && AllRun(e)
    requires IsClaim(a + x + (e + rest), markers, read, l) && l.at != |a| + |x| + |e|
    ensures l.at < |a| || |a| + |x| + |e| < l.at
    ensures IsClaim(a + y + (e + rest), markers, read, Moved(l, |a|, |x|, |y|))
  {
    SpaceBefore(a, x, e, rest, markers, read, m, l);
    ClaimsUnchanged(a, y, x, e + rest, markers, read, l);
    if |a| + |x| <= l.at { MarkerAfterRun(a, x, e, rest, l.marker.text, l.at); }
  }

  lemma MovedBack(l: Located, p: nat, from: nat, to: nat)
    requires l.at < p || p + from <= l.at
    ensures Moved(Moved(l, p, from, to), p, to, from) == l
  {
  }

  /** Two claims of one place are one. */
  lemma OneClaimPerPlace(line: string, markers: seq<Marker>, read: Reader, l: Located, k: Located)
    requires GoodMarkers(markers) && IsClaim(line, markers, read, l) && IsClaim(line, markers, read, k) && l.at == k.at
    ensures l == k
  {
    var rest := line[l.at..];
    assert rest[..|l.marker.text|] == line[l.at..l.at + |l.marker.text|];
    assert rest[..|k.marker.text|] == line[l.at..l.at + |k.marker.text|];
    OneMarkerPerPlace(markers, l.marker, k.marker, rest);
  }

  ghost predicate Distinct(claims: seq<Located>) {
    forall i, j | 0 <= i < j < |claims| :: claims[i].at != claims[j].at
  }

  /** The claims still to come are claims of the line, and every stale claim of the line is among them. */
  ghost predicate Tracked(line: string, claims: seq<Located>, markers: seq<Marker>, read: Reader, actual: Actual) {
    && Distinct(claims)
    && (forall l | l in claims :: IsClaim(line, markers, read, l))
    && (forall l | IsClaim(line, markers, read, l) && Stale(l.claim, actual) :: l in claims)
  }

  /** Some wrong claim is not spelled from a digit on, so that `sync` does not touch it: a word, or a comma first. */
  ghost predicate WrongWord(line: string, markers: seq<Marker>, read: Reader, actual: Actual) {
    exists l :: IsClaim(line, markers, read, l) && !Right(l.claim, actual) && !InDigits(l.claim.spelled)
  }

  /** What a turn that finds its figure starts from: the line cut there, and the claims to come. */
  ghost predicate Turn(a: string, x: string, e: string, rest: string, y: string, l: Located, markers: seq<Marker>,
                       read: Reader, actual: Actual)
  {
    && GoodMarkers(markers) && Local(read) && ReadsRuns(read)
    && IsClaim(a + x + (e + rest), markers, read, l) && Stale(l.claim, actual)
    && l.claim.spelled == x && l.at == |a| + |x| + |e| && AllRun(e)
    && y != "" && AllFigures(y) && ParseFigure(y) == Some(actual(l.claim.unit))
  }

  lemma TurnIsCut(a: string, x: string, e: string, rest: string, y: string, l: Located, markers: seq<Marker>,
                  read: Reader, actual: Actual)
    requires Turn(a, x, e, rest, y, l, markers, read, actual)
    ensures Cut(a, x, e, rest) && l.marker.text <= rest && TrailingEmphasis(a + x + e) == |e|
    ensures (a + x + (e + rest))[..l.at] == a + x + e && Collected(a + x + e) == x
    ensures l.claim.unit == l.marker.unit
  {
    var line := a + x + (e + rest);
    assert line == (a + x + e) + rest && line[..l.at] == a + x + e;
    ClaimInDigits(read, a + x + e, l.marker, l.claim);
    MarkerFollows(a + x + e, rest, l.marker.text);
    CutsAtFigure(a, x, e, rest);
  }

  /** The figure the turn is for is right, where it was. */
  lemma TurnRepairs(a: string, x: string, e: string, rest: string, y: string, l: Located, markers: seq<Marker>,
                    read: Reader, actual: Actual, k: Located)
    requires Turn(a, x, e, rest, y, l, markers, read, actual)
    requires IsClaim(a + y + (e + rest), markers, read, k) && k.at == |a| + |y| + |e|
    ensures Right(k.claim, actual)
  {
    TurnIsCut(a, x, e, rest, y, l, markers, read, actual);
    var line' := a + y + (e + rest);
    assert line' == (a + y + e) + rest && line'[..k.at] == a + y + e;
    MarkerFollows(a + y + e, rest, k.marker.text);
    OneMarkerPerPlace(markers, l.marker, k.marker, rest);
    RespelledRun(a, x, y, e);
    ReadsCollected(read, a + y + e, k.marker, y, actual(l.claim.unit));
  }

  /** Every other claim after the turn was one before it. */
  lemma OthersWere(a: string, x: string, e: string, rest: string, y: string, l: Located, markers: seq<Marker>,
                   read: Reader, actual: Actual, k: Located)
    requires Turn(a, x, e, rest, y, l, markers, read, actual)
    requires IsClaim(a + y + (e + rest), markers, read, k) && k.at != |a| + |y| + |e|
    ensures var was := Moved(k, |a|, |y|, |x|);
            && IsClaim(a + x + (e + rest), markers, read, was) && was.at != l.at
            && Moved(was, |a|, |x|, |y|) == k
  {
    TurnIsCut(a, x, e, rest, y, l, markers, read, actual);
    ClaimMoves(a, y, x, e, rest, markers, read, l.marker, k);
    MovedBack(k, |a|, |y|, |x|);
  }

  /** The claims to come are claims of the changed line, where they now are. */
  lemma LaterAreClaims(a: string, x: string, e: string, rest: string, y: string, l: Located, later: seq<Located>,
                       markers: seq<Marker>, read: Reader, actual: Actual)
    requires Turn(a, x, e, rest, y, l, markers, read, actual)
    requires forall k | k in later :: IsClaim(a + x + (e + rest), markers, read, k) && k.at != l.at
    ensures forall k | k in later :: k.at < |a| || |a| + |x| + |e| < k.at
    ensures forall k | k in MovedAll(later, |a|, |x|, |y|) :: IsClaim(a + y + (e + rest), markers, read, k)
  {
    TurnIsCut(a, x, e, rest, y, l, markers, read, actual);
    forall k | k in later
      ensures (k.at < |a| || |a| + |x| + |e| < k.at)
      ensures IsClaim(a + y + (e + rest), markers, read, Moved(k, |a|, |x|, |y|))
    {
      ClaimMoves(a, x, y, e, rest, markers, read, l.marker, k);
    }
  }

  lemma MovedStayDistinct(claims: seq<Located>, p: nat, from: nat, to: nat)
    requires Distinct(claims) && forall k | k in claims :: k.at < p || p + from <= k.at
    ensures Distinct(MovedAll(claims, p, from, to))
  {
    forall i, j | 0 <= i < j < |claims| ensures Moved(claims[i], p, from, to).at != Moved(claims[j], p, from, to).at {
      assert claims[i] in claims && claims[j] in claims;
    }
  }

  lemma StaleIsLater(a: string, x: string, e: string, rest: string, y: string, claims: seq<Located>,
                     markers: seq<Marker>, read: Reader, actual: Actual, k: Located)
    requires claims != [] && Turn(a, x, e, rest, y, claims[0], markers, read, actual)
    requires Tracked(a + x + (e + rest), claims, markers, read, actual)
    requires IsClaim(a + y + (e + rest), markers, read, k) && Stale(k.claim, actual)
    ensures k in MovedAll(claims[1..], |a|, |x|, |y|)
  {
    var l := claims[0];
    if k.at == |a| + |y| + |e| {
      TurnRepairs(a, x, e, rest, y, l, markers, read, actual, k);
    }
    OthersWere(a, x, e, rest, y, l, markers, read, actual, k);
    var was := Moved(k, |a|, |y|, |x|);
    assert was in claims;
    var i :| 0 <= i < |claims| && claims[i] == was;
    assert MovedAll(claims[1..], |a|, |x|, |y|)[i - 1] == k;
  }

  lemma LaterAreElsewhere(claims: seq<Located>)
    requires claims != [] && Distinct(claims)
    ensures Distinct(claims[1..]) && forall k | k in claims[1..] :: k in claims && k.at != claims[0].at
  {
  }

  lemma TurnTracks(a: string, x: string, e: string, rest: string, y: string, claims: seq<Located>,
                   markers: seq<Marker>, read: Reader, actual: Actual)
    requires claims != [] && Turn(a, x, e, rest, y, claims[0], markers, read, actual)
    requires Tracked(a + x + (e + rest), claims, markers, read, actual)
    ensures Tracked(a + y + (e + rest), MovedAll(claims[1..], |a|, |x|, |y|), markers, read, actual)
  {
    LaterAreElsewhere(claims);
    LaterAreClaims(a, x, e, rest, y, claims[0], claims[1..], markers, read, actual);
    MovedStayDistinct(claims[1..], |a|, |x|, |y|);
    forall k | IsClaim(a + y + (e + rest), markers, read, k) && Stale(k.claim, actual)
      ensures k in MovedAll(claims[1..], |a|, |x|, |y|)
    {
      StaleIsLater(a, x, e, rest, y, claims, markers, read, actual, k);
    }
  }

  lemma TurnLeavesWords(a: string, x: string, e: string, rest: string, y: string, l: Located, markers: seq<Marker>,
                        read: Reader, actual: Actual)
    requires Turn(a, x, e, rest, y, l, markers, read, actual)
    ensures WrongWord(a + x + (e + rest), markers, read, actual)
            <==> WrongWord(a + y + (e + rest), markers, read, actual)
  {
    var line, line' := a + x + (e + rest), a + y + (e + rest);
    TurnIsCut(a, x, e, rest, y, l, markers, read, actual);
    if WrongWord(line, markers, read, actual) {
      var k :| IsClaim(line, markers, read, k) && !Right(k.claim, actual) && !InDigits(k.claim.spelled);
      if k.at == l.at { OneClaimPerPlace(line, markers, read, k, l); }
      ClaimMoves(a, x, y, e, rest, markers, read, l.marker, k);
      assert IsClaim(line', markers, read, Moved(k, |a|, |x|, |y|));
    }
    if WrongWord(line', markers, read, actual) {
      var k :| IsClaim(line', markers, read, k) && !Right(k.claim, actual) && !InDigits(k.claim.spelled);
      if k.at == |a| + |y| + |e| { TurnRepairs(a, x, e, rest, y, l, markers, read, actual, k); }
      OthersWere(a, x, e, rest, y, l, markers, read, actual, k);
    }
  }

  // ---------- All the turns ----------

  /** Each stale figure is, when its turn comes, the first place where the line as it is by then spells it. */
  ghost predicate AimedInTurn(line: string, claims: seq<Located>, actual: Actual)
    decreases |claims|
  {
    if claims == [] then true
    else if !Stale(claims[0].claim, actual) then AimedInTurn(line, claims[1..], actual)
    else
      var x, y := claims[0].claim.spelled, RespelledClaim(claims[0], actual);
      match Find(line, x)
      case None => false
      case Some(p) =>
        && Aimed(line, claims[0])
        && AimedInTurn(line[..p] + y + line[p + |x|..], MovedAll(claims[1..], p, |x|, |y|), actual)
  }

  ghost predicate InRange(actual: Actual) {
    forall unit :: actual(unit) <= USIZE_MAX
  }

  /** The line cut where its turn finds a figure. */
  lemma TurnAt(line: string, l: Located, markers: seq<Marker>, read: Reader, actual: Actual)
      returns (a: string, e: string, rest: string)
    requires GoodMarkers(markers) && Local(read) && ReadsRuns(read) && InRange(actual)
    requires IsClaim(line, markers, read, l) && Stale(l.claim, actual) && Aimed(line, l)
    ensures var x, y := l.claim.spelled, RespelledClaim(l, actual);
            && Find(line, x) == Some(|a|) && a == line[..|a|] && e + rest == line[|a| + |x|..]
            && line == a + x + (e + rest) && Turn(a, x, e, rest, y, l, markers, read, actual)
            && Rewrite(line, l.claim, actual) == a + y + (e + rest)
  {
    var x, y := l.claim.spelled, RespelledClaim(l, actual);
    var p := Find(line, x).value;
    a, e, rest := CutAt(line, l, p);
    ClaimInDigits(read, line[..l.at], l.marker, l.claim);
    RespellReads(x, actual(l.claim.unit));
    ReplacedOnce(line, x, y, p);
  }

  lemma CutAt(line: string, l: Located, p: nat) returns (a: string, e: string, rest: string)
    requires Aimed(line, l) && Find(line, l.claim.spelled) == Some(p)
    ensures a == line[..p] && line[p + |l.claim.spelled|..] == e + rest && line == a + l.claim.spelled + (e + rest)
    ensures l.at == |a| + |l.claim.spelled| + |e| && AllRun(e)
  {
    ThreePieces(line, l.claim.spelled, p);
    a, e, rest := line[..p], line[p + |l.claim.spelled|..l.at], line[l.at..];
    assert line[p + |l.claim.spelled|..] == e + rest;
  }

  lemma {:induction false} RewriteIgnoresPlaces(line: string, claims: seq<Located>, actual: Actual, p: nat, from: nat,
                                                to: nat)
    ensures RewriteAll(line, MovedAll(claims, p, from, to), actual) == RewriteAll(line, claims, actual)
    decreases |claims|
  {
    if claims != [] {
      assert MovedAll(claims, p, from, to)[1..] == MovedAll(claims[1..], p, from, to);
      RewriteIgnoresPlaces(Rewrite(line, claims[0].claim, actual), claims[1..], actual, p, from, to);
    }
  }

  lemma SkipOne(line: string, claims: seq<Located>, markers: seq<Marker>, read: Reader, actual: Actual)
    requires claims != [] && !Stale(claims[0].claim, actual) && Tracked(line, claims, markers, read, actual)
    ensures Tracked(line, claims[1..], markers, read, actual)
    ensures RewriteAll(line, claims, actual) == RewriteAll(line, claims[1..], actual)
  {
    LaterAreElsewhere(claims);
    forall l | IsClaim(line, markers, read, l) && Stale(l.claim, actual) ensures l in claims[1..] {
      var i :| 0 <= i < |claims| && claims[i] == l;
      assert claims[1..][i - 1] == l;
    }
  }

  lemma AimedUnfolds(line: string, claims: seq<Located>, actual: Actual, a: string, b: string)
    requires claims != [] && Stale(claims[0].claim, actual) && Aimed(line, claims[0])
    requires Find(line, claims[0].claim.spelled) == Some(|a|)
    requires a == line[..|a|] && b == line[|a| + |claims[0].claim.spelled|..]
    ensures var x, y := claims[0].claim.spelled, RespelledClaim(claims[0], actual);
            AimedInTurn(line, claims, actual) <==> AimedInTurn(a + y + b, MovedAll(claims[1..], |a|, |x|, |y|), actual)
  {
  }

  /** What an aimed turn leaves: the line to go on with, and the claims to come in it. */
  lemma AimedTurn(line: string, claims: seq<Located>, markers: seq<Marker>, read: Reader, frozen: string,
                  actual: Actual) returns (next: string, later: seq<Located>)
    requires GoodSetting(markers, read, frozen) && InRange(actual) && claims != [] && Stale(claims[0].claim, actual)
    requires Tracked(line, claims, markers, read, actual) && AimedInTurn(line, claims, actual)
    ensures Tracked(next, later, markers, read, actual) && AimedInTurn(next, later, actual)
    ensures |later| == |claims| - 1 && RewriteAll(line, claims, actual) == RewriteAll(next, later, actual)
    ensures WrongWord(next, markers, read, actual) <==> WrongWord(line, markers, read, actual)
    ensures Contains(next, frozen) <==> Contains(line, frozen)
  {
    var l := claims[0];
    var x, y := l.claim.spelled, RespelledClaim(l, actual);
    assert l in claims;
    var a, e, rest := TurnAt(line, l, markers, read, actual);
    next, later := a + y + (e + rest), MovedAll(claims[1..], |a|, |x|, |y|);
    AimedUnfolds(line, claims, actual, a, e + rest);
    TurnTracks(a, x, e, rest, y, claims, markers, read, actual);
    TurnLeavesWords(a, x, e, rest, y, l, markers, read, actual);
    TurnLeavesFrozen(a, x, e, rest, y, l, markers, read, frozen, actual);
    RewriteIgnoresPlaces(next, claims[1..], actual, |a|, |x|, |y|);
  }

  lemma TurnLeavesFrozen(a: string, x: string, e: string, rest: string, y: string, l: Located, markers: seq<Marker>,
                         read: Reader, frozen: string, actual: Actual)
    requires Turn(a, x, e, rest, y, l, markers, read, actual) && frozen != "" && NoFigures(frozen)
    ensures Contains(a + y + (e + rest), frozen) <==> Contains(a + x + (e + rest), frozen)
  {
    TurnIsCut(a, x, e, rest, y, l, markers, read, actual);
    ContainsAcross(a, x, y, e + rest, frozen);
  }

  /** After the turns nothing is stale, the words are as wrong as before, and a record is as much a record. */
  lemma {:induction false} TurnsRepair(line: string, claims: seq<Located>, markers: seq<Marker>, read: Reader,
                                       frozen: string, actual: Actual)
    requires GoodSetting(markers, read, frozen) && InRange(actual)
    requires Tracked(line, claims, markers, read, actual) && AimedInTurn(line, claims, actual)
    ensures var synced := RewriteAll(line, claims, actual);
            && (forall l | IsClaim(synced, markers, read, l) :: !Stale(l.claim, actual))
            && (WrongWord(synced, markers, read, actual) <==> WrongWord(line, markers, read, actual))
            && (Contains(synced, frozen) <==> Contains(line, frozen))
    decreases |claims|
  {
    if claims != [] {
      if !Stale(claims[0].claim, actual) {
        SkipOne(line, claims, markers, read, actual);
        TurnsRepair(line, claims[1..], markers, read, frozen, actual);
      } else {
        var next, later := AimedTurn(line, claims, markers, read, frozen, actual);
        TurnsRepair(next, later, markers, read, frozen, actual);
      }
    }
  }

  // ---------- What one turn is worth ----------

  /** The marker claims the actual number at the place. */
  ghost predicate RightAt(line: string, markers: seq<Marker>, read: Reader, actual: Actual, m: Marker, at: nat) {
    exists k :: IsClaim(line, markers, read, k) && k.marker == m && k.at == at && Right(k.claim, actual)
  }

  lemma Joined(a: string, y: string, e: string, rest: string, text: string)
    requires text <= rest
    ensures var at := |a| + |y| + |e|;
            (a + y + (e + rest))[..at] == a + y + e && OccursAt(a + y + (e + rest), text, at)
  {
    var at, line := |a| + |y| + |e|, a + y + (e + rest);
    assert line == (a + y + e) + rest;
    assert line[at..at + |text|] == rest[..|text|];
  }

  lemma TurnClaims(a: string, x: string, e: string, rest: string, y: string, l: Located, markers: seq<Marker>,
                   read: Reader, actual: Actual)
    requires Turn(a, x, e, rest, y, l, markers, read, actual)
    ensures RightAt(a + y + (e + rest), markers, read, actual, l.marker, |a| + |y| + |e|)
  {
    var m, at := l.marker, |a| + |y| + |e|;
    TurnIsCut(a, x, e, rest, y, l, markers, read, actual);
    Joined(a, y, e, rest, m.text);
    ActiveAcross(a, x, y, e + rest, m);
    RespelledRun(a, x, y, e);
    ReadsCollected(read, a + y + e, m, y, actual(l.claim.unit));
    assert IsClaim(a + y + (e + rest), markers, read, Located(Claim(actual(l.claim.unit), m.unit, y), m, at));
  }

  /** Where a claim is once its turn is over, wherever the turn struck. */
  function AfterTurn(line: string, l: Located, actual: Actual): Located {
    match Find(line, l.claim.spelled)
    case None => l
    case Some(p) => Moved(l, p, |l.claim.spelled|, |RespelledClaim(l, actual)|)
  }

  lemma MissedStretch(line: string, from: nat, to: nat)
    requires from <= to <= |line| && !AllRun(line[from..to])
    ensures !AllRun(line[from..][..to - from])
  {
    assert line[from..][..to - from] == line[from..to];
  }

  lemma StaleIsFigures(line: string, l: Located, markers: seq<Marker>, read: Reader, actual: Actual)
    requires ReadsRuns(read) && InRange(actual) && IsClaim(line, markers, read, l) && Stale(l.claim, actual)
    ensures l.claim.spelled != "" && AllFigures(l.claim.spelled)
    ensures RespelledClaim(l, actual) != "" && AllFigures(RespelledClaim(l, actual))
  {
    ClaimInDigits(read, line[..l.at], l.marker, l.claim);
    RespellReads(l.claim.spelled, actual(l.claim.unit));
  }

  lemma MissedPieces(line: string, l: Located, p: nat) returns (a: string, b: string)
    requires Find(line, l.claim.spelled) == Some(p) && !Aimed(line, l) && l.at <= |line|
    ensures |a| == p && line == a + l.claim.spelled + b
    ensures a == line[..p] && b == line[p + |l.claim.spelled|..]
    ensures p + |l.claim.spelled| <= l.at ==> !AllRun(b[..l.at - p - |l.claim.spelled|])
  {
    var n := |l.claim.spelled|;
    ThreePieces(line, l.claim.spelled, p);
    a, b := line[..p], line[p + n..];
    if p + n <= l.at { MissedStretch(line, p + n, l.at); }
  }

  lemma MissedTurnAt(a: string, x: string, b: string, y: string, l: Located, markers: seq<Marker>, read: Reader)
    requires GoodMarkers(markers) && ReadsRuns(read) && IsClaim(a + x + b, markers, read, l)
    requires InDigits(l.claim.spelled) && x != "" && y != "" && AllFigures(x) && AllFigures(y)
    requires |a| + |x| <= l.at ==> !AllRun(b[..l.at - |a| - |x|])
    ensures IsClaim(a + y + b, markers, read, Moved(l, |a|, |x|, |y|))
  {
    MissedStays(a, x, b, y, markers, read, l);
  }

  lemma MissedTurn(line: string, l: Located, markers: seq<Marker>, read: Reader, actual: Actual)
    requires GoodMarkers(markers) && ReadsRuns(read) && InRange(actual)
    requires IsClaim(line, markers, read, l) && Stale(l.claim, actual) && !Aimed(line, l)
    ensures IsClaim(Rewrite(line, l.claim, actual), markers, read, AfterTurn(line, l, actual))
  {
    var x, y := l.claim.spelled, RespelledClaim(l, actual);
    StaleIsFigures(line, l, markers, read, actual);
    var found := Find(line, x);
    if found.Some? {
      var a, b := MissedPieces(line, l, found.value);
      ReplacedOnce(line, x, y, found.value);
      MissedTurnAt(a, x, b, y, l, markers, read);
      assert Rewrite(line, l.claim, actual) == a + y + b;
    } else {
      assert Rewrite(line, l.claim, actual) == line;
    }
  }

  /** A turn puts its own figure right exactly when it is aimed, whatever else is wrong on the line. */
  lemma TurnRepairsExactlyWhenAimed(line: string, l: Located, markers: seq<Marker>, read: Reader, actual: Actual)
    requires GoodMarkers(markers) && Local(read) && ReadsRuns(read) && InRange(actual)
    requires IsClaim(line, markers, read, l) && Stale(l.claim, actual)
    ensures RightAt(Rewrite(line, l.claim, actual), markers, read, actual, l.marker, AfterTurn(line, l, actual).at)
            <==> Aimed(line, l)
  {
    var line', after := Rewrite(line, l.claim, actual), AfterTurn(line, l, actual);
    if Aimed(line, l) {
      var a, e, rest := TurnAt(line, l, markers, read, actual);
      TurnClaims(a, l.claim.spelled, e, rest, RespelledClaim(l, actual), l, markers, read, actual);
    } else {
      MissedTurn(line, l, markers, read, actual);
      forall k | IsClaim(line', markers, read, k) && k.at == after.at ensures k == after {
        OneClaimPerPlace(line', markers, read, k, after);
      }
    }
  }

  // ---------- The claims of a line are tracked ----------

  ghost predicate DistinctMarkers(markers: seq<Marker>) {
    forall i, j | 0 <= i < j < |markers| :: markers[i] != markers[j]
  }

  /** No marker is claimed twice at one place. */
  ghost predicate NoneTwice(claims: seq<Located>) {
    forall i, j | 0 <= i < j < |claims| :: claims[i].marker != claims[j].marker || claims[i].at != claims[j].at
  }

  /** New claims of the marker are further on. */
  ghost predicate Ahead(found: Found, marker: Marker, from: nat) {
    && NoneTwice(found.claims)
    && (forall l | l in found.claims && l.marker == marker :: l.at < from)
  }

  lemma AheadWith(found: Found, marker: Marker, from: nat, claim: Option<Claim>, end: nat, next: nat)
    requires Ahead(found, marker, from) && from <= end < next
    ensures Ahead(found.With(claim, marker, end), marker, next)
  {
    forall i | 0 <= i < |found.claims| ensures found.claims[i] in found.claims {}
  }

  lemma {:induction false} ClaimsFromAhead(line: string, from: nat, marker: Marker, read: Reader, found: Found)
    requires marker.text != "" && from <= |line| && Ahead(found, marker, from)
    ensures Ahead(ClaimsFrom(line, from, marker, read, found), marker, |line| + 1)
    decreases |line| - from
  {
    match FindAt(line, from, marker.text)
    case None =>
    case Some(end) =>
      var claim := read(line[..end], marker);
      ClaimsStep(line, from, marker, read, found, end);
      AheadWith(found, marker, from, claim, end, end + |marker.text|);
      ClaimsFromAhead(line, end + |marker.text|, marker, read, found.With(claim, marker, end));
  }

  lemma {:induction false} ClaimsFromOne(line: string, from: nat, marker: Marker, read: Reader, found: Found,
                                         l: Located)
    requires marker.text != "" && from <= |line| && l in ClaimsFrom(line, from, marker, read, found).claims
    ensures l in found.claims || l.marker == marker
    decreases |line| - from
  {
    match FindAt(line, from, marker.text)
    case None =>
    case Some(end) =>
      var claim := read(line[..end], marker);
      ClaimsStep(line, from, marker, read, found, end);
      ClaimsFromOne(line, end + |marker.text|, marker, read, found.With(claim, marker, end), l);
  }

  ghost predicate Unmet(found: Found, markers: seq<Marker>) {
    forall l | l in found.claims :: l.marker !in markers
  }

  lemma {:induction false} ClaimsInAhead(line: string, markers: seq<Marker>, read: Reader, found: Found)
    requires (forall m | m in markers :: m.text != "") && DistinctMarkers(markers) && Unmet(found, markers)
    requires NoneTwice(found.claims)
    ensures NoneTwice(ClaimsIn(line, markers, read, found).claims)
    decreases |markers|
  {
    if markers != [] {
      assert Ahead(found, markers[0], 0);
      ClaimsFromAhead(line, 0, markers[0], read, found);
      var more := if Active(line, markers[0]) then ClaimsFrom(line, 0, markers[0], read, found) else found;
      assert Unmet(more, markers[1..]) by {
        forall m | m in markers[1..] ensures m in markers && m != markers[0] {}
        forall l | l in more.claims ensures l in found.claims || l.marker == markers[0] {
          if Active(line, markers[0]) { ClaimsFromOne(line, 0, markers[0], read, found, l); }
        }
      }
      ClaimsInAhead(line, markers[1..], read, more);
    }
  }

  lemma ClaimsAreTracked(line: string, markers: seq<Marker>, read: Reader, frozen: string, actual: Actual)
    requires GoodMarkers(markers) && DistinctMarkers(markers) && !Contains(line, frozen)
    ensures Tracked(line, Claims(line, markers, read, frozen), markers, read, actual)
  {
    var claims := Claims(line, markers, read, frozen);
    ClaimsMeaning(line, markers, read, frozen, actual);
    ClaimsInAhead(line, markers, read, Found([]));
    assert NoneTwice(claims);
    forall i, j | 0 <= i < j < |claims| ensures claims[i].at != claims[j].at {
      if claims[i].at == claims[j].at {
        assert claims[i] in claims && claims[j] in claims;
        OneClaimPerPlace(line, markers, read, claims[i], claims[j]);
      }
    }
  }

  /**
   * Any number of stale figures, each aimed at when its turn comes: after `sync` none is left and a
   * second pass changes nothing, and `check` accepts exactly when every wrong figure was in digits.
   */
  lemma SyncRepairsInTurn(line: string, markers: seq<Marker>, read: Reader, frozen: string, actual: Actual)
    requires GoodSetting(markers, read, frozen) && DistinctMarkers(markers) && InRange(actual)
    requires AimedInTurn(line, Claims(line, markers, read, frozen), actual)
    ensures var claims, synced := Claims(line, markers, read, frozen), Synced(line, markers, read, frozen, actual);
            && NoneStale(Claims(synced, markers, read, frozen), actual)
            && Synced(synced, markers, read, frozen, actual) == synced
            && (AllRight(Claims(synced, markers, read, frozen), actual)
                <==> forall l | l in claims && !Right(l.claim, actual) :: InDigits(l.claim.spelled))
  {
    var claims, synced := Claims(line, markers, read, frozen), Synced(line, markers, read, frozen, actual);
    if !Contains(line, frozen) {
      ClaimsAreTracked(line, markers, read, frozen, actual);
      TurnsRepair(line, claims, markers, read, frozen, actual);
      ClaimsMeaning(line, markers, read, frozen, actual);
      ClaimsMeaning(synced, markers, read, frozen, actual);
      FreshWhen(synced, markers, read, frozen, actual);
    }
    FreshLineIsLeft(synced, Claims(synced, markers, read, frozen), actual);
  }

  lemma FreshWhen(line: string, markers: seq<Marker>, read: Reader, frozen: string, actual: Actual)
    requires Scannable(markers) && !Contains(line, frozen)
    requires forall l | IsClaim(line, markers, read, l) :: !Stale(l.claim, actual)
    ensures NoneStale(Claims(line, markers, read, frozen), actual)
  {
    var claims := Claims(line, markers, read, frozen);
    ClaimsMeaning(line, markers, read, frozen, actual);
    forall k | 0 <= k < |claims| ensures !Stale(claims[k].claim, actual) {
      assert claims[k] in claims;
    }
  }

  lemma {:induction false} FreshLineIsLeft(line: string, claims: seq<Located>, actual: Actual)
    requires NoneStale(claims, actual)
    ensures RewriteAll(line, claims, actual) == line
  {
    if claims != [] {
      FreshLineIsLeft(line, claims[1..], actual);
    }
  }
}
