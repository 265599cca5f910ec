/**
 * Two lines the tool's own markers and reader find two stale figures on: one whose second turn
 * spoils the first's figure, and one whose two misses happen to cancel out.
 */
module Collisions {
  import opened Text
  import opened Figures
  import opened Replacement
  import opened DocNumbers
  import opened Turns

  // ---------- The claims of a short line ----------

  ghost predicate OccursOnlyAt(line: string, text: string, p: nat) {
    OccursAt(line, text, p) && forall q | OccursAt(line, text, q) :: q == p
  }

  lemma OneClaimFrom(line: string, m: Marker, read: Reader, found: Found, p: nat)
    requires m.text != "" && OccursOnlyAt(line, m.text, p)
    ensures ClaimsFrom(line, 0, m, read, found) == found.With(read(line[..p], m), m, p)
  {
    FindAtIsNext(line, 0, m.text);
    ClaimsStep(line, 0, m, read, found, p);
    FindAtIsNext(line, p + |m.text|, m.text);
  }

  lemma NoClaimFrom(line: string, m: Marker, read: Reader, found: Found)
    requires m.text != "" && forall q :: !OccursAt(line, m.text, q)
    ensures ClaimsFrom(line, 0, m, read, found) == found
  {
    FindAtIsNext(line, 0, m.text);
  }

  lemma {:induction false} NoClaimsIn(line: string, markers: seq<Marker>, read: Reader, found: Found)
    requires forall m | m in markers :: m.text != "" && forall q :: !OccursAt(line, m.text, q)
    ensures ClaimsIn(line, markers, read, found) == found
    decreases |markers|
  {
    if markers != [] {
      NoClaimFrom(line, markers[0], read, found);
      NoClaimsIn(line, markers[1..], read, found);
    }
  }

  lemma {:induction false} ClaimsInBoth(line: string, first: seq<Marker>, second: seq<Marker>, read: Reader,
                                        found: Found)
    requires forall m | m in first + second :: m.text != ""
    ensures ClaimsIn(line, first + second, read, found)
            == ClaimsIn(line, second, read, ClaimsIn(line, first, read, found))
    decreases |first|
  {
    if first == [] {
      assert first + second == second;
    } else {
      assert (first + second)[1..] == first[1..] + second;
      var more := if Active(line, first[0]) then ClaimsFrom(line, 0, first[0], read, found) else found;
      ClaimsInBoth(line, first[1..], second, read, more);
    }
  }

  const TESTS := MARKERS[0]
  const SEQUENTIAL := MARKERS[4]

  /** Every space starts ` tests`, or ` sequential`, or stands before a digit. */
  ghost predicate Short(line: string, tests: nat, sequential: nat) {
    && OccursAt(line, " tests", tests) && OccursAt(line, " sequential", sequential)
    && (forall q | 0 <= q < |line| && line[q] == ' ' ::
          q == tests || q == sequential || (q + 1 < |line| && IsDigit(line[q + 1])))
    && '<' !in line
  }

  /** So no other marker occurs on it, and these two once. */
  lemma ShortOccurs(line: string, tests: nat, sequential: nat, m: Marker, q: int)
    requires Short(line, tests, sequential) && GoodText(m.text) && OccursAt(line, m.text, q)
    ensures (q == tests && Initials(m.text) == ('t', 'e')) || (q == sequential && Initials(m.text) == ('s', 'e'))
  {
    var n := |m.text|;
    assert m.text[1] in m.text && !IsDigit(m.text[1]);
    assert line[q] == line[q..q + n][0] && line[q + 1] == line[q..q + n][1] && line[q + 2] == line[q..q + n][2];
    assert line[tests + 1] == line[tests..tests + 6][1] && line[tests + 2] == line[tests..tests + 6][2];
    assert line[sequential + 1] == line[sequential..sequential + 11][1];
    assert line[sequential + 2] == line[sequential..sequential + 11][2];
  }

  lemma DigitParses(d: char)
    requires IsDigit(d)
    ensures ParseFigure([d]) == Some(d as nat - '0' as nat)
  {
    KeepOne(d, NotComma);
    assert [d][..0] == "" && Value("") == 0;
    assert Value([d]) == d as nat - '0' as nat;
  }

  /** A digit alone at the end of a text. */
  predicate EndsInDigit(prefix: string, d: char) {
    && prefix != "" && prefix[|prefix| - 1] == d && IsDigit(d)
    && (|prefix| > 1 ==> prefix[|prefix| - 2] == ' ')
  }

  function DigitValue(d: char): nat
    requires IsDigit(d)
  {
    d as nat - '0' as nat
  }

  lemma DigitIsCollected(prefix: string, d: char)
    requires EndsInDigit(prefix, d)
    ensures Collected(prefix) == [d]
  {
    var before := prefix[..|prefix| - 1];
    assert TrailingRun(before) == "";
    assert TrailingRun(prefix) == [d];
    KeepOne(d, IsFigure);
  }

  lemma CollectedIsRead(prefix: string, m: Marker, words: seq<(string, nat)>, spelled: string, v: nat)
    requires Collected(prefix) == spelled && ParseFigure(spelled) == Some(v)
    ensures FigureReader(words)(prefix, m) == Some(Claim(v, m.unit, spelled))
  {
  }

  function DigitClaimed(d: char, m: Marker): Claim
    requires IsDigit(d)
  {
    Claim(DigitValue(d), m.unit, [d])
  }

  /** It is read as a figure. */
  lemma DigitIsRead(prefix: string, m: Marker, d: char, words: seq<(string, nat)>)
    requires EndsInDigit(prefix, d)
    ensures FigureReader(words)(prefix, m) == Some(DigitClaimed(d, m))
  {
    DigitIsCollected(prefix, d);
    DigitParses(d);
    CollectedIsRead(prefix, m, words, [d], DigitValue(d));
  }

  lemma TheTwoMarkers()
    ensures |MARKERS| == 8 && TESTS.text == " tests" && SEQUENTIAL.text == " sequential"
    ensures TESTS.unit == Tests && SEQUENTIAL.unit == Mutations && TESTS.context == "" && SEQUENTIAL.context == ""
    ensures Initials(TESTS.text) == ('t', 'e') && Initials(SEQUENTIAL.text) == ('s', 'e')
  {
  }

  /** A marker that is neither does not occur. */
  lemma OthersDoNotOccur(line: string, tests: nat, sequential: nat, k: nat)
    requires Short(line, tests, sequential) && k < |MARKERS| && k != 0 && k != 4
    ensures forall q :: !OccursAt(line, MARKERS[k].text, q)
  {
    TheTwoMarkers();
    EachMarkerIsGood();
    InitialsDiffer();
    assert GoodMarker(MARKERS[k]);
    assert Initials(MARKERS[k].text) != Initials(TESTS.text);
    assert Initials(MARKERS[k].text) != Initials(SEQUENTIAL.text);
    forall q ensures !OccursAt(line, MARKERS[k].text, q) {
      if OccursAt(line, MARKERS[k].text, q) {
        ShortOccurs(line, tests, sequential, MARKERS[k], q);
      }
    }
  }

  lemma TheTwoOccurOnce(line: string, tests: nat, sequential: nat)
    requires Short(line, tests, sequential)
    ensures OccursOnlyAt(line, TESTS.text, tests) && OccursOnlyAt(line, SEQUENTIAL.text, sequential)
  {
    TheTwoMarkers();
    EachMarkerIsGood();
    assert GoodMarker(MARKERS[0]) && GoodMarker(MARKERS[4]);
    forall q | OccursAt(line, TESTS.text, q) ensures q == tests {
      ShortOccurs(line, tests, sequential, TESTS, q);
    }
    forall q | OccursAt(line, SEQUENTIAL.text, q) ensures q == sequential {
      ShortOccurs(line, tests, sequential, SEQUENTIAL, q);
    }
  }

  lemma OccurrenceStarts(line: string, text: string, p: int)
    requires text != "" && OccursAt(line, text, p)
    ensures text[0] in line
  {
    assert line[p] == line[p..p + |text|][0];
  }

  lemma NotFrozen(line: string)
    requires '<' !in line
    ensures !Contains(line, AS_MEASURED_THEN)
  {
    assert AS_MEASURED_THEN[0] == '<';
    FindIsLeftmost(line, AS_MEASURED_THEN);
    match Find(line, AS_MEASURED_THEN)
    case None =>
    case Some(p) => OccurrenceStarts(line, AS_MEASURED_THEN, p);
  }

  lemma InParts(markers: seq<Marker>)
    requires |markers| == 8
    ensures markers == [markers[0]] + (markers[1..4] + ([markers[4]] + markers[5..]))
  {
  }

  lemma MarkersInParts()
    ensures MARKERS == [TESTS] + (MARKERS[1..4] + ([SEQUENTIAL] + MARKERS[5..]))
    ensures forall m | m in MARKERS :: m.text != ""
  {
    InParts(MARKERS);
    EachMarkerIsGood();
    GoodMarkersHaveText(MARKERS);
  }

  lemma GoodMarkersHaveText(markers: seq<Marker>)
    requires forall k | 0 <= k < |markers| :: GoodMarker(markers[k])
    ensures forall m | m in markers :: m.text != ""
  {
  }

  lemma OneOfMany(line: string, m: Marker, read: Reader, found: Found, p: nat, others: seq<Marker>)
    requires m.context == "" && OccursOnlyAt(line, m.text, p) && forall n | n in [m] + others :: n.text != ""
    ensures ClaimsIn(line, [m] + others, read, found)
            == ClaimsIn(line, others, read, found.With(read(line[..p], m), m, p))
  {
    assert m in [m] + others && ([m] + others)[1..] == others;
    OneClaimFrom(line, m, read, found, p);
  }

  /** Two markers that are claimed once each, among others that do not occur. */
  lemma PartsClaims(line: string, first: Marker, middle: seq<Marker>, second: Marker, last: seq<Marker>, read: Reader,
                    c: Located, e: Located)
    requires first.context == "" && second.context == "" && first.text != "" && second.text != ""
    requires forall m | m in middle || m in last :: m.text != "" && forall q :: !OccursAt(line, m.text, q)
    requires OccursOnlyAt(line, first.text, c.at) && read(line[..c.at], first) == Some(c.claim) && c.marker == first
    requires OccursOnlyAt(line, second.text, e.at) && read(line[..e.at], second) == Some(e.claim) && e.marker == second
    ensures forall m | m in [first] + (middle + ([second] + last)) :: m.text != ""
    ensures ClaimsIn(line, [first] + (middle + ([second] + last)), read, Found([])) == Found([c, e])
  {
    assert [] + [c] == [c] && [c] + [e] == [c, e];
    OneOfMany(line, first, read, Found([]), c.at, middle + ([second] + last));
    ClaimsInBoth(line, middle, [second] + last, read, Found([c]));
    NoClaimsIn(line, middle, read, Found([c]));
    OneOfMany(line, second, read, Found([c]), e.at, last);
    NoClaimsIn(line, last, read, Found([c, e]));
  }

  lemma OthersAreAbsent(line: string, tests: nat, sequential: nat)
    requires Short(line, tests, sequential)
    ensures forall m | m in MARKERS[1..4] || m in MARKERS[5..] :: m.text != "" && forall q :: !OccursAt(line, m.text, q)
  {
    MarkersInParts();
    forall m | m in MARKERS[1..4] || m in MARKERS[5..] ensures m.text != "" && forall q :: !OccursAt(line, m.text, q) {
      var k :| 0 <= k < |MARKERS| && k != 0 && k != 4 && MARKERS[k] == m;
      OthersDoNotOccur(line, tests, sequential, k);
    }
  }

  /** The claims of a short line: its tests, then its mutations. */
  lemma ShortClaims(line: string, c: Located, e: Located, read: Reader)
    requires Short(line, c.at, e.at) && c.marker == TESTS && e.marker == SEQUENTIAL
    requires read(line[..c.at], TESTS) == Some(c.claim) && read(line[..e.at], SEQUENTIAL) == Some(e.claim)
    ensures Claims(line, MARKERS, read, AS_MEASURED_THEN) == [c, e]
  {
    TheTwoMarkers();
    TheTwoOccurOnce(line, c.at, e.at);
    MarkersInParts();
    NotFrozen(line);
    OthersAreAbsent(line, c.at, e.at);
    PartsClaims(line, TESTS, MARKERS[1..4], SEQUENTIAL, MARKERS[5..], read, c, e);
  }

  // ---------- Two lines ----------

  const COLLIDING := "5 tests 4 sequential"
  const CANCELLING := "5 sequential 5 tests"

  function Counts(tests: nat, mutations: nat): Actual {
    (unit: Unit) => if unit == Tests then tests else mutations
  }

  /** The two claims of a short line whose figures are digits. */
  function TwoClaims(tests: nat, d: char, sequential: nat, e: char): seq<Located>
    requires IsDigit(d) && IsDigit(e)
  {
    [Located(Claim(DigitValue(d), Tests, [d]), TESTS, tests),
     Located(Claim(DigitValue(e), Mutations, [e]), SEQUENTIAL, sequential)]
  }

  lemma ShortLineClaims(line: string, tests: nat, d: char, sequential: nat, e: char, words: seq<(string, nat)>)
    requires Short(line, tests, sequential) && tests <= |line| && sequential <= |line|
    requires EndsInDigit(line[..tests], d) && EndsInDigit(line[..sequential], e)
    ensures Claims(line, MARKERS, FigureReader(words), AS_MEASURED_THEN) == TwoClaims(tests, d, sequential, e)
  {
    var claims := TwoClaims(tests, d, sequential, e);
    TheTwoMarkers();
    DigitIsRead(line[..tests], TESTS, d, words);
    DigitIsRead(line[..sequential], SEQUENTIAL, e, words);
    ShortClaims(line, claims[0], claims[1], FigureReader(words));
  }

  lemma SpelledFrom(line: string, text: string, p: nat)
    requires p + |text| <= |line| && forall i | 0 <= i < |text| :: line[p + i] == text[i]
    ensures OccursAt(line, text, p)
  {
  }

  lemma CollidingIsShort(line: string)
    requires line == COLLIDING
    ensures Short(line, 1, 9) && |line| == 20 && EndsInDigit(line[..1], '5') && EndsInDigit(line[..9], '4')
    ensures line[0] == '5' && line[8] == '4' && forall q | 0 <= q < 8 :: line[q] != '4'
  {
    SpelledFrom(line, " tests", 1);
    SpelledFrom(line, " sequential", 9);
  }

  lemma CancellingIsShort(line: string)
    requires line == CANCELLING
    ensures Short(line, 14, 1) && |line| == 20 && EndsInDigit(line[..14], '5') && EndsInDigit(line[..1], '5')
    ensures line[0] == '5' && line[1] == ' ' && line[13] == '5' && forall q | 0 < q < 13 :: line[q] != '5'
  {
    SpelledFrom(line, " tests", 14);
    SpelledFrom(line, " sequential", 1);
  }

  lemma FindDigit(line: string, d: char, p: nat)
    requires p < |line| && line[p] == d && forall q | 0 <= q < p :: line[q] != d
    ensures Find(line, [d]) == Some(p)
  {
    FindIsLeftmost(line, [d]);
    assert OccursAt(line, [d], p);
    forall q | 0 <= q < p ensures !OccursAt(line, [d], q) {
      assert line[q..q + 1] == [line[q]];
    }
  }

  lemma ReplaceDigit(line: string, d: char, p: nat, y: string)
    requires p < |line| && line[p] == d && forall q | 0 <= q < p :: line[q] != d
    ensures ReplaceFirst(line, [d], y, 1) == line[..p] + y + line[p + 1..]
  {
    FindDigit(line, d, p);
    ReplacedOnce(line, [d], y, p);
  }

  lemma DecimalsHere()
    ensures Respell("5", 14) == "14" && Respell("4", 9) == "9" && Respell("5", 7) == "7"
  {
  }

  lemma TwoTurns(line: string, c: Located, e: Located, actual: Actual)
    ensures RewriteAll(line, [c, e], actual) == Rewrite(Rewrite(line, c.claim, actual), e.claim, actual)
  {
    var once := Rewrite(line, c.claim, actual);
    assert [c, e][1..] == [e] && [e][1..] == [];
    assert RewriteAll(once, [e], actual) == RewriteAll(Rewrite(once, e.claim, actual), [], actual);
  }

  lemma ReplacedInTurn(line: string, c: Located, e: Located, actual: Actual, once: string)
    requires Stale(c.claim, actual) && Stale(e.claim, actual)
    requires ReplaceFirst(line, c.claim.spelled, RespelledClaim(c, actual), 1) == once
    ensures RewriteAll(line, [c, e], actual) == ReplaceFirst(once, e.claim.spelled, RespelledClaim(e, actual), 1)
  {
    TwoTurns(line, c, e, actual);
  }

  lemma AimedNextTo(line: string, l: Located, p: nat)
    requires Find(line, l.claim.spelled) == Some(p) && p + |l.claim.spelled| == l.at <= |line|
    ensures Aimed(line, l)
  {
  }

  lemma CollidingAimed(line: string)
    requires |line| == 20 && line[0] == '5' && line[8] == '4' && forall q | 0 <= q < 8 :: line[q] != '4'
    ensures forall l | l in TwoClaims(1, '5', 9, '4') :: Aimed(line, l)
  {
    var claims := TwoClaims(1, '5', 9, '4');
    FindDigit(line, '5', 0);
    FindDigit(line, '4', 8);
    AimedNextTo(line, claims[0], 0);
    AimedNextTo(line, claims[1], 8);
  }

  lemma FirstTurnWrites(line: string)
    requires |line| == 20 && line[0] == '5'
    ensures ReplaceFirst(line, ['5'], "14", 1) == "14" + line[1..]
  {
    ReplaceDigit(line, '5', 0, "14");
    assert line[..0] + "14" + line[1..] == "14" + line[1..];
  }

  lemma SecondTurnHits(half: string, rest: string)
    requires half == "14" + rest
    ensures ReplaceFirst(half, ['4'], "9", 1) == "19" + rest
  {
    ReplaceDigit(half, '4', 1, "9");
    assert half[..1] + "9" + half[2..] == "19" + rest;
  }

  lemma CollidingTurns(line: string)
    requires |line| == 20 && line[0] == '5'
    ensures RewriteAll(line, TwoClaims(1, '5', 9, '4'), Counts(14, 9)) == "19" + line[1..]
  {
    var claims := TwoClaims(1, '5', 9, '4');
    FirstTurnWrites(line);
    SecondTurnHits("14" + line[1..], line[1..]);
    DecimalsHere();
    ReplacedInTurn(line, claims[0], claims[1], Counts(14, 9), "14" + line[1..]);
  }

  lemma MissesFirst(line: string, claims: seq<Located>, actual: Actual, k: nat)
    requires claims != [] && Stale(claims[0].claim, actual) && Find(line, claims[0].claim.spelled) == Some(0)
    requires |claims[0].claim.spelled| <= k < claims[0].at <= |line| && line[k] == ' '
    ensures !AimedInTurn(line, claims, actual)
  {
    var n := |claims[0].claim.spelled|;
    assert line[n..claims[0].at][k - n] == ' ' && !IsRun(' ');
  }

  lemma CancellingMisses(line: string)
    requires |line| == 20 && line[0] == '5' && line[1] == ' '
    ensures !AimedInTurn(line, TwoClaims(14, '5', 1, '5'), Counts(7, 7))
  {
    FindDigit(line, '5', 0);
    MissesFirst(line, TwoClaims(14, '5', 1, '5'), Counts(7, 7), 1);
  }

  lemma FirstTurnMissesTo(line: string)
    requires |line| == 20 && line[0] == '5'
    ensures ReplaceFirst(line, ['5'], "7", 1) == "7" + line[1..]
  {
    ReplaceDigit(line, '5', 0, "7");
    assert line[..0] + "7" + line[1..] == "7" + line[1..];
  }

  lemma SecondTurnMissesBack(half: string)
    requires |half| == 20 && half[13] == '5' && forall q | 0 <= q < 13 :: half[q] != '5'
    ensures ReplaceFirst(half, ['5'], "7", 1) == half[..13] + "7" + half[14..]
  {
    ReplaceDigit(half, '5', 13, "7");
  }

  lemma CancellingRewrites(line: string, half: string)
    requires ReplaceFirst(line, ['5'], "7", 1) == half
    ensures RewriteAll(line, TwoClaims(14, '5', 1, '5'), Counts(7, 7)) == ReplaceFirst(half, ['5'], "7", 1)
  {
    var claims := TwoClaims(14, '5', 1, '5');
    DecimalsHere();
    ReplacedInTurn(line, claims[0], claims[1], Counts(7, 7), half);
  }

  lemma HalfIsShort(line: string, half: string)
    requires |line| == 20 && line[13] == '5' && forall q | 0 < q < 13 :: line[q] != '5'
    requires half == "7" + line[1..]
    ensures |half| == 20 && half[13] == '5' && forall q | 0 <= q < 13 :: half[q] != '5'
  {
    assert forall q | 0 < q < 20 :: half[q] == line[q];
  }

  /**
   * Each figure of the first line is aimed at, on the line as it is at first. The first turn writes a
   * `14`, the second finds its `4` in that, and the line claims 19 tests and 4 mutations.
   */
  lemma SecondTurnSpoilsTheFirst(line: string, words: seq<(string, nat)>)
    requires line == COLLIDING
    ensures Claims(line, MARKERS, FigureReader(words), AS_MEASURED_THEN) == TwoClaims(1, '5', 9, '4')
    ensures forall l | l in TwoClaims(1, '5', 9, '4') :: Aimed(line, l)
    ensures Synced(line, MARKERS, FigureReader(words), AS_MEASURED_THEN, Counts(14, 9)) == "19" + line[1..]
  {
    CollidingIsShort(line);
    ShortLineClaims(line, 1, '5', 9, '4', words);
    CollidingAimed(line);
    CollidingTurns(line);
  }

  /**
   * The first turn of the second line misses, and the second puts right what it should have: not
   * being aimed in turn does not always leave a wrong figure.
   */
  lemma MissesCanCancel(line: string, half: string, words: seq<(string, nat)>)
    requires line == CANCELLING && half == "7" + line[1..]
    ensures Claims(line, MARKERS, FigureReader(words), AS_MEASURED_THEN) == TwoClaims(14, '5', 1, '5')
    ensures !AimedInTurn(line, TwoClaims(14, '5', 1, '5'), Counts(7, 7))
    ensures Synced(line, MARKERS, FigureReader(words), AS_MEASURED_THEN, Counts(7, 7))
            == half[..13] + "7" + half[14..]
  {
    CancellingIsShort(line);
    ShortLineClaims(line, 14, '5', 1, '5', words);
    CancellingMisses(line);
    FirstTurnMissesTo(line);
    HalfIsShort(line, half);
    SecondTurnMissesBack(half);
    CancellingRewrites(line, half);
  }
}
