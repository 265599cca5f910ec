/** What `claimed_numbers` and `sync` make of a line, said of its text: the tool's own markers, reader and words. */
module ToolFigures {
  import opened Text
  import opened Figures
  import opened Replacement
  import opened DocNumbers
  import opened Turns

  // ---------- A figure, with emphasis around it ----------

  ghost predicate IsEmphasis(s: string) {
    forall c | c in s :: c == '*' || c == '_'
  }

  /** The text goes no further back than what can be part of a figure or its emphasis. */
  ghost predicate Bounded(before: string) {
    before != "" ==>
      var last := before[|before| - 1];
      !('0' <= last <= '9') && last != ',' && last != '*' && last != '_'
  }

  lemma EmphasisHoldsNone(e: string)
    requires IsEmphasis(e)
    ensures Keep(e, IsFigure) == "" && AllRun(e)
  {
    KeepNone(e, IsFigure);
  }

  /** A figure is read whatever emphasis it stands in, and the emphasis is no part of it. */
  lemma FigureIsRead(before: string, e: string, x: string, f: string, v: nat, m: Marker, words: seq<(string, nat)>)
    requires Bounded(before) && IsEmphasis(e) && IsEmphasis(f)
    requires AllFigures(x) && ParseFigure(x) == Some(v)
    ensures ReadFigure(before + e + x + f, m, words) == Some(Claim(v, m.unit, x))
  {
    EmphasisHoldsNone(e);
    EmphasisHoldsNone(f);
    RunAppend(before, e);
    assert TrailingRun(before) == "" && "" + e == e;
    CollectedAround(before + e, x, f);
    assert "" + x + "" == x;
  }

  // ---------- A number in a word ----------

  ghost predicate NoSpace(s: string) {
    forall c | c in s :: !IsWhitespace(c)
  }

  predicate IsLetter(c: char) {
    'a' <= c <= 'z' || 'A' <= c <= 'Z'
  }

  /** Nothing in it is a letter, a digit or a dash. */
  ghost predicate IsPunctuation(s: string) {
    NoSpace(s) && forall c | c in s :: !IsLetter(c) && !('0' <= c <= '9') && c != '-'
  }

  /** It starts with a letter, a digit or a dash, and ends with a letter. */
  ghost predicate IsPlainWord(w: string) {
    && w != "" && NoSpace(w) && (IsLetter(w[0]) || '0' <= w[0] <= '9' || w[0] == '-')
    && IsLetter(w[|w| - 1])
  }

  lemma LastWordNext(s: string, c: char)
    requires !IsWhitespace(c)
    ensures LastWord(s + [c]) == LastWord(s) + [c]
  {
    assert (s + [c])[..|s|] == s;
  }

  lemma {:induction false} LastWordIs(before: string, w: string)
    requires NoSpace(w) && (before != "" ==> IsWhitespace(before[|before| - 1]))
    ensures LastWord(before + w) == w
  {
    if w == "" {
      assert before + w == before;
    } else {
      var lead, c := w[..|w| - 1], w[|w| - 1];
      assert c in w && forall d | d in lead :: d in w;
      LastWordIs(before, lead);
      LastWordNext(before + lead, c);
      Regroup(before, lead, [c]);
      assert w == lead + [c];
    }
  }

  lemma {:induction false} TrimmedAfter(w: string, q: string)
    requires IsPlainWord(w) && IsPunctuation(q)
    ensures TrimWord(w + q) == w
    decreases |q|
  {
    var all := w + q;
    assert all[0] == w[0];
    if q == "" {
      assert all == w;
    } else {
      var last := |q| - 1;
      assert q[last] in q && forall c | c in q[..last] :: c in q;
      assert all[..|all| - 1] == w + q[..last];
      TrimmedAfter(w, q[..last]);
    }
  }

  lemma {:induction false} TrimmedAround(p: string, w: string, q: string)
    requires IsPunctuation(p) && IsPlainWord(w) && IsPunctuation(q)
    ensures TrimWord(p + w + q) == w
    decreases |p|
  {
    var all := p + w + q;
    if p == "" {
      assert all == w + q;
      TrimmedAfter(w, q);
    } else {
      assert p[0] in p && all[0] == p[0] && forall c | c in p[1..] :: c in p;
      assert all[1..] == p[1..] + w + q;
      TrimmedAround(p[1..], w, q);
    }
  }

  /** What is collected of punctuation is commas at most, which are no figure. */
  lemma {:induction false} PunctuationIsNoFigure(q: string)
    requires IsPunctuation(q)
    ensures WithoutCommas(Collected(q)) == ""
  {
    RunIsPart(q);
    KeepNone(Collected(q), NotComma);
  }

  lemma {:induction false} RunIsPart(prefix: string)
    ensures forall c | c in TrailingRun(prefix) :: c in prefix
  {
    if prefix != "" {
      RunIsPart(prefix[..|prefix| - 1]);
    }
  }

  lemma NoFigureAfterLetter(before: string, q: string)
    requires before != "" && !IsRun(before[|before| - 1]) && IsPunctuation(q)
    ensures ParseFigure(Collected(before + q)) == None
  {
    CollectedAfter(before, q);
    PunctuationIsNoFigure(q);
  }

  lemma {:induction false} CollectedAfter(before: string, q: string)
    requires before != "" && !IsRun(before[|before| - 1])
    ensures TrailingRun(before + q) == TrailingRun(q)
  {
    var all := before + q;
    if q == "" {
      assert all == before;
    } else {
      assert all[..|all| - 1] == before + q[..|q| - 1];
      CollectedAfter(before, q[..|q| - 1]);
    }
  }

  /** A word is looked up where the marker allows it, without the punctuation around it. */
  lemma WordIsRead(before: string, p: string, w: string, q: string, m: Marker, words: seq<(string, nat)>)
    requires before != "" ==> IsWhitespace(before[|before| - 1])
    requires IsPunctuation(p) && IsPlainWord(w) && IsPunctuation(q)
    ensures ReadFigure(before + (p + w + q), m, words)
            == if !m.words then None
               else match WordNumber(w, words) case None => None case Some(v) => Some(Claim(v, m.unit, w))
  {
    assert before + (p + w + q) == (before + p + w) + q;
    NoFigureAfterLetter(before + p + w, q);
    LastWordIs(before, p + w + q);
    TrimmedAround(p, w, q);
  }

  // ---------- Which count a figure is compared with ----------

  /** What stands at the place of a claim is its marker. */
  lemma MarkerIs(line: string, markers: seq<Marker>, read: Reader, l: Located, m: Marker)
    requires GoodMarkers(markers) && m in markers
    requires IsClaim(line, markers, read, l) && OccursAt(line, m.text, l.at)
    ensures l.marker == m && read(line[..l.at], m) == Some(l.claim)
    ensures m.context != "" ==> exists at :: OccursAt(line, m.context, at)
  {
    var rest := line[l.at..];
    assert rest[..|l.marker.text|] == line[l.at..l.at + |l.marker.text|];
    assert rest[..|m.text|] == line[l.at..l.at + |m.text|];
    OneMarkerPerPlace(markers, l.marker, m, rest);
    FindIsLeftmost(line, m.context);
  }

  lemma UnitIsRead(prefix: string, m: Marker, words: seq<(string, nat)>, c: Claim)
    requires ReadFigure(prefix, m, words) == Some(c)
    ensures c.unit == m.unit && (!m.words ==> AllFigures(c.spelled))
  {
  }

  /** A claim before a marker's text is compared with the marker's count; without words it is all figures. */
  ghost predicate Compared(l: Located, actual: Actual, unit: Unit) {
    Right(l.claim, actual) <==> l.claim.value == actual(unit)
  }

  lemma ComparedAt(line: string, l: Located, actual: Actual, m: Marker)
    requires IsClaim(line, MARKERS, FigureReader(WORDS), l) && m in MARKERS && OccursAt(line, m.text, l.at)
    ensures Compared(l, actual, m.unit) && (!m.words ==> AllFigures(l.claim.spelled))
    ensures m.context != "" ==> exists at :: OccursAt(line, m.context, at)
  {
    WordsAreInLetters();
    ToolSettingIsGood(WORDS);
    MarkerIs(line, MARKERS, FigureReader(WORDS), l, m);
    UnitIsRead(line[..l.at], m, WORDS, l.claim);
  }

  /** Before ` tests` a figure, and never a word, is compared with the tests. */
  lemma BeforeTests(line: string, l: Located, actual: Actual)
    requires IsClaim(line, MARKERS, FigureReader(WORDS), l) && OccursAt(line, " tests", l.at)
    ensures Compared(l, actual, Tests) && AllFigures(l.claim.spelled)
  {
    ComparedAt(line, l, actual, Marker(" tests", Tests, false, ""));
  }

  ghost predicate IsMutationsText(text: string) {
    || text == " specific defects" || text == " deliberate defects" || text == " distinct defects"
    || text == " sequential"
  }

  lemma MutationsMarker(text: string)
    requires IsMutationsText(text)
    ensures Marker(text, Mutations, false, "") in MARKERS
  {
    var k := if text == " specific defects" then 1 else if text == " deliberate defects" then 2
             else if text == " distinct defects" then 3 else 4;
    assert MARKERS[k] == Marker(text, Mutations, false, "");
  }

  /** Before one of four texts a figure, and never a word, is compared with the mutations. */
  lemma BeforeMutations(line: string, l: Located, actual: Actual, text: string)
    requires IsClaim(line, MARKERS, FigureReader(WORDS), l) && IsMutationsText(text) && OccursAt(line, text, l.at)
    ensures Compared(l, actual, Mutations) && AllFigures(l.claim.spelled)
  {
    MutationsMarker(text);
    ComparedAt(line, l, actual, Marker(text, Mutations, false, ""));
  }

  /** Before one of two texts a figure or a word is compared with the examples. */
  lemma BeforeExamples(line: string, l: Located, actual: Actual)
    requires IsClaim(line, MARKERS, FigureReader(WORDS), l)
    requires OccursAt(line, " runnable examples", l.at) || OccursAt(line, " example scripts", l.at)
    ensures Compared(l, actual, Examples)
  {
    if OccursAt(line, " runnable examples", l.at) {
      ComparedAt(line, l, actual, Marker(" runnable examples", Examples, true, ""));
    } else {
      ComparedAt(line, l, actual, Marker(" example scripts", Examples, true, ""));
    }
  }

  /** Before ` invariants` a figure or a word is compared with the checks, on a line that names `check-all`. */
  lemma BeforeInvariants(line: string, l: Located, actual: Actual)
    requires IsClaim(line, MARKERS, FigureReader(WORDS), l) && OccursAt(line, " invariants", l.at)
    ensures Compared(l, actual, Checks) && exists at :: OccursAt(line, "check-all", at)
  {
    ComparedAt(line, l, actual, Marker(" invariants", Checks, true, "check-all"));
  }

  /** And one of those eight texts is what every claim stands before. */
  lemma OneStandsThere(line: string, l: Located)
    requires IsClaim(line, MARKERS, FigureReader(WORDS), l)
    ensures || OccursAt(line, " tests", l.at)
            || (exists text :: IsMutationsText(text) && OccursAt(line, text, l.at))
            || OccursAt(line, " runnable examples", l.at) || OccursAt(line, " example scripts", l.at)
            || OccursAt(line, " invariants", l.at)
  {
    var k :| 0 <= k < |MARKERS| && MARKERS[k] == l.marker;
    assert 0 < k < 5 ==> IsMutationsText(l.marker.text);
  }

  // ---------- Lines that are left alone, and the order of the claims ----------

  lemma RecordText()
    ensures AS_MEASURED_THEN == "<!-- figures-as-measured-then -->"
  {
  }

  /** A line marked as a record claims nothing and is not touched. */
  lemma RecordIsLeft(line: string, markers: seq<Marker>, read: Reader, frozen: string, actual: Actual, at: nat)
    requires (forall m | m in markers :: m.text != "") && OccursAt(line, frozen, at)
    ensures Claims(line, markers, read, frozen) == [] && Synced(line, markers, read, frozen, actual) == line
  {
    FindIsLeftmost(line, frozen);
  }

  /** A claim is respelled exactly when it is wrong and starts with a digit; then where it first occurs, if it does. */
  lemma RewriteMeaning(line: string, claim: Claim, actual: Actual)
    ensures (claim.value == actual(claim.unit) || claim.spelled == "" || !('0' <= claim.spelled[0] <= '9')) ==>
              Rewrite(line, claim, actual) == line
    ensures claim.value != actual(claim.unit) && claim.spelled != "" && '0' <= claim.spelled[0] <= '9' ==>
              match Find(line, claim.spelled)
              case None => Rewrite(line, claim, actual) == line
              case Some(p) =>
                Rewrite(line, claim, actual)
                == line[..p] + Respell(claim.spelled, actual(claim.unit)) + line[p + |claim.spelled|..]
  {
    if Find(line, claim.spelled).Some? && claim.spelled != "" {
      ReplacedOnce(line, claim.spelled, Respell(claim.spelled, actual(claim.unit)), Find(line, claim.spelled).value);
    }
  }

  /** Before, by marker; for one marker, from left to right. */
  ghost predicate Precedes(a: Located, b: Located, rank: Marker -> int) {
    rank(a.marker) < rank(b.marker) || (a.marker == b.marker && a.at < b.at)
  }

  ghost predicate InOrder(claims: seq<Located>, rank: Marker -> int) {
    forall i, j | 0 <= i < j < |claims| :: Precedes(claims[i], claims[j], rank)
  }

  /** All of them come before what the marker claims from a position on. */
  ghost predicate AllPrecede(claims: seq<Located>, rank: Marker -> int, marker: Marker, from: nat) {
    forall l | l in claims :: rank(l.marker) < rank(marker) || (l.marker == marker && l.at < from)
  }

  lemma InOrderWith(found: Found, rank: Marker -> int, marker: Marker, from: nat, claim: Option<Claim>, end: nat,
                    next: nat)
    requires InOrder(found.claims, rank) && AllPrecede(found.claims, rank, marker, from) && from <= end < next
    ensures InOrder(found.With(claim, marker, end).claims, rank)
    ensures AllPrecede(found.With(claim, marker, end).claims, rank, marker, next)
  {
    forall i | 0 <= i < |found.claims| ensures found.claims[i] in found.claims {}
  }

  lemma {:induction false} ClaimsFromInOrder(line: string, from: nat, marker: Marker, read: Reader, found: Found,
                                             all: Found, rank: Marker -> int)
    requires Onward(line, from, marker, read, found, all)
    requires InOrder(found.claims, rank) && AllPrecede(found.claims, rank, marker, from) && from <= |line|
    ensures InOrder(all.claims, rank) && AllPrecede(all.claims, rank, marker, |line| + 1)
    decreases |line| - from
  {
    var next := FindAt(line, from, marker.text);
    if next.None? {
      OnwardEnds(line, from, marker, read, found, all);
    } else {
      var end := next.value;
      OnwardStep(line, from, marker, read, found, all, end);
      InOrderWith(found, rank, marker, from, read(line[..end], marker), end, end + |marker.text|);
      ClaimsFromInOrder(line, end + |marker.text|, marker, read,
                        found.With(read(line[..end], marker), marker, end), all, rank);
    }
  }

  ghost predicate Ascending(markers: seq<Marker>, rank: Marker -> int) {
    forall p, q | 0 <= p < q < |markers| :: rank(markers[p]) < rank(markers[q])
  }

  ghost predicate Below(claims: seq<Located>, markers: seq<Marker>, rank: Marker -> int) {
    forall l, m | l in claims && m in markers :: rank(l.marker) < rank(m)
  }

  lemma {:induction false} ClaimsInOrder(line: string, markers: seq<Marker>, read: Reader, found: Found,
                                         rank: Marker -> int)
    requires (forall m | m in markers :: m.text != "") && Ascending(markers, rank)
    requires InOrder(found.claims, rank) && Below(found.claims, markers, rank)
    ensures InOrder(ClaimsIn(line, markers, read, found).claims, rank)
    decreases |markers|
  {
    if markers != [] {
      var more := if Active(line, markers[0]) then ClaimsFrom(line, 0, markers[0], read, found) else found;
      ClaimsFromInOrder(line, 0, markers[0], read, found, ClaimsFrom(line, 0, markers[0], read, found), rank);
      StillBelow(found.claims, more.claims, markers, rank, |line| + 1);
      ClaimsInOrder(line, markers[1..], read, more, rank);
    }
  }

  lemma StillBelow(found: seq<Located>, more: seq<Located>, markers: seq<Marker>, rank: Marker -> int, end: nat)
    requires markers != [] && Ascending(markers, rank) && Below(found, markers, rank)
    requires more == found || AllPrecede(more, rank, markers[0], end)
    ensures Below(more, markers[1..], rank)
  {
    forall m | m in markers[1..] ensures m in markers && rank(markers[0]) < rank(m) {
      var q :| 0 <= q < |markers[1..]| && markers[1..][q] == m;
      assert markers[q + 1] == m;
    }
  }

  /** Where a marker comes in the list. */
  function Rank(markers: seq<Marker>, m: Marker): (k: nat)
    ensures k <= |markers| && (k < |markers| ==> markers[k] == m)
  {
    if markers == [] || markers[0] == m then 0 else Rank(markers[1..], m) + 1
  }

  lemma {:induction false} RankIsPlace(markers: seq<Marker>, k: nat)
    requires DistinctMarkers(markers) && k < |markers|
    ensures Rank(markers, markers[k]) == k
  {
    if k > 0 {
      assert markers[0] != markers[k];
      assert DistinctMarkers(markers[1..]) by {
        forall i, j | 0 <= i < j < |markers[1..]| ensures markers[1..][i] != markers[1..][j] {
          assert markers[i + 1] != markers[j + 1];
        }
      }
      RankIsPlace(markers[1..], k - 1);
    }
  }

  /** The claims of a line, marker by marker in the order of the list, and for each from left to right. */
  lemma ClaimsAreInOrder(line: string, markers: seq<Marker>, read: Reader, frozen: string)
    requires (forall m | m in markers :: m.text != "") && DistinctMarkers(markers)
    ensures InOrder(Claims(line, markers, read, frozen), m => Rank(markers, m))
  {
    var rank := m => Rank(markers, m);
    forall p, q | 0 <= p < q < |markers| ensures rank(markers[p]) < rank(markers[q]) {
      RankIsPlace(markers, p);
      RankIsPlace(markers, q);
    }
    ClaimsInOrder(line, markers, read, Found([]), rank);
  }
}
