/** The figures documents quote: finding them, checking them, and rewriting the stale ones. */
module DocNumbers {
  import opened Text
  import opened Figures
  import opened Replacement
  import Searches

  datatype Unit = Tests | Mutations | Examples | Checks

  /** What follows a figure of some unit; whether a word may spell it; what else the line must say. */
  datatype Marker = Marker(text: string, unit: Unit, words: bool, context: string)

  datatype Claim = Claim(value: nat, unit: Unit, spelled: string)

  /** A claim, and the marker and position it was read before. */
  datatype Located = Located(claim: Claim, marker: Marker, at: nat)

  // ---------- Reading one figure ----------

  /** The digits, separators and emphasis a text ends with. */
  function TrailingRun(prefix: string): string {
    if prefix != "" && IsRun(prefix[|prefix| - 1]) then
      TrailingRun(prefix[..|prefix| - 1]) + [prefix[|prefix| - 1]]
    else ""
  }

  /** What the walk back collects: the run without its emphasis. */
  function Collected(prefix: string): string {
    Keep(TrailingRun(prefix), IsFigure)
  }

  function LastWord(prefix: string): string {
    if prefix != "" && !IsWhitespace(prefix[|prefix| - 1]) then
      LastWord(prefix[..|prefix| - 1]) + [prefix[|prefix| - 1]]
    else ""
  }

  predicate IsWordCharacter(c: char) {
    IsDigit(c) || 'a' <= c <= 'z' || 'A' <= c <= 'Z' || c == '-'
  }

  function TrimWord(word: string): string
    decreases |word|
  {
    if word != "" && !IsWordCharacter(word[0]) then TrimWord(word[1..])
    else if word != "" && !IsWordCharacter(word[|word| - 1]) then TrimWord(word[..|word| - 1])
    else word
  }

  /** The figure a text ends with, if it ends with one: in digits, or in a word where the marker allows. */
  function ReadFigure(prefix: string, marker: Marker, words: seq<(string, nat)>): Option<Claim> {
    var digits := Collected(prefix);
    match ParseFigure(digits)
    case Some(value) => Some(Claim(value, marker.unit, digits))
    case None =>
      if !marker.words then None
      else
        var word := TrimWord(LastWord(prefix));
        match WordNumber(word, words)
        case None => None
        case Some(value) => Some(Claim(value, marker.unit, word))
  }

  type Reader = (string, Marker) -> Option<Claim>

  // ---------- A line's claims ----------

  /** The claims found so far. */
  datatype Found = Found(claims: seq<Located>)
  {
    function With(claim: Option<Claim>, marker: Marker, at: nat): Found {
      match claim case None => this case Some(c) => Found(claims + [Located(c, marker, at)])
    }
  }

  /** The inner loop: what stands before each further occurrence of one marker, added to `found`. */
  function ClaimsFrom(line: string, from: nat, marker: Marker, read: Reader, found: Found): Found
    requires marker.text != "" && from <= |line|
    decreases |line| - from
  {
    match FindAt(line, from, marker.text)
    case None => found
    case Some(end) =>
      ClaimsFrom(line, end + |marker.text|, marker, read, found.With(read(line[..end], marker), marker, end))
  }

  predicate Active(line: string, marker: Marker) {
    marker.context == "" || Contains(line, marker.context)
  }

  /** The outer loop: every marker in turn. */
  function ClaimsIn(line: string, markers: seq<Marker>, read: Reader, found: Found): Found
    requires forall m | m in markers :: m.text != ""
    decreases |markers|
  {
    if markers == [] then found
    else
      var more := if Active(line, markers[0]) then ClaimsFrom(line, 0, markers[0], read, found) else found;
      ClaimsIn(line, markers[1..], read, more)
  }

  /** Every figure a line claims, unless it is marked as a record of another moment. */
  function Claims(line: string, markers: seq<Marker>, read: Reader, frozen: string): seq<Located>
    requires forall m | m in markers :: m.text != ""
  {
    if Contains(line, frozen) then [] else ClaimsIn(line, markers, read, Found([])).claims
  }

  lemma ClaimsStep(line: string, from: nat, marker: Marker, read: Reader, found: Found, end: nat)
    requires marker.text != "" && from <= |line| && FindAt(line, from, marker.text) == Some(end)
    ensures ClaimsFrom(line, from, marker, read, found)
            == ClaimsFrom(line, end + |marker.text|, marker, read, found.With(read(line[..end], marker), marker, end))
  {
  }

  /** The scan from a position on comes to what the whole scan does. */
  ghost predicate Onward(line: string, from: nat, marker: Marker, read: Reader, found: Found, all: Found) {
    marker.text != "" && from <= |line| && ClaimsFrom(line, from, marker, read, found) == all
  }

  lemma OnwardStep(line: string, from: nat, marker: Marker, read: Reader, found: Found, all: Found, end: nat)
    requires Onward(line, from, marker, read, found, all) && FindAt(line, from, marker.text) == Some(end)
    ensures end + |marker.text| <= |line|
    ensures Onward(line, end + |marker.text|, marker, read, found.With(read(line[..end], marker), marker, end), all)
  {
    ClaimsStep(line, from, marker, read, found, end);
  }

  lemma OnwardEnds(line: string, from: nat, marker: Marker, read: Reader, found: Found, all: Found)
    requires Onward(line, from, marker, read, found, all) && FindAt(line, from, marker.text) == None
    ensures found == all
  {
  }

  method ClaimsBefore(line: string, marker: Marker, read: Reader, found0: Found) returns (found: Found)
    requires marker.text != ""
    ensures found == ClaimsFrom(line, 0, marker, read, found0)
  {
    found := found0;
    var from := 0;
    ghost var all := ClaimsFrom(line, 0, marker, read, found0);
    var next := FindAt(line, from, marker.text);
    while next.Some?
      invariant from <= |line| && next == FindAt(line, from, marker.text)
      invariant Onward(line, from, marker, read, found, all)
      decreases |line| - from
    {
      var end := next.value;
      OnwardStep(line, from, marker, read, found, all, end);
      var claim := read(line[..end], marker);
      found := found.With(claim, marker, end);
      from := end + |marker.text|;
      next := FindAt(line, from, marker.text);
    }
    OnwardEnds(line, from, marker, read, found, all);
  }

  method ClaimedNumbers(line: string, markers: seq<Marker>, read: Reader, frozen: string) returns (claims: seq<Located>)
    requires forall m | m in markers :: m.text != ""
    ensures claims == Claims(line, markers, read, frozen)
  {
    if Contains(line, frozen) {
      return [];
    }
    var found := Found([]);
    for k := 0 to |markers|
      invariant ClaimsIn(line, markers[k..], read, found) == ClaimsIn(line, markers, read, Found([]))
    {
      assert markers[k..][0] == markers[k] && markers[k..][1..] == markers[k + 1..];
      if !Active(line, markers[k]) { continue; }
      found := ClaimsBefore(line, markers[k], read, found);
    }
    return found.claims;
  }

  // ---------- The check and the rewriting ----------

  type Actual = Unit -> nat

  predicate Right(claim: Claim, actual: Actual) {
    claim.value == actual(claim.unit)
  }

  predicate AllRight(claims: seq<Located>, actual: Actual) {
    forall k | 0 <= k < |claims| :: Right(claims[k].claim, actual)
  }

  /** `check` on one line. */
  method CheckLine(line: string, markers: seq<Marker>, read: Reader, frozen: string, actual: Actual) returns (ok: bool)
    requires forall m | m in markers :: m.text != ""
    ensures ok <==> AllRight(Claims(line, markers, read, frozen), actual)
  {
    var claims := ClaimedNumbers(line, markers, read, frozen);
    ok := true;
    for k := 0 to |claims|
      invariant ok <==> AllRight(claims[..k], actual)
    {
      if claims[k].claim.value != actual(claims[k].claim.unit) {
        ok := false;
      }
      assert claims[..k + 1] == claims[..k] + [claims[k]];
    }
    assert claims[..|claims|] == claims;
  }

  predicate InDigits(spelled: string) {
    spelled != "" && IsDigit(spelled[0])
  }

  /** What one claim does to the line: a stale figure in digits is respelled where it first occurs. */
  function Rewrite(line: string, claim: Claim, actual: Actual): string {
    if Right(claim, actual) || !InDigits(claim.spelled) then line
    else ReplaceFirst(line, claim.spelled, Respell(claim.spelled, actual(claim.unit)), 1)
  }

  function RewriteAll(line: string, claims: seq<Located>, actual: Actual): string
    decreases |claims|
  {
    if claims == [] then line else RewriteAll(Rewrite(line, claims[0].claim, actual), claims[1..], actual)
  }

  /** `sync` on one line. */
  function Synced(line: string, markers: seq<Marker>, read: Reader, frozen: string, actual: Actual): string
    requires forall m | m in markers :: m.text != ""
  {
    RewriteAll(line, Claims(line, markers, read, frozen), actual)
  }

  /** Whether a figure is stale and in digits, so that `sync` respells it. */
  predicate Stale(claim: Claim, actual: Actual) {
    !Right(claim, actual) && InDigits(claim.spelled)
  }

  predicate NoneStale(claims: seq<Located>, actual: Actual) {
    forall k | 0 <= k < |claims| :: !Stale(claims[k].claim, actual)
  }

  lemma RewriteNext(line: string, claims: seq<Located>, actual: Actual, k: nat)
    requires k < |claims|
    ensures RewriteAll(line, claims[k..], actual)
            == RewriteAll(Rewrite(line, claims[k].claim, actual), claims[k + 1..], actual)
  {
    assert claims[k..][0] == claims[k] && claims[k..][1..] == claims[k + 1..];
  }

  lemma StaleNext(claims: seq<Located>, actual: Actual, k: nat)
    requires k < |claims|
    ensures NoneStale(claims[..k + 1], actual) <==> NoneStale(claims[..k], actual) && !Stale(claims[k].claim, actual)
  {
    assert claims[..k + 1] == claims[..k] + [claims[k]];
  }

  method SyncLine(line0: string, markers: seq<Marker>, read: Reader, frozen: string, actual: Actual)
    returns (line: string, touched: nat)
    requires forall m | m in markers :: m.text != ""
    ensures line == Synced(line0, markers, read, frozen, actual)
    ensures touched == 0 <==> NoneStale(Claims(line0, markers, read, frozen), actual)
    ensures touched == 0 ==> line == line0
  {
    var claims := ClaimedNumbers(line0, markers, read, frozen);
    ghost var synced := RewriteAll(line0, claims, actual);
    line := line0;
    touched := 0;
    assert claims[0..] == claims;
    for k := 0 to |claims|
      invariant RewriteAll(line, claims[k..], actual) == synced
      invariant touched == 0 <==> NoneStale(claims[..k], actual)
      invariant touched == 0 ==> line == line0
    {
      var claim := claims[k].claim;
      RewriteNext(line, claims, actual, k);
      StaleNext(claims, actual, k);
      if claim.value == actual(claim.unit) { continue; }
      if !InDigits(claim.spelled) { continue; }
      var digits := Decimal(actual(claim.unit));
      var replacement := digits;
      if ',' in claim.spelled {
        replacement := WithThousands(actual(claim.unit));
      }
      line := ReplaceFirst(line, claim.spelled, replacement, 1);
      touched := touched + 1;
    }
    assert claims[..|claims|] == claims;
  }

  // ---------- Where claims are ----------

  ghost predicate ReadsAs(line: string, marker: Marker, read: Reader, l: Located) {
    l.marker == marker && l.at <= |line| && read(line[..l.at], marker) == Some(l.claim)
  }

  lemma WithMeaning(line: string, marker: Marker, read: Reader, found: Found, end: nat, l: Located)
    requires end <= |line|
    ensures l in found.With(read(line[..end], marker), marker, end).claims
            <==> l in found.claims || (l.at == end && ReadsAs(line, marker, read, l))
  {
  }

  /** The scan reads before every occurrence of a marker that cannot overlap itself. */
  lemma {:induction false} ClaimsAreOccurrences(line: string, from: nat, marker: Marker, read: Reader,
                                                found: Found, l: Located)
    requires marker.text != "" && Searches.BorderFree(marker.text) && from <= |line|
    ensures l in ClaimsFrom(line, from, marker, read, found).claims
            <==> l in found.claims
                 || (ReadsAs(line, marker, read, l) && from <= l.at && OccursAt(line, marker.text, l.at))
    decreases |line| - from
  {
    FindAtIsNext(line, from, marker.text);
    if FindAt(line, from, marker.text).Some? {
      var end := FindAt(line, from, marker.text).value;
      var more := found.With(read(line[..end], marker), marker, end);
      ClaimsStep(line, from, marker, read, found, end);
      ClaimsAreOccurrences(line, end + |marker.text|, marker, read, more, l);
      WithMeaning(line, marker, read, found, end, l);
      NextOccurrence(line, marker.text, from, end, l.at);
    }
  }

  lemma NextOccurrence(line: string, text: string, from: nat, end: nat, q: nat)
    requires Searches.BorderFree(text) && from <= end && OccursAt(line, text, end)
    requires forall p | from <= p < end :: !OccursAt(line, text, p)
    ensures from <= q && OccursAt(line, text, q) <==> q == end || (end + |text| <= q && OccursAt(line, text, q))
  {
    if end < q && OccursAt(line, text, q) {
      Searches.NoOverlap(line, text, end, q);
    }
  }

  ghost predicate IsClaim(line: string, markers: seq<Marker>, read: Reader, l: Located) {
    && l.marker in markers && Active(line, l.marker)
    && OccursAt(line, l.marker.text, l.at) && ReadsAs(line, l.marker, read, l)
  }

  ghost predicate Scannable(markers: seq<Marker>) {
    forall m | m in markers :: m.text != "" && Searches.BorderFree(m.text)
  }

  lemma {:induction false} ClaimsInMeaning(line: string, markers: seq<Marker>, read: Reader, found: Found, l: Located)
    requires Scannable(markers)
    ensures l in ClaimsIn(line, markers, read, found).claims <==> l in found.claims || IsClaim(line, markers, read, l)
    decreases |markers|
  {
    if markers != [] {
      ClaimsAreOccurrences(line, 0, markers[0], read, found, l);
      var more := if Active(line, markers[0]) then ClaimsFrom(line, 0, markers[0], read, found) else found;
      ClaimsInMeaning(line, markers[1..], read, more, l);
    }
  }

  // ---------- What the markers and the reader are assumed to be, and are ----------

  ghost predicate NoFigures(s: string) {
    forall c | c in s :: !IsFigure(c)
  }

  /** Markers open with a space and hold no figure; no two of them can stand at one place. */
  ghost predicate GoodMarkers(markers: seq<Marker>) {
    && Scannable(markers)
    && (forall m | m in markers :: m.text[0] == ' ' && NoFigures(m.text) && NoFigures(m.context))
    && (forall m, n | m in markers && n in markers && m.text <= n.text :: m == n)
  }

  /** What is read before a marker does not look past the last space. */
  ghost predicate Local(read: Reader) {
    forall a, b, t, m :: read(a + " " + t, m) == read(b + " " + t, m)
  }

  /** A run that parses is the claim; nothing else is spelled from a digit on. */
  ghost predicate ReadsRunAt(read: Reader, prefix: string, m: Marker) {
    match ParseFigure(Collected(prefix))
    case Some(v) => read(prefix, m) == Some(Claim(v, m.unit, Collected(prefix)))
    case None => read(prefix, m).Some? ==> !InDigits(read(prefix, m).value.spelled)
  }

  ghost predicate ReadsRuns(read: Reader) {
    forall prefix, m :: ReadsRunAt(read, prefix, m)
  }

  lemma {:induction false} RunAppend(s: string, t: string)
    requires forall c | c in t :: IsRun(c)
    ensures TrailingRun(s + t) == TrailingRun(s) + t
  {
    if t == "" {
      assert s + t == s;
    } else {
      var before, last := t[..|t| - 1], t[|t| - 1];
      assert last in t && t == before + [last];
      assert (s + t)[..|s + t| - 1] == s + before;
      assert forall c | c in before :: c in t;
      RunAppend(s, before);
    }
  }

  lemma {:induction false} RunStops(s: string, t: string)
    requires exists k :: 0 <= k < |t| && !IsRun(t[k])
    ensures TrailingRun(s + t) == TrailingRun(t)
  {
    var k :| 0 <= k < |t| && !IsRun(t[k]);
    var last := |t| - 1;
    assert (s + t)[..|s + t| - 1] == s + t[..last];
    if k < last {
      assert t[..last][k] == t[k];
      RunStops(s, t[..last]);
    }
  }

  lemma {:induction false} WordStops(s: string, t: string)
    requires exists k :: 0 <= k < |t| && IsWhitespace(t[k])
    ensures LastWord(s + t) == LastWord(t)
  {
    var k :| 0 <= k < |t| && IsWhitespace(t[k]);
    var last := |t| - 1;
    assert (s + t)[..|s + t| - 1] == s + t[..last];
    if k < last {
      assert t[..last][k] == t[k];
      WordStops(s, t[..last]);
    }
  }

  // ---------- A figure changes and nothing else on its line does ----------

  lemma OccursAcross(a: string, gap: string, b: string, text: string, q: int)
    requires text != "" && gap != "" && forall c | c in gap :: c !in text
    ensures OccursAt(a + gap + b, text, q) <==> OccursAt(a, text, q) || OccursAt(b, text, q - |a| - |gap|)
  {
    var all, end := a + gap + b, q + |text|;
    if 0 <= q && end <= |a| {
      assert forall k | q <= k < end :: all[k] == a[k];
      assert all[q..end] == a[q..end];
    } else if |a| + |gap| <= q && end <= |all| {
      var p := |a| + |gap|;
      assert forall k | q <= k < end :: all[k] == b[k - p];
      assert all[q..end] == b[q - p..end - p];
    } else if 0 <= q && end <= |all| {
      var k := if q < |a| then |a| else q;
      assert all[k] == gap[k - |a|] && gap[k - |a|] in gap;
      assert text[k - q] in text && all[q..end][k - q] == all[k];
    }
  }

  lemma FiguresAreNotIn(figures: string, text: string)
    requires AllFigures(figures) && NoFigures(text)
    ensures forall c | c in figures :: c !in text
  {
  }

  /** What a line contains, apart from figures, does not depend on its figures. */
  lemma ContainsAcross(a: string, x: string, y: string, b: string, needle: string)
    requires x != "" && y != "" && AllFigures(x) && AllFigures(y) && NoFigures(needle) && needle != ""
    ensures Contains(a + x + b, needle) <==> Contains(a + y + b, needle)
  {
    FindAcross(a, x, b, needle);
    FindAcross(a, y, b, needle);
  }

  lemma ReadAcross(read: Reader, a: string, x: string, y: string, b: string, m: Marker)
    requires Local(read) && ' ' in b
    ensures read(a + x + b, m) == read(a + y + b, m)
  {
    var k :| 0 <= k < |b| && b[k] == ' ';
    var s, t := b[..k], b[k + 1..];
    assert b == s + " " + t;
    assert a + x + b == (a + x + s) + " " + t;
    assert a + y + b == (a + y + s) + " " + t;
  }

  lemma ActiveAcross(a: string, x: string, y: string, b: string, m: Marker)
    requires x != "" && y != "" && AllFigures(x) && AllFigures(y) && NoFigures(m.context)
    ensures Active(a + x + b, m) <==> Active(a + y + b, m)
  {
    if m.context != "" { ContainsAcross(a, x, y, b, m.context); }
  }

  lemma SameBefore(a: string, b: string, c: string, k: nat)
    requires k <= |a|
    ensures (a + b + c)[..k] == a[..k]
  {
  }

  lemma ClaimBefore(a: string, x: string, y: string, b: string, markers: seq<Marker>, read: Reader, l: Located)
    requires GoodMarkers(markers) && x != "" && y != "" && AllFigures(x) && AllFigures(y)
    requires IsClaim(a + y + b, markers, read, l) && OccursAt(a, l.marker.text, l.at)
    ensures l.at < |a| && IsClaim(a + x + b, markers, read, l)
  {
    FiguresAreNotIn(x, l.marker.text);
    OccursAcross(a, x, b, l.marker.text, l.at);
    ActiveAcross(a, x, y, b, l.marker);
    SameBefore(a, x, b, l.at);
    SameBefore(a, y, b, l.at);
  }

  lemma PrefixAcrossFigure(a: string, y: string, b: string, j: nat)
    requires j <= |b|
    ensures (a + y + b)[..|a| + |y| + j] == a + y + b[..j]
  {
  }

  lemma ClaimAfter(a: string, x: string, y: string, b: string, markers: seq<Marker>, read: Reader, l: Located, j: nat)
    requires GoodMarkers(markers) && Local(read) && x != "" && y != "" && AllFigures(x) && AllFigures(y)
    requires IsClaim(a + y + b, markers, read, l) && l.at == |a| + |y| + j && OccursAt(b, l.marker.text, j)
    requires ' ' in b[..j]
    ensures IsClaim(a + x + b, markers, read, l.(at := |a| + |x| + j))
  {
    FiguresAreNotIn(x, l.marker.text);
    OccursAcross(a, x, b, l.marker.text, |a| + |x| + j);
    ActiveAcross(a, x, y, b, l.marker);
    ReadAcross(read, a, x, y, b[..j], l.marker);
    PrefixAcrossFigure(a, x, b, j);
    PrefixAcrossFigure(a, y, b, j);
  }

  /** A claim of the changed line, before the change or after it, was a claim of the line. */
  lemma ClaimsUnchanged(a: string, x: string, y: string, b: string, markers: seq<Marker>, read: Reader, l: Located)
    requires GoodMarkers(markers) && Local(read)
    requires x != "" && y != "" && AllFigures(x) && AllFigures(y)
    requires IsClaim(a + y + b, markers, read, l)
    requires |a| + |y| <= l.at ==> ' ' in b[..l.at - |a| - |y|]
    ensures if l.at < |a| then IsClaim(a + x + b, markers, read, l)
            else |a| + |y| <= l.at && IsClaim(a + x + b, markers, read, l.(at := l.at - |y| + |x|))
  {
    FiguresAreNotIn(y, l.marker.text);
    OccursAcross(a, y, b, l.marker.text, l.at);
    if OccursAt(a, l.marker.text, l.at) {
      ClaimBefore(a, x, y, b, markers, read, l);
    } else {
      ClaimAfter(a, x, y, b, markers, read, l, l.at - |a| - |y|);
    }
  }

  ghost predicate LineIsRight(line: string, markers: seq<Marker>, read: Reader, actual: Actual) {
    forall l | IsClaim(line, markers, read, l) :: Right(l.claim, actual)
  }

  /** Every claim but the one marker `m` makes at `q` is right. */
  ghost predicate RightBut(line: string, markers: seq<Marker>, read: Reader, actual: Actual, m: Marker, q: nat) {
    forall l | IsClaim(line, markers, read, l) && !(l.marker == m && l.at == q) :: Right(l.claim, actual)
  }

  /** Changing a figure directly before a marker leaves every other claim as it was. */
  lemma OthersStayRight(a: string, x: string, y: string, e: string, rest: string, markers: seq<Marker>,
                        read: Reader, actual: Actual, m: Marker)
    requires GoodMarkers(markers) && Local(read) && m in markers && m.text <= rest
    requires x != "" && y != "" && AllFigures(x) && AllFigures(y) && (forall c | c in e :: IsRun(c))
    requires RightBut(a + x + (e + rest), markers, read, actual, m, |a| + |x| + |e|)
    ensures RightBut(a + y + (e + rest), markers, read, actual, m, |a| + |y| + |e|)
  {
    var b := e + rest;
    var line := a + x + b;
    forall l | IsClaim(a + y + b, markers, read, l) && !(l.marker == m && l.at == |a| + |y| + |e|)
      ensures Right(l.claim, actual)
    {
      SpaceBefore(a, y, e, rest, markers, read, m, l);
      ClaimsUnchanged(a, x, y, b, markers, read, l);
      var was := if l.at < |a| then l else l.(at := l.at - |y| + |x|);
      assert IsClaim(line, markers, read, was);
    }
  }

  lemma RunHoldsNoMarker(e: string, rest: string, text: string, j: nat)
    requires text != "" && text[0] == ' ' && (forall c | c in e :: IsRun(c)) && OccursAt(e + rest, text, j)
    ensures |e| <= j
  {
    assert (e + rest)[j..j + |text|][0] == (e + rest)[j];
    assert forall k | 0 <= k < |e| :: (e + rest)[k] == e[k] && e[k] in e;
  }

  lemma MarkerFollows(e: string, rest: string, text: string)
    ensures OccursAt(e + rest, text, |e|) ==> text <= rest
  {
    if OccursAt(e + rest, text, |e|) {
      assert rest[..|text|] == (e + rest)[|e|..|e| + |text|];
    }
  }

  lemma OneMarkerPerPlace(markers: seq<Marker>, m: Marker, n: Marker, rest: string)
    requires GoodMarkers(markers) && m in markers && n in markers && m.text <= rest && n.text <= rest
    ensures m == n
  {
    if |m.text| <= |n.text| {
      assert m.text == rest[..|m.text|] && n.text == rest[..|n.text|];
    }
  }

  lemma SpaceBefore(a: string, y: string, e: string, rest: string, markers: seq<Marker>, read: Reader, m: Marker,
                    l: Located)
    requires GoodMarkers(markers) && m in markers && m.text <= rest
    requires y != "" && AllFigures(y) && forall c | c in e :: IsRun(c)
    requires IsClaim(a + y + (e + rest), markers, read, l) && !(l.marker == m && l.at == |a| + |y| + |e|)
    ensures |a| + |y| <= l.at ==> l.at - |a| - |y| <= |e + rest| && ' ' in (e + rest)[..l.at - |a| - |y|]
  {
    var b, text := e + rest, l.marker.text;
    if |a| + |y| <= l.at {
      var j := l.at - |a| - |y|;
      FiguresAreNotIn(y, text);
      OccursAcross(a, y, b, text, l.at);
      RunHoldsNoMarker(e, rest, text, j);
      MarkerFollows(e, rest, text);
      if text <= rest {
        OneMarkerPerPlace(markers, m, l.marker, rest);
      }
      assert |e| < j;
      assert b[..j][|e|] == rest[0] == m.text[0];
    }
  }

  // ---------- Rewriting one stale figure ----------

  ghost predicate AllRun(s: string) {
    forall c | c in s :: IsRun(c)
  }

  /** The first place the line spells the claim is in the run the claim was read from. */
  ghost predicate Aimed(line: string, l: Located) {
    match Find(line, l.claim.spelled)
    case None => false
    case Some(p) => p + |l.claim.spelled| <= l.at <= |line| && AllRun(line[p + |l.claim.spelled|..l.at])
  }

  lemma ClaimInDigits(read: Reader, prefix: string, m: Marker, c: Claim)
    requires ReadsRuns(read) && read(prefix, m) == Some(c) && InDigits(c.spelled)
    ensures c == Claim(c.value, m.unit, Collected(prefix)) && ParseFigure(c.spelled) == Some(c.value)
    ensures AllFigures(c.spelled)
  {
    assert ReadsRunAt(read, prefix, m);
  }

  lemma ReadsCollected(read: Reader, prefix: string, m: Marker, spelled: string, v: nat)
    requires ReadsRuns(read) && Collected(prefix) == spelled && ParseFigure(spelled) == Some(v)
    ensures read(prefix, m) == Some(Claim(v, m.unit, spelled))
  {
    assert ReadsRunAt(read, prefix, m);
  }

  lemma CollectedAround(a: string, x: string, e: string)
    requires AllFigures(x) && AllRun(e)
    ensures Collected(a + x + e) == Keep(TrailingRun(a), IsFigure) + x + Keep(e, IsFigure)
  {
    var run := TrailingRun(a);
    RunAppend(a, x);
    RunAppend(a + x, e);
    assert TrailingRun(a + x + e) == run + x + e;
    KeepAppend(run + x, e, IsFigure);
    KeepAppend(run, x, IsFigure);
    KeepAll(x, IsFigure);
  }

  /** A run that collects to `x` and holds all of it is emphasis around it: respelled, it collects to `y`. */
  lemma RespelledRun(a: string, x: string, y: string, e: string)
    requires AllFigures(x) && AllFigures(y) && AllRun(e) && Collected(a + x + e) == x
    ensures Collected(a + y + e) == y
  {
    CollectedAround(a, x, e);
    CollectedAround(a, y, e);
    var before, after := Keep(TrailingRun(a), IsFigure), Keep(e, IsFigure);
    assert |before + x + after| == |before| + |x| + |after|;
    assert before == "" && after == "";
    assert "" + y + "" == y;
  }

  lemma CutOffRun(a: string, x: string, y: string, t: string)
    requires !AllRun(t)
    ensures Collected(a + x + t) == Collected(a + y + t)
  {
    var c :| c in t && !IsRun(c);
    var k :| 0 <= k < |t| && t[k] == c;
    RunStops(a + x, t);
    RunStops(a + y, t);
  }

  /** Aimed at its own figure, the rewriting makes every claim of the line right. */
  lemma AimedRepairs(a: string, x: string, e: string, rest: string, y: string, markers: seq<Marker>, read: Reader,
                     actual: Actual, l: Located)
    requires GoodMarkers(markers) && Local(read) && ReadsRuns(read)
    requires IsClaim(a + x + (e + rest), markers, read, l) && InDigits(l.claim.spelled)
    requires l.claim.spelled == x && l.at == |a| + |x| + |e| && AllRun(e)
    requires RightBut(a + x + (e + rest), markers, read, actual, l.marker, l.at)
    requires y != "" && AllFigures(y) && ParseFigure(y) == Some(actual(l.claim.unit))
    ensures LineIsRight(a + y + (e + rest), markers, read, actual)
  {
    var m, at := l.marker, |a| + |y| + |e|;
    var line, line' := a + x + (e + rest), a + y + (e + rest);
    assert line == (a + x + e) + rest && line' == (a + y + e) + rest;
    assert line[..l.at] == a + x + e && line'[..at] == a + y + e;
    ClaimInDigits(read, a + x + e, m, l.claim);
    MarkerFollows(a + x + e, rest, m.text);
    OthersStayRight(a, x, y, e, rest, markers, read, actual, m);
    RespelledRun(a, x, y, e);
    ReadsCollected(read, a + y + e, m, y, actual(l.claim.unit));
    RightThereToo(line', markers, read, actual, m, at, Claim(actual(l.claim.unit), m.unit, y));
  }

  lemma RightThereToo(line: string, markers: seq<Marker>, read: Reader, actual: Actual, m: Marker, at: nat, c: Claim)
    requires RightBut(line, markers, read, actual, m, at) && at <= |line|
    requires read(line[..at], m) == Some(c) && Right(c, actual)
    ensures LineIsRight(line, markers, read, actual)
  {
  }

  /** A stale claim before the place rewritten stays. */
  lemma StaysBefore(a: string, x: string, b: string, y: string, markers: seq<Marker>, read: Reader, l: Located)
    requires GoodMarkers(markers) && IsClaim(a + x + b, markers, read, l) && OccursAt(a, l.marker.text, l.at)
    requires x != "" && y != "" && AllFigures(x) && AllFigures(y)
    ensures IsClaim(a + y + b, markers, read, l)
  {
    var m := l.marker;
    FiguresAreNotIn(y, m.text);
    OccursAcross(a, y, b, m.text, l.at);
    if m.context != "" { ContainsAcross(a, x, y, b, m.context); }
    assert (a + x + b)[..l.at] == a[..l.at] == (a + y + b)[..l.at];
  }

  /** And one after it does, when its run is cut off from that place. */
  lemma StaysAfter(a: string, x: string, t: string, rest: string, y: string, markers: seq<Marker>, read: Reader,
                   l: Located)
    requires GoodMarkers(markers) && ReadsRuns(read) && IsClaim(a + x + (t + rest), markers, read, l)
    requires InDigits(l.claim.spelled) && l.at == |a| + |x| + |t| && l.marker.text <= rest && !AllRun(t)
    requires x != "" && y != "" && AllFigures(x) && AllFigures(y)
    ensures IsClaim(a + y + (t + rest), markers, read, l.(at := |a| + |y| + |t|))
  {
    var m, at := l.marker, |a| + |y| + |t|;
    var line, line' := a + x + (t + rest), a + y + (t + rest);
    if m.context != "" { ContainsAcross(a, x, y, t + rest, m.context); }
    assert line[..l.at] == a + x + t && line'[..at] == a + y + t;
    assert line'[at..at + |m.text|] == rest[..|m.text|];
    SameReading(a, x, y, t, read, m, l.claim);
  }

  lemma SameReading(a: string, x: string, y: string, t: string, read: Reader, m: Marker, c: Claim)
    requires ReadsRuns(read) && !AllRun(t) && read(a + x + t, m) == Some(c) && InDigits(c.spelled)
    ensures read(a + y + t, m) == Some(c)
  {
    CutOffRun(a, x, y, t);
    ClaimInDigits(read, a + x + t, m, c);
    ReadsCollected(read, a + y + t, m, c.spelled, c.value);
  }

  // ---------- Syncing a line ----------

  lemma {:induction false} RightClaimsChangeNothing(line: string, claims: seq<Located>, actual: Actual)
    requires AllRight(claims, actual)
    ensures RewriteAll(line, claims, actual) == line
  {
    if claims != [] {
      RightClaimsChangeNothing(line, claims[1..], actual);
    }
  }

  /** Every claim is right except the `i`th. */
  ghost predicate OnlyStale(claims: seq<Located>, actual: Actual, i: nat) {
    && i < |claims| && !Right(claims[i].claim, actual)
    && forall k | 0 <= k < |claims| && k != i :: Right(claims[k].claim, actual)
  }

  lemma {:induction false} OneRewrite(line: string, claims: seq<Located>, actual: Actual, i: nat)
    requires OnlyStale(claims, actual, i)
    ensures RewriteAll(line, claims, actual) == Rewrite(line, claims[i].claim, actual)
  {
    if i == 0 {
      RightClaimsChangeNothing(Rewrite(line, claims[0].claim, actual), claims[1..], actual);
    } else {
      OneRewrite(line, claims[1..], actual, i - 1);
    }
  }

  lemma ClaimsMeaning(line: string, markers: seq<Marker>, read: Reader, frozen: string, actual: Actual)
    requires Scannable(markers) && !Contains(line, frozen)
    ensures forall l :: l in Claims(line, markers, read, frozen) <==> IsClaim(line, markers, read, l)
    ensures AllRight(Claims(line, markers, read, frozen), actual) <==> LineIsRight(line, markers, read, actual)
  {
    var claims := Claims(line, markers, read, frozen);
    forall l ensures l in claims <==> IsClaim(line, markers, read, l) {
      ClaimsInMeaning(line, markers, read, Found([]), l);
    }
    if AllRight(claims, actual) {
      forall l | IsClaim(line, markers, read, l) ensures Right(l.claim, actual) {
        var k :| 0 <= k < |claims| && claims[k] == l;
      }
    }
    if LineIsRight(line, markers, read, actual) {
      forall k | 0 <= k < |claims| ensures Right(claims[k].claim, actual) {
        assert claims[k] in claims;
      }
    }
  }

  ghost predicate GoodSetting(markers: seq<Marker>, read: Reader, frozen: string) {
    GoodMarkers(markers) && Local(read) && ReadsRuns(read) && frozen != "" && NoFigures(frozen)
  }

  /** A line whose figures are all right is left alone. */
  lemma RightLineIsLeft(line: string, markers: seq<Marker>, read: Reader, frozen: string, actual: Actual)
    requires GoodSetting(markers, read, frozen) && AllRight(Claims(line, markers, read, frozen), actual)
    ensures Synced(line, markers, read, frozen, actual) == line
  {
    RightClaimsChangeNothing(line, Claims(line, markers, read, frozen), actual);
  }

  lemma OthersAreRight(line: string, markers: seq<Marker>, read: Reader, frozen: string, actual: Actual, i: nat)
    requires Scannable(markers) && !Contains(line, frozen)
    requires var claims := Claims(line, markers, read, frozen);
             OnlyStale(claims, actual, i)
    ensures var l := Claims(line, markers, read, frozen)[i];
            IsClaim(line, markers, read, l) && RightBut(line, markers, read, actual, l.marker, l.at)
  {
    var claims := Claims(line, markers, read, frozen);
    ClaimsMeaning(line, markers, read, frozen, actual);
    assert claims[i] in claims;
    forall l | IsClaim(line, markers, read, l) && !(l.marker == claims[i].marker && l.at == claims[i].at)
      ensures Right(l.claim, actual)
    {
      var k :| 0 <= k < |claims| && claims[k] == l;
    }
  }

  lemma ThreePieces(line: string, x: string, p: nat)
    requires Find(line, x) == Some(p)
    ensures p + |x| <= |line| && line == line[..p] + x + line[p + |x|..]
  {
    FindIsLeftmost(line, x);
    Splice(line, x, p);
  }

  lemma Splice(line: string, x: string, p: nat)
    requires OccursAt(line, x, p)
    ensures line == line[..p] + x + line[p + |x|..]
  {
  }

  /** A marker right after the place rewritten, or further on, or before it. */
  lemma MissedStays(a: string, x: string, b: string, y: string, markers: seq<Marker>, read: Reader, l: Located)
    requires GoodMarkers(markers) && ReadsRuns(read) && IsClaim(a + x + b, markers, read, l)
    requires InDigits(l.claim.spelled) && x != "" && y != "" && AllFigures(x) && AllFigures(y)
    requires |a| + |x| <= l.at ==> !AllRun(b[..l.at - |a| - |x|])
    ensures IsClaim(a + y + b, markers, read, if l.at < |a| + |x| then l else l.(at := l.at - |x| + |y|))
  {
    FiguresAreNotIn(x, l.marker.text);
    OccursAcross(a, x, b, l.marker.text, l.at);
    if OccursAt(a, l.marker.text, l.at) {
      StaysBefore(a, x, b, y, markers, read, l);
    } else {
      StaysFurtherOn(a, x, b, y, markers, read, l, l.at - |a| - |x|);
    }
  }

  lemma StaysFurtherOn(a: string, x: string, b: string, y: string, markers: seq<Marker>, read: Reader, l: Located,
                       j: nat)
    requires GoodMarkers(markers) && ReadsRuns(read) && IsClaim(a + x + b, markers, read, l)
    requires InDigits(l.claim.spelled) && x != "" && y != "" && AllFigures(x) && AllFigures(y)
    requires l.at == |a| + |x| + j && OccursAt(b, l.marker.text, j) && !AllRun(b[..j])
    ensures IsClaim(a + y + b, markers, read, l.(at := |a| + |y| + j))
  {
    SplitAtMarker(b, l.marker.text, j);
    StaysAfter(a, x, b[..j], b[j..], y, markers, read, l);
  }

  lemma SplitAtMarker(b: string, text: string, j: int)
    requires OccursAt(b, text, j)
    ensures b == b[..j] + b[j..] && text <= b[j..]
  {
    assert b[j..][..|text|] == b[j..j + |text|];
  }

  /** Whether the line is right after the rewriting. */
  lemma RewrittenIsRightWhenAimed(line: string, markers: seq<Marker>, read: Reader, actual: Actual, l: Located,
                                  p: nat, y: string)
    requires GoodMarkers(markers) && Local(read) && ReadsRuns(read)
    requires IsClaim(line, markers, read, l) && InDigits(l.claim.spelled) && !Right(l.claim, actual)
    requires RightBut(line, markers, read, actual, l.marker, l.at)
    requires Find(line, l.claim.spelled) == Some(p)
    requires y != "" && AllFigures(y) && ParseFigure(y) == Some(actual(l.claim.unit))
    ensures p + |l.claim.spelled| <= |line|
    ensures LineIsRight(line[..p] + y + line[p + |l.claim.spelled|..], markers, read, actual) <==> Aimed(line, l)
  {
    ClaimInDigits(read, line[..l.at], l.marker, l.claim);
    ThreePieces(line, l.claim.spelled, p);
    if Aimed(line, l) {
      AimedLineIsRight(line, markers, read, actual, l, p, y);
    } else {
      MissedLineIsNot(line, markers, read, actual, l, p, y);
    }
  }

  lemma AimedLineIsRight(line: string, markers: seq<Marker>, read: Reader, actual: Actual, l: Located, p: nat,
                         y: string)
    requires GoodMarkers(markers) && Local(read) && ReadsRuns(read)
    requires IsClaim(line, markers, read, l) && InDigits(l.claim.spelled)
    requires RightBut(line, markers, read, actual, l.marker, l.at)
    requires p + |l.claim.spelled| <= l.at && line == line[..p] + l.claim.spelled + line[p + |l.claim.spelled|..]
    requires AllFigures(l.claim.spelled) && AllRun(line[p + |l.claim.spelled|..l.at])
    requires y != "" && AllFigures(y) && ParseFigure(y) == Some(actual(l.claim.unit))
    ensures LineIsRight(line[..p] + y + line[p + |l.claim.spelled|..], markers, read, actual)
  {
    var next := p + |l.claim.spelled|;
    var e, rest := line[next..l.at], line[l.at..];
    assert line[next..] == e + rest;
    AimedRepairs(line[..p], l.claim.spelled, e, rest, y, markers, read, actual, l);
  }

  lemma MissedLineIsNot(line: string, markers: seq<Marker>, read: Reader, actual: Actual, l: Located, p: nat, y: string)
    requires GoodMarkers(markers) && ReadsRuns(read)
    requires IsClaim(line, markers, read, l) && InDigits(l.claim.spelled) && !Right(l.claim, actual)
    requires p + |l.claim.spelled| <= |line| && line == line[..p] + l.claim.spelled + line[p + |l.claim.spelled|..]
    requires AllFigures(l.claim.spelled)
    requires p + |l.claim.spelled| <= l.at ==> !AllRun(line[p + |l.claim.spelled|..l.at])
    requires y != "" && AllFigures(y)
    ensures !LineIsRight(line[..p] + y + line[p + |l.claim.spelled|..], markers, read, actual)
  {
    var next := p + |l.claim.spelled|;
    assert next <= l.at ==> line[next..][..l.at - next] == line[next..l.at];
    MissedStays(line[..p], l.claim.spelled, line[next..], y, markers, read, l);
  }

  /**
   * A line with one stale figure, in digits: after `sync`, `check` accepts the line exactly when
   * the first place that spells the figure is the figure itself. Then only it has changed, and
   * another `sync` changes nothing.
   */
  lemma SyncRepairsExactlyWhenAimed(line: string, markers: seq<Marker>, read: Reader, frozen: string,
                                    actual: Actual, i: nat)
    requires GoodSetting(markers, read, frozen)
    requires var claims := Claims(line, markers, read, frozen);
             && OnlyStale(claims, actual, i) && InDigits(claims[i].claim.spelled)
             && actual(claims[i].claim.unit) <= USIZE_MAX
    ensures var l := Claims(line, markers, read, frozen)[i];
            var synced := Synced(line, markers, read, frozen, actual);
            && (AllRight(Claims(synced, markers, read, frozen), actual) <==> Aimed(line, l))
            && (Aimed(line, l) ==>
                  OnlyRespelled(line, synced, l, actual) && Synced(synced, markers, read, frozen, actual) == synced)
  {
    var claims := Claims(line, markers, read, frozen);
    var l, synced := claims[i], Synced(line, markers, read, frozen, actual);
    var x, y := l.claim.spelled, Respell(l.claim.spelled, actual(l.claim.unit));
    OneRewrite(line, claims, actual, i);
    OthersAreRight(line, markers, read, frozen, actual, i);
    RespellReads(x, actual(l.claim.unit));
    assert synced == ReplaceFirst(line, x, y, 1);
    match Find(line, x) {
      case None =>
      case Some(p) =>
        RewrittenIsRightWhenAimed(line, markers, read, actual, l, p, y);
        ReplacedOnce(line, x, y, p);
        ClaimInDigits(read, line[..l.at], l.marker, l.claim);
        ThreePieces(line, x, p);
        ContainsAcross(line[..p], x, y, line[p + |x|..], frozen);
        ClaimsMeaning(synced, markers, read, frozen, actual);
        if Aimed(line, l) {
          RightLineIsLeft(synced, markers, read, frozen, actual);
        }
    }
  }

  lemma ReplacedOnce(line: string, x: string, y: string, p: nat)
    requires x != "" && Find(line, x) == Some(p)
    ensures ReplaceFirst(line, x, y, 1) == line[..p] + y + line[p + |x|..]
  {
  }

  /** The line with one figure respelled and every other character kept. */
  ghost predicate OnlyRespelled(line: string, synced: string, l: Located, actual: Actual) {
    var x := l.claim.spelled;
    match Find(line, x)
    case None => false
    case Some(p) =>
      p + |x| <= l.at && synced == line[..p] + Respell(x, actual(l.claim.unit)) + line[p + |x|..]
  }

  // ---------- The reader and the markers are what was assumed of them ----------

  function FigureReader(words: seq<(string, nat)>): Reader {
    (prefix, marker) => ReadFigure(prefix, marker, words)
  }

  lemma FigureReaderIsLocal(words: seq<(string, nat)>)
    ensures Local(FigureReader(words))
  {
    forall a, b, t, m ensures ReadFigure(a + " " + t, m, words) == ReadFigure(b + " " + t, m, words) {
      LocalAt(a, b, t, m, words);
    }
  }

  lemma LocalAt(a: string, b: string, t: string, m: Marker, words: seq<(string, nat)>)
    ensures ReadFigure(a + " " + t, m, words) == ReadFigure(b + " " + t, m, words)
  {
    var tail := " " + t;
    assert a + " " + t == a + tail && b + " " + t == b + tail;
    assert tail[0] == ' ' && !IsRun(' ') && IsWhitespace(' ');
    RunStops(a, tail);
    RunStops(b, tail);
    WordStops(a, tail);
    WordStops(b, tail);
  }

  /** Every word of the table starts with a letter. */
  ghost predicate InLetters(words: seq<(string, nat)>) {
    forall k | 0 <= k < |words| :: words[k].0 != "" && 'a' <= words[k].0[0] <= 'z'
  }

  lemma {:induction false} LookUpIsInTable(words: seq<(string, nat)>, word: string)
    requires InLetters(words) && LookUp(words, word).Some?
    ensures word != "" && 'a' <= word[0] <= 'z'
  {
    if words[0].0 != word {
      LookUpIsInTable(words[1..], word);
    }
  }

  lemma LoweredFirst(word: string)
    requires word != ""
    ensures Lowered(word) != "" && Lowered(word)[0] == Lower(word[0])
  {
  }

  lemma WordsAreNotDigits(word: string, words: seq<(string, nat)>)
    requires InLetters(words) && WordNumber(word, words).Some?
    ensures !InDigits(word)
  {
    var lowered := Lowered(word);
    match Find(lowered, "-") {
      case None => LookUpIsInTable(words, lowered);
      case Some(i) => LookUpIsInTable(words, lowered[..i]);
    }
    if word != "" { LoweredFirst(word); }
  }

  lemma FigureReaderReadsRuns(words: seq<(string, nat)>)
    requires InLetters(words)
    ensures ReadsRuns(FigureReader(words))
  {
    forall prefix, m ensures ReadsRunAt(FigureReader(words), prefix, m) {
      RunReadAt(prefix, m, words);
    }
  }

  lemma RunReadAt(prefix: string, m: Marker, words: seq<(string, nat)>)
    requires InLetters(words)
    ensures match ParseFigure(Collected(prefix))
            case Some(v) => ReadFigure(prefix, m, words) == Some(Claim(v, m.unit, Collected(prefix)))
            case None => ReadFigure(prefix, m, words).Some? ==> !InDigits(ReadFigure(prefix, m, words).value.spelled)
  {
    if ParseFigure(Collected(prefix)).None? && m.words {
      var word := TrimWord(LastWord(prefix));
      if WordNumber(word, words).Some? {
        WordsAreNotDigits(word, words);
      }
    }
  }

  const MARKERS: seq<Marker> := [
    Marker(" tests", Tests, false, ""),
    Marker(" specific defects", Mutations, false, ""),
    Marker(" deliberate defects", Mutations, false, ""),
    Marker(" distinct defects", Mutations, false, ""),
    Marker(" sequential", Mutations, false, ""),
    Marker(" runnable examples", Examples, true, ""),
    Marker(" example scripts", Examples, true, ""),
    Marker(" invariants", Checks, true, "check-all")]

  const RECORD_OPENS := "<!-- figures-as-"
  const RECORD_CLOSES := "measured-then -->"
  const AS_MEASURED_THEN := RECORD_OPENS + RECORD_CLOSES

  /** A needle whose second space does not start a border either. */
  lemma TwoSpaces(needle: string, second: nat, k: nat)
    requires 0 < second && second + k < |needle| && needle[0] == ' '
    requires forall i | 0 < i < |needle| && i != second :: needle[i] != ' '
    requires needle[k] != needle[second + k]
    ensures Searches.BorderFree(needle)
  {
    var n := |needle|;
    forall b | 0 < b < n ensures needle[..b] != needle[n - b..] {
      assert needle[..b][0] == ' ' && needle[n - b..][0] == needle[n - b];
      if n - b == second {
        assert needle[..b][k] == needle[k] && needle[n - b..][k] == needle[second + k];
      }
    }
  }

  lemma OneSpace(needle: string)
    requires needle != "" && needle[0] == ' ' && forall i | 0 < i < |needle| :: needle[i] != ' '
    ensures Searches.BorderFree(needle)
  {
    Searches.FirstCharacterOnce(needle);
  }

  ghost predicate GoodText(text: string) {
    |text| >= 3 && text[0] == ' ' && NoFigures(text) && Searches.BorderFree(text)
  }

  lemma OneSpaceIsGood()
    ensures GoodText(" tests") && GoodText(" sequential") && GoodText(" invariants")
  {
    OneSpace(" tests");
    OneSpace(" sequential");
    OneSpace(" invariants");
  }

  lemma SpecificIsGood()
    ensures GoodText(" specific defects")
  {
    TwoSpaces(" specific defects", 9, 1);
  }

  lemma DeliberateIsGood()
    ensures GoodText(" deliberate defects")
  {
    TwoSpaces(" deliberate defects", 11, 3);
  }

  lemma DistinctIsGood()
    ensures GoodText(" distinct defects")
  {
    TwoSpaces(" distinct defects", 9, 2);
  }

  lemma ExamplesAreGood()
    ensures GoodText(" runnable examples") && GoodText(" example scripts")
  {
    TwoSpaces(" runnable examples", 9, 1);
    TwoSpaces(" example scripts", 8, 1);
  }

  /** The two characters after the space tell the markers apart. */
  function Initials(text: string): (char, char) {
    if |text| >= 3 then (text[1], text[2]) else (' ', ' ')
  }

  lemma PrefixesShareInitials(a: string, b: string)
    requires |a| >= 3 && a <= b
    ensures |b| >= 3 && Initials(a) == Initials(b)
  {
  }

  ghost predicate GoodMarker(m: Marker) {
    GoodText(m.text) && NoFigures(m.context)
  }

  lemma EachMarkerIsGood()
    ensures forall k | 0 <= k < |MARKERS| :: GoodMarker(MARKERS[k])
  {
    OneSpaceIsGood();
    SpecificIsGood();
    DeliberateIsGood();
    DistinctIsGood();
    ExamplesAreGood();
  }

  lemma InitialsDiffer()
    requires forall k | 0 <= k < |MARKERS| :: GoodMarker(MARKERS[k])
    ensures forall k, j | 0 <= k < j < |MARKERS| :: Initials(MARKERS[k].text) != Initials(MARKERS[j].text)
  {
    assert Initials(MARKERS[0].text) == ('t', 'e');
    assert Initials(MARKERS[1].text) == ('s', 'p');
    assert Initials(MARKERS[2].text) == ('d', 'e');
    assert Initials(MARKERS[3].text) == ('d', 'i');
    assert Initials(MARKERS[4].text) == ('s', 'e');
    assert Initials(MARKERS[5].text) == ('r', 'u');
    assert Initials(MARKERS[6].text) == ('e', 'x');
    assert Initials(MARKERS[7].text) == ('i', 'n');
  }

  lemma DistinctInitialsSuffice(markers: seq<Marker>)
    requires forall k | 0 <= k < |markers| :: GoodMarker(markers[k])
    requires forall k, j | 0 <= k < j < |markers| :: Initials(markers[k].text) != Initials(markers[j].text)
    ensures GoodMarkers(markers)
  {
    forall m | m in markers ensures GoodMarker(m) {
      var k :| 0 <= k < |markers| && markers[k] == m;
    }
    forall m, n | m in markers && n in markers && m.text <= n.text ensures m == n {
      PrefixesShareInitials(m.text, n.text);
      var k :| 0 <= k < |markers| && markers[k] == m;
      var j :| 0 <= j < |markers| && markers[j] == n;
    }
  }

  lemma RecordOpensGood()
    ensures RECORD_OPENS != "" && NoFigures(RECORD_OPENS)
  {
  }

  lemma RecordClosesGood()
    ensures NoFigures(RECORD_CLOSES)
  {
  }

  lemma NoFiguresInBoth(a: string, b: string)
    requires NoFigures(a) && NoFigures(b)
    ensures NoFigures(a + b)
  {
  }

  lemma FrozenMarkHasNoFigures()
    ensures AS_MEASURED_THEN != "" && NoFigures(AS_MEASURED_THEN)
  {
    RecordOpensGood();
    RecordClosesGood();
    NoFiguresInBoth(RECORD_OPENS, RECORD_CLOSES);
  }

  /** So the theorem holds of the markers and the reader the tool uses. */
  lemma ToolSettingIsGood(words: seq<(string, nat)>)
    requires InLetters(words)
    ensures GoodSetting(MARKERS, FigureReader(words), AS_MEASURED_THEN)
  {
    EachMarkerIsGood();
    InitialsDiffer();
    DistinctInitialsSuffice(MARKERS);
    FrozenMarkHasNoFigures();
    FigureReaderIsLocal(words);
    FigureReaderReadsRuns(words);
  }

  lemma WordsAreInLetters()
    ensures InLetters(WORDS)
  {
  }
}
