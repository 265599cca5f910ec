/** Checking and rewriting the figures of a whole document, line by line. */
module Documents {
  import opened Text
  import opened Figures
  import opened Replacement
  import opened DocNumbers
  import opened Turns
  import opened Aiming
  import opened Patching

  /** What to look for, how to read it, and what marks a line as a record. */
  datatype Setting = Setting(markers: seq<Marker>, read: Reader, frozen: string)

  ghost predicate OneLiner(s: string) {
    '\r' !in s && '\n' !in s
  }

  /** The markers are what the line theorem asks, and none runs over the end of a line. */
  ghost predicate Good(given: Setting) {
    && GoodSetting(given.markers, given.read, given.frozen) && OneLiner(given.frozen)
    && DistinctMarkers(given.markers)
    && forall m | m in given.markers :: OneLiner(m.text) && OneLiner(m.context)
  }

  predicate Usable(given: Setting) {
    forall m | m in given.markers :: m.text != ""
  }

  function ClaimsOf(line: string, given: Setting): seq<Located>
    requires Usable(given)
  {
    Claims(line, given.markers, given.read, given.frozen)
  }

  function SyncedLine(line: string, given: Setting, actual: Actual): string
    requires Usable(given)
  {
    Synced(line, given.markers, given.read, given.frozen, actual)
  }

  predicate LineRight(line: string, given: Setting, actual: Actual)
    requires Usable(given)
  {
    AllRight(ClaimsOf(line, given), actual)
  }

  predicate LineFresh(line: string, given: Setting, actual: Actual)
    requires Usable(given)
  {
    NoneStale(ClaimsOf(line, given), actual)
  }

  /** Every claimed figure of the document is the actual one. */
  predicate DocumentRight(text: string, given: Setting, actual: Actual)
    requires Usable(given)
  {
    forall line | line in Lines(text) :: LineRight(line, given, actual)
  }

  /** No line has a figure to respell. */
  predicate DocumentFresh(text: string, given: Setting, actual: Actual)
    requires Usable(given)
  {
    forall line | line in Lines(text) :: LineFresh(line, given, actual)
  }

  /** `check` on one document. */
  method CheckDocument(text: string, given: Setting, actual: Actual) returns (ok: bool)
    requires Usable(given)
    ensures ok <==> DocumentRight(text, given, actual)
  {
    var lines := Lines(text);
    ok := true;
    for k := 0 to |lines|
      invariant ok <==> forall j | 0 <= j < k :: LineRight(lines[j], given, actual)
    {
      var fine := CheckLine(lines[k], given.markers, given.read, given.frozen, actual);
      if !fine {
        ok := false;
      }
    }
  }

  /** Lines as `sync` writes them: each with a newline, the last one too. */
  function Printed(lines: seq<string>): string {
    if lines == [] then "" else lines[0] + "\n" + Printed(lines[1..])
  }

  function SyncedLines(lines: seq<string>, given: Setting, actual: Actual): (synced: seq<string>)
    requires Usable(given)
    ensures |synced| == |lines| && forall k | 0 <= k < |lines| :: synced[k] == SyncedLine(lines[k], given, actual)
  {
    seq(|lines|, k requires 0 <= k < |lines| => SyncedLine(lines[k], given, actual))
  }

  /** What `sync` leaves in the file. */
  function After(text: string, given: Setting, actual: Actual): string
    requires Usable(given)
  {
    if DocumentFresh(text, given, actual) then text else Printed(SyncedLines(Lines(text), given, actual))
  }

  lemma {:induction false} PrintedAppend(lines: seq<string>, line: string)
    ensures Printed(lines + [line]) == Printed(lines) + line + "\n"
  {
    if lines == [] {
      assert lines + [line] == [line] && [line][1..] == [];
    } else {
      PrintedAppend(lines[1..], line);
      assert (lines + [line])[1..] == lines[1..] + [line];
    }
  }

  lemma PrintedNext(lines: seq<string>, k: nat)
    requires k < |lines|
    ensures Printed(lines[..k + 1]) == Printed(lines[..k]) + lines[k] + "\n"
  {
    PrintedAppend(lines[..k], lines[k]);
    assert lines[..k + 1] == lines[..k] + [lines[k]];
  }

  /** None of the first `k` lines has a figure to respell. */
  ghost predicate FreshBefore(lines: seq<string>, k: nat, given: Setting, actual: Actual)
    requires Usable(given) && k <= |lines|
  {
    k == 0 || (FreshBefore(lines, k - 1, given, actual) && LineFresh(lines[k - 1], given, actual))
  }

  lemma {:induction false} FreshBeforeAll(lines: seq<string>, k: nat, given: Setting, actual: Actual)
    requires Usable(given) && k <= |lines|
    ensures FreshBefore(lines, k, given, actual) <==> forall j | 0 <= j < k :: LineFresh(lines[j], given, actual)
  {
    if k > 0 { FreshBeforeAll(lines, k - 1, given, actual); }
  }

  lemma AllFresh(text: string, given: Setting, actual: Actual)
    requires Usable(given)
    ensures FreshBefore(Lines(text), |Lines(text)|, given, actual) <==> DocumentFresh(text, given, actual)
  {
    FreshBeforeAll(Lines(text), |Lines(text)|, given, actual);
  }

  /** `sync` on one document: the file is written only when some figure was respelled. */
  method SyncDocument(text: string, given: Setting, actual: Actual) returns (after: string, touched: nat)
    requires Usable(given)
    ensures after == After(text, given, actual)
    ensures touched == 0 <==> DocumentFresh(text, given, actual)
  {
    var lines := Lines(text);
    ghost var synced := SyncedLines(lines, given, actual);
    var out := "";
    touched := 0;
    for k := 0 to |lines|
      invariant out == Printed(synced[..k])
      invariant touched == 0 <==> FreshBefore(lines, k, given, actual)
    {
      var line, more := SyncLine(lines[k], given.markers, given.read, given.frozen, actual);
      PrintedNext(synced, k);
      out := out + line + "\n";
      touched := touched + more;
    }
    assert synced[..|lines|] == synced;
    AllFresh(text, given, actual);
    after := if touched > 0 then out else text;
  }

  // ---------- What was printed is read back ----------

  lemma FirstNewline(first: string, rest: string)
    requires '\n' !in first
    ensures Find(first + "\n" + rest, "\n") == Some(|first|)
  {
    var all := first + "\n" + rest;
    FindIsLeftmost(all, "\n");
    assert all[|first|..|first| + 1] == "\n";
    assert OccursAt(all, "\n", |first|);
    forall i | 0 <= i < |first| ensures !OccursAt(all, "\n", i) {
      assert all[i..i + 1] == [first[i]] && first[i] in first;
    }
  }

  lemma {:induction false} LinesOfPrinted(lines: seq<string>)
    requires forall line | line in lines :: '\n' !in line
    ensures |Lines(Printed(lines))| == |lines|
    ensures forall k | 0 <= k < |lines| :: Lines(Printed(lines))[k] == WithoutCarriageReturn(lines[k])
  {
    if lines != [] {
      var first, rest := lines[0], Printed(lines[1..]);
      var all := first + "\n" + rest;
      assert first in lines;
      FirstNewline(first, rest);
      assert all[..|first|] == first && all[|first| + 1..] == rest;
      LinesOfPrinted(lines[1..]);
    }
  }

  // ---------- A carriage return at the end of a line claims nothing ----------

  lemma ContainsBeforeReturn(line: string, needle: string)
    requires needle != "" && '\r' !in needle
    ensures Contains(line + "\r", needle) <==> Contains(line, needle)
  {
    FindAcross(line, "\r", "", needle);
    assert line + "\r" + "" == line + "\r";
  }

  lemma OccursBeforeReturn(line: string, needle: string, at: int)
    requires needle != "" && '\r' !in needle
    ensures OccursAt(line + "\r", needle, at) <==> OccursAt(line, needle, at)
  {
    var all := line + "\r";
    var end := at + |needle|;
    if 0 <= at && end <= |line| {
      assert all[at..end] == line[at..end];
    } else if 0 <= at <= |line| && end == |all| {
      assert all[at..end][|line| - at] == '\r';
    }
  }

  lemma ClaimBeforeReturn(line: string, given: Setting, l: Located)
    requires Good(given)
    ensures IsClaim(line + "\r", given.markers, given.read, l) <==> IsClaim(line, given.markers, given.read, l)
  {
    var m := l.marker;
    if m in given.markers {
      OccursBeforeReturn(line, m.text, l.at);
      if m.context != "" { ContainsBeforeReturn(line, m.context); }
      if l.at <= |line| {
        assert (line + "\r")[..l.at] == line[..l.at];
      }
    }
  }

  lemma RightBeforeReturn(line: string, given: Setting, actual: Actual)
    requires Good(given)
    ensures LineRight(WithoutCarriageReturn(line), given, actual) <==> LineRight(line, given, actual)
  {
    var bare := WithoutCarriageReturn(line);
    if bare != line {
      assert line == bare + "\r";
      ContainsBeforeReturn(bare, given.frozen);
      if !Contains(bare, given.frozen) {
        ClaimsMeaning(line, given.markers, given.read, given.frozen, actual);
        ClaimsMeaning(bare, given.markers, given.read, given.frozen, actual);
        forall l ensures IsClaim(line, given.markers, given.read, l) <==> IsClaim(bare, given.markers, given.read, l) {
          ClaimBeforeReturn(bare, given, l);
        }
      }
    }
  }

  // ---------- The document after a pass ----------

  /** No more than one figure of the line is one `sync` respells, whatever else on it is wrong. */
  ghost predicate OneStaleAtMost(line: string, given: Setting, actual: Actual)
    requires Usable(given)
  {
    var claims := ClaimsOf(line, given);
    forall i, j | 0 <= i < j < |claims| :: !(Stale(claims[i].claim, actual) && Stale(claims[j].claim, actual))
  }

  /** Every stale figure is clear of the ones `sync` respells before it. */
  ghost predicate LineClear(line: string, given: Setting, actual: Actual)
    requires Usable(given)
  {
    AllClear(line, ClaimsOf(line, given), actual)
  }

  ghost predicate WrongInDigits(line: string, given: Setting, actual: Actual)
    requires Usable(given)
  {
    forall l | l in ClaimsOf(line, given) && !Right(l.claim, actual) :: InDigits(l.claim.spelled)
  }

  /** Every wrong figure is in digits, and clear. */
  ghost predicate Repairable(line: string, given: Setting, actual: Actual)
    requires Usable(given)
  {
    WrongInDigits(line, given, actual) && LineClear(line, given, actual)
  }

  lemma RewriteHasNoNewline(line: string, claim: Claim, actual: Actual)
    requires '\n' !in line && InRange(actual)
    ensures '\n' !in Rewrite(line, claim, actual)
  {
    if Stale(claim, actual) && Find(line, claim.spelled).Some? {
      var p := Find(line, claim.spelled).value;
      ReplacedOnce(line, claim.spelled, Respell(claim.spelled, actual(claim.unit)), p);
      RespellReads(claim.spelled, actual(claim.unit));
    }
  }

  lemma {:induction false} RewritesHaveNoNewline(line: string, claims: seq<Located>, actual: Actual)
    requires '\n' !in line && InRange(actual)
    ensures '\n' !in RewriteAll(line, claims, actual)
    decreases |claims|
  {
    if claims != [] {
      RewriteHasNoNewline(line, claims[0].claim, actual);
      RewritesHaveNoNewline(Rewrite(line, claims[0].claim, actual), claims[1..], actual);
    }
  }

  lemma ClearLineIsRightWhen(line: string, given: Setting, actual: Actual)
    requires Good(given) && InRange(actual) && LineClear(line, given, actual)
    ensures LineRight(SyncedLine(line, given, actual), given, actual) <==> Repairable(line, given, actual)
  {
    SyncPatches(line, given.markers, given.read, given.frozen, actual);
    SyncRepairsInTurn(line, given.markers, given.read, given.frozen, actual);
  }

  lemma NoneStaleHinders(line: string, earlier: seq<Located>, l: Located, actual: Actual)
    requires l.at <= |line| && forall k | k in earlier :: !Stale(k.claim, actual)
    ensures Clear(line, earlier, l, actual) <==> Clear(line, [], l, actual)
  {
    forall q, end ensures Covered(line, earlier, actual, q, end) <==> Covered(line, [], actual, q, end) {}
    assert Unspelled(earlier, l, actual) && Unspelled([], l, actual);
  }

  /** A line whose stale figures are not clear has one; if it is the only one, it is not aimed at. */
  lemma OneUnclear(line: string, given: Setting, actual: Actual) returns (i: nat)
    requires Good(given) && OneStaleAtMost(line, given, actual) && !LineClear(line, given, actual)
    ensures i < |ClaimsOf(line, given)| && Stale(ClaimsOf(line, given)[i].claim, actual)
    ensures !Contains(line, given.frozen) && !Aimed(line, ClaimsOf(line, given)[i])
  {
    var claims := ClaimsOf(line, given);
    i :| 0 <= i < |claims| && !ClearAt(line, claims, actual, i);
    var l := claims[i];
    ClaimsMeaning(line, given.markers, given.read, given.frozen, actual);
    assert l in claims;
    if l.at <= |line| {
      NoneStaleHinders(line, claims[..i], l, actual);
      FirstIsClear(line, given.markers, given.read, actual, l);
    }
  }

  lemma {:induction false} OnlyTurn(line: string, claims: seq<Located>, actual: Actual, i: nat)
    requires i < |claims| && forall k | 0 <= k < |claims| && k != i :: !Stale(claims[k].claim, actual)
    ensures RewriteAll(line, claims, actual) == Rewrite(line, claims[i].claim, actual)
  {
    if i == 0 {
      FreshLineIsLeft(Rewrite(line, claims[0].claim, actual), claims[1..], actual);
    } else {
      assert Rewrite(line, claims[0].claim, actual) == line;
      OnlyTurn(line, claims[1..], actual, i - 1);
    }
  }

  /** Its turn misses, so it is still wrong, and so is the line. */
  lemma UnclearLineStaysWrong(line: string, given: Setting, actual: Actual)
    requires Good(given) && InRange(actual)
    requires OneStaleAtMost(line, given, actual) && !LineClear(line, given, actual)
    ensures !LineRight(SyncedLine(line, given, actual), given, actual)
  {
    var claims, synced := ClaimsOf(line, given), SyncedLine(line, given, actual);
    var i := OneUnclear(line, given, actual);
    var l := claims[i];
    assert l in claims;
    ClaimsMeaning(line, given.markers, given.read, given.frozen, actual);
    OnlyTurn(line, claims, actual, i);
    MissedTurn(line, l, given.markers, given.read, actual);
    StillNotFrozen(line, l, given, actual);
    ClaimsMeaning(synced, given.markers, given.read, given.frozen, actual);
    assert !Right(AfterTurn(line, l, actual).claim, actual);
  }

  lemma StillNotFrozen(line: string, l: Located, given: Setting, actual: Actual)
    requires Good(given) && InRange(actual) && IsClaim(line, given.markers, given.read, l) && Stale(l.claim, actual)
    requires !Contains(line, given.frozen)
    ensures !Contains(Rewrite(line, l.claim, actual), given.frozen)
  {
    var x, y := l.claim.spelled, RespelledClaim(l, actual);
    StaleIsFigures(line, l, given.markers, given.read, actual);
    match Find(line, x)
    case None =>
    case Some(p) =>
      ThreePieces(line, x, p);
      ReplacedOnce(line, x, y, p);
      ContainsAcross(line[..p], x, y, line[p + |x|..], given.frozen);
  }

  lemma RightIsFresh(line: string, given: Setting, actual: Actual)
    requires Usable(given) && LineRight(line, given, actual)
    ensures LineFresh(line, given, actual)
  {
  }

  lemma LineIsRightWhen(line: string, given: Setting, actual: Actual)
    requires Good(given) && InRange(actual) && (OneStaleAtMost(line, given, actual) || LineClear(line, given, actual))
    ensures LineRight(SyncedLine(line, given, actual), given, actual) <==> Repairable(line, given, actual)
  {
    if LineClear(line, given, actual) {
      ClearLineIsRightWhen(line, given, actual);
    } else {
      UnclearLineStaysWrong(line, given, actual);
    }
  }

  lemma PrintedIsRightWhen(lines: seq<string>, given: Setting, actual: Actual)
    requires Good(given) && InRange(actual)
    requires forall line | line in lines ::
               '\n' !in line && (OneStaleAtMost(line, given, actual) || LineClear(line, given, actual))
    ensures DocumentRight(Printed(SyncedLines(lines, given, actual)), given, actual)
            <==> forall line | line in lines :: Repairable(line, given, actual)
  {
    var synced := SyncedLines(lines, given, actual);
    forall k | 0 <= k < |lines|
      ensures '\n' !in synced[k]
      ensures LineRight(WithoutCarriageReturn(synced[k]), given, actual) <==> Repairable(lines[k], given, actual)
    {
      assert lines[k] in lines;
      LineIsRightWhen(lines[k], given, actual);
      RewritesHaveNoNewline(lines[k], ClaimsOf(lines[k], given), actual);
      RightBeforeReturn(synced[k], given, actual);
    }
    LinesOfPrinted(synced);
    var read := Lines(Printed(synced));
    forall k | 0 <= k < |lines| ensures LineRight(read[k], given, actual) <==> Repairable(lines[k], given, actual) {}
    assert (forall line | line in read :: LineRight(line, given, actual))
           <==> (forall k | 0 <= k < |read| :: LineRight(read[k], given, actual));
  }

  lemma FreshIsLeft(line: string, given: Setting, actual: Actual)
    requires Usable(given) && LineFresh(line, given, actual)
    ensures SyncedLine(line, given, actual) == line
  {
    FreshLineIsLeft(line, ClaimsOf(line, given), actual);
  }

  /**
   * A document each of whose lines has one stale figure at most, or stale figures that are all clear:
   * after `sync`, `check` passes exactly when every line was repairable; and a document that `check`
   * passes is one the next `sync` does not write.
   */
  lemma SyncThenCheck(text: string, given: Setting, actual: Actual)
    requires Good(given) && InRange(actual)
    requires forall line | line in Lines(text) :: OneStaleAtMost(line, given, actual) || LineClear(line, given, actual)
    ensures DocumentRight(After(text, given, actual), given, actual)
            <==> forall line | line in Lines(text) :: Repairable(line, given, actual)
    ensures DocumentRight(After(text, given, actual), given, actual)
            ==> After(After(text, given, actual), given, actual) == After(text, given, actual)
  {
    var after := After(text, given, actual);
    LinesHaveNoNewline(text);
    if DocumentFresh(text, given, actual) {
      forall line | line in Lines(text) ensures LineRight(line, given, actual) <==> Repairable(line, given, actual) {
        LineIsRightWhen(line, given, actual);
        FreshIsLeft(line, given, actual);
      }
    } else {
      PrintedIsRightWhen(Lines(text), given, actual);
    }
    if DocumentRight(after, given, actual) {
      forall line | line in Lines(after) ensures LineFresh(line, given, actual) {
        RightIsFresh(line, given, actual);
      }
    }
  }

  /** So a document whose lines are all repairable passes, however many figures of it are stale. */
  lemma SyncRepairs(text: string, given: Setting, actual: Actual)
    requires Good(given) && InRange(actual)
    requires forall line | line in Lines(text) :: Repairable(line, given, actual)
    ensures DocumentRight(After(text, given, actual), given, actual)
    ensures After(After(text, given, actual), given, actual) == After(text, given, actual)
  {
    SyncThenCheck(text, given, actual);
  }

  // ---------- The text between the figures ----------

  lemma EndsOfLines(line: string, rest: string)
    requires '\n' !in line
    ensures Contains(line + "\n" + rest, "\r\n") <==> (line != "" && line[|line| - 1] == '\r') || Contains(rest, "\r\n")
  {
    var text := line + "\n" + rest;
    FindIsLeftmost(text, "\r\n");
    FindIsLeftmost(rest, "\r\n");
    forall q ensures OccursAt(text, "\r\n", q)
                     <==> (q == |line| - 1 && line != "" && line[q] == '\r') || OccursAt(rest, "\r\n", q - |line| - 1)
    {
      ReturnAt(line, rest, q);
    }
    if Contains(rest, "\r\n") {
      assert OccursAt(text, "\r\n", Find(rest, "\r\n").value + |line| + 1);
    }
  }

  lemma ReturnAt(line: string, rest: string, q: int)
    requires '\n' !in line
    ensures OccursAt(line + "\n" + rest, "\r\n", q)
            <==> (q == |line| - 1 && line != "" && line[q] == '\r') || OccursAt(rest, "\r\n", q - |line| - 1)
  {
    var text := line + "\n" + rest;
    if 0 <= q && q + 2 <= |text| {
      assert text[q..q + 2] == [text[q], text[q + 1]];
      if q + 1 < |line| {
        assert line[q + 1] in line;
      } else if |line| < q {
        assert rest[q - |line| - 1..q - |line| + 1] == text[q..q + 2];
      }
    }
  }

  /** Reading a text's lines and writing them back is no change just when all lines end in bare newlines. */
  lemma {:induction false} PrintedBack(text: string)
    ensures Printed(Lines(text)) == text
            <==> !Contains(text, "\r\n") && (text == "" || text[|text| - 1] == '\n')
    decreases |text|
  {
    if text != "" {
      FindIsLeftmost(text, "\n");
      match Find(text, "\n")
      case None => LastLinePrinted(text);
      case Some(i) =>
        var line, rest := text[..i], text[i + 1..];
        AbsentBefore(text, '\n', i);
        assert text[i..i + 1] == "\n" && text == line + "\n" + rest;
        EndsOfLines(line, rest);
        PrintedBack(rest);
        FirstLinePrinted(line, rest);
    }
  }

  lemma NoNewlineAtEnd(text: string)
    requires text != "" && Find(text, "\n") == None
    ensures text[|text| - 1] != '\n'
  {
    var last := |text| - 1;
    FindIsLeftmost(text, "\n");
    assert !OccursAt(text, "\n", last) && text[last..last + 1] == [text[last]];
  }

  lemma LastLinePrinted(text: string)
    requires text != "" && Find(text, "\n") == None
    ensures Printed(Lines(text)) != text && text[|text| - 1] != '\n'
  {
    NoNewlineAtEnd(text);
    PrintedAppend([], text);
    assert Lines(text) == [text] && [] + [text] == [text];
    assert |Printed([text])| == |text| + 1;
  }

  lemma FirstLinePrinted(line: string, rest: string)
    requires '\n' !in line
    ensures var text := line + "\n" + rest;
            Printed(Lines(text)) == text
            <==> (line == "" || line[|line| - 1] != '\r') && Printed(Lines(rest)) == rest
  {
    var text, bare := line + "\n" + rest, WithoutCarriageReturn(line);
    FirstNewline(line, rest);
    assert text[..|line|] == line && text[|line| + 1..] == rest;
    assert Lines(text) == [bare] + Lines(rest);
    assert Printed(Lines(text)) == bare + "\n" + Printed(Lines(rest));
    if bare != line {
      assert text[|bare|] == '\r';
      assert (bare + "\n" + Printed(Lines(rest)))[|bare|] == '\n';
    } else {
      assert (bare + "\n" + Printed(Lines(rest)))[|line| + 1..] == Printed(Lines(rest));
    }
  }

  function PatchedLines(lines: seq<string>, given: Setting, actual: Actual): (patched: seq<string>)
    requires Usable(given)
    ensures |patched| == |lines|
    ensures forall k | 0 <= k < |lines| :: patched[k] == Patched(lines[k], ClaimsOf(lines[k], given), actual, 0)
  {
    seq(|lines|, k requires 0 <= k < |lines| => Patched(lines[k], ClaimsOf(lines[k], given), actual, 0))
  }

  /** Where all stale figures are clear, what is written is the lines with those figures respelled in place. */
  lemma AfterIsPatched(text: string, given: Setting, actual: Actual)
    requires Good(given) && InRange(actual) && !DocumentFresh(text, given, actual)
    requires forall line | line in Lines(text) :: LineClear(line, given, actual)
    ensures After(text, given, actual) == Printed(PatchedLines(Lines(text), given, actual))
  {
    var lines := Lines(text);
    var synced, patched := SyncedLines(lines, given, actual), PatchedLines(lines, given, actual);
    forall k | 0 <= k < |lines| ensures synced[k] == patched[k] {
      assert lines[k] in lines;
      SyncPatches(lines[k], given.markers, given.read, given.frozen, actual);
    }
    assert synced == patched;
  }

  // ---------- The tool's own setting ----------

  lemma ShortMarkersAreOneLiners()
    ensures OneLiner(" tests") && OneLiner(" sequential") && OneLiner(" invariants") && OneLiner("check-all")
  {
  }

  lemma DefectsAreOneLiners()
    ensures OneLiner(" specific defects") && OneLiner(" deliberate defects") && OneLiner(" distinct defects")
  {
  }

  lemma ExamplesAreOneLiners()
    ensures OneLiner(" runnable examples") && OneLiner(" example scripts")
  {
  }

  lemma MarkersAreOneLiners()
    ensures forall k | 0 <= k < |MARKERS| :: OneLiner(MARKERS[k].text) && OneLiner(MARKERS[k].context)
  {
    ShortMarkersAreOneLiners();
    DefectsAreOneLiners();
    ExamplesAreOneLiners();
  }

  lemma MarkersAreDistinct()
    ensures DistinctMarkers(MARKERS)
  {
    EachMarkerIsGood();
    InitialsDiffer();
    DistinctByInitials(MARKERS);
  }

  lemma DistinctByInitials(markers: seq<Marker>)
    requires forall k, j | 0 <= k < j < |markers| :: Initials(markers[k].text) != Initials(markers[j].text)
    ensures DistinctMarkers(markers)
  {
  }

  lemma RecordOpensOneLiner()
    ensures OneLiner(RECORD_OPENS)
  {
  }

  lemma RecordClosesOneLiner()
    ensures OneLiner(RECORD_CLOSES)
  {
  }

  lemma FrozenMarkIsOneLiner()
    ensures OneLiner(AS_MEASURED_THEN)
  {
    RecordOpensOneLiner();
    RecordClosesOneLiner();
  }

  lemma GoodWhen(given: Setting)
    requires GoodSetting(given.markers, given.read, given.frozen) && OneLiner(given.frozen)
    requires DistinctMarkers(given.markers)
    requires forall k | 0 <= k < |given.markers| ::
               OneLiner(given.markers[k].text) && OneLiner(given.markers[k].context)
    ensures Good(given)
  {
  }

  /** The tool's own markers and words are such a setting, so the theorem is about the tool. */
  lemma ToolIsGood()
    ensures Good(Setting(MARKERS, FigureReader(WORDS), AS_MEASURED_THEN))
  {
    WordsAreInLetters();
    ToolSettingIsGood(WORDS);
    MarkersAreOneLiners();
    MarkersAreDistinct();
    FrozenMarkIsOneLiner();
    GoodWhen(Setting(MARKERS, FigureReader(WORDS), AS_MEASURED_THEN));
  }
}
