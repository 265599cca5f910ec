/** `check-objectives`: every objective stated is in the table that reports on it, and the reverse. */
module Objectives {
  import opened Text
  import Searches

  const NEEDLE := "NFR-PERF-"
  const U32_MAX := 0xFFFF_FFFF

  predicate IsTick(c: char) { c == '`' }
  predicate IsDash(c: char) { c == '\U{2013}' || c == '\U{2014}' || c == '-' }

  /** What stands for the upper end of a range: the digits after ticks, dashes and ticks. */
  function UpperDigits(tail: string): string {
    TakeWhile(DropWhile(DropWhile(DropWhile(tail, IsTick), IsDash), IsTick), IsDigit)
  }

  /** What follows an occurrence of the needle: no number, one, or a number and the end of a range. */
  datatype Reading = Nothing | One(number: nat) | Through(number: nat, upper: nat)

  function Read(after: string): Reading {
    ReadNumbers(Parse(TakeWhile(after, IsDigit), U32_MAX), Parse(UpperDigits(DropWhile(after, IsDigit)), U32_MAX))
  }

  /** A range is read where it climbs, and by less than 32. */
  function ReadNumbers(first: Option<nat>, last: Option<nat>): Reading {
    match first
    case None => Nothing
    case Some(number) =>
      match last
      case None => One(number)
      case Some(upper) => if upper > number && upper - number < 32 then Through(number, upper) else One(number)
  }

  predicate Names(reading: Reading, n: nat) {
    match reading
    case Nothing => false
    case One(number) => n == number
    case Through(number, upper) => n == number || number <= n <= upper
  }

  /** The objective is named after the first occurrence of the needle, or in what follows that. */
  predicate NamedIn(text: string, needle: string, read: string -> Reading, n: nat)
    requires needle != ""
    decreases |text|
  {
    match Find(text, needle)
    case None => false
    case Some(at) =>
      var after := text[at + |needle|..];
      Names(read(after), n) || NamedIn(after, needle, read, n)
  }

  /** Some occurrence of the needle names the objective. */
  ghost predicate NamedSomewhere(text: string, needle: string, read: string -> Reading, n: nat) {
    exists at: nat :: NamedAt(text, needle, read, n, at)
  }

  /** What the first occurrence leaves to be read holds every further one, where the needle cannot overlap itself. */
  lemma OccursLater(text: string, needle: string, at: nat, q: int)
    requires Searches.BorderFree(needle) && Find(text, needle) == Some(at)
    ensures OccursAt(text, needle, q)
            <==> q == at || (at + |needle| <= q && OccursAt(text[at + |needle|..], needle, q - at - |needle|))
  {
    FindIsLeftmost(text, needle);
    if at + |needle| <= q {
      OccursInSuffix(text, needle, at + |needle|, q);
    }
    if at < q && OccursAt(text, needle, q) {
      Searches.NoOverlap(text, needle, at, q);
    }
  }

  ghost predicate NamedAt(text: string, needle: string, read: string -> Reading, n: nat, q: nat) {
    OccursAt(text, needle, q) && Names(read(text[q + |needle|..]), n)
  }

  lemma NamedLater(text: string, needle: string, read: string -> Reading, n: nat, at: nat, r: nat)
    requires at + |needle| <= |text|
    ensures NamedAt(text[at + |needle|..], needle, read, n, r) <==> NamedAt(text, needle, read, n, at + |needle| + r)
  {
    var after := text[at + |needle|..];
    OccursInSuffix(text, needle, at + |needle|, at + |needle| + r);
    if OccursAt(after, needle, r) {
      assert after[r + |needle|..] == text[at + |needle| + r + |needle|..];
    }
  }

  /** Reading on after each occurrence misses none. */
  lemma {:induction false} NamedIsNamedSomewhere(text: string, needle: string, read: string -> Reading, n: nat)
    requires needle != "" && Searches.BorderFree(needle)
    ensures NamedIn(text, needle, read, n) <==> NamedSomewhere(text, needle, read, n)
    decreases |text|
  {
    FindIsLeftmost(text, needle);
    match Find(text, needle)
    case None =>
    case Some(at) =>
      var after := text[at + |needle|..];
      NamedIsNamedSomewhere(after, needle, read, n);
      SomewhereSplits(text, needle, read, n, at);
      NamedStep(text, needle, read, n, at, after);
  }

  lemma SomewhereSplits(text: string, needle: string, read: string -> Reading, n: nat, at: nat)
    requires Searches.BorderFree(needle) && Find(text, needle) == Some(at)
    ensures var after := text[at + |needle|..];
            NamedSomewhere(text, needle, read, n) <==> Names(read(after), n) || NamedSomewhere(after, needle, read, n)
  {
    var after := text[at + |needle|..];
    FindIsLeftmost(text, needle);
    if NamedSomewhere(text, needle, read, n) {
      var q: nat :| NamedAt(text, needle, read, n, q);
      OccursLater(text, needle, at, q);
      if q != at { NamedLater(text, needle, read, n, at, q - at - |needle|); }
    }
    if NamedSomewhere(after, needle, read, n) {
      var r: nat :| NamedAt(after, needle, read, n, r);
      NamedLater(text, needle, read, n, at, r);
    }
    assert Names(read(after), n) ==> NamedAt(text, needle, read, n, at);
  }

  method InsertNamed(found0: set<nat>, reading: Reading) returns (found: set<nat>)
    ensures forall n :: n in found <==> n in found0 || Names(reading, n)
  {
    found := found0;
    match reading {
      case Nothing =>
      case One(number) => found := found + {number};
      case Through(number, upper) =>
        found := found + {number};
        var n := number;
        while n <= upper
          invariant number <= n
          invariant forall m :: m in found <==> m in found0 || m == number || (number <= m < n && m <= upper)
        {
          found := found + {n};
          n := n + 1;
        }
    }
  }

  /** Every objective a text names. `read` reads what follows an occurrence; the check's is `Read`. */
  method Objectives(text: string, needle: string, read: string -> Reading) returns (found: set<nat>)
    requires needle != ""
    ensures forall n :: n in found <==> NamedIn(text, needle, read, n)
    ensures Searches.BorderFree(needle) ==> forall n :: n in found <==> NamedSomewhere(text, needle, read, n)
  {
    found := {};
    var rest := text;
    while Find(rest, needle).Some?
      invariant forall n :: NamedIn(text, needle, read, n) <==> n in found || NamedIn(rest, needle, read, n)
      decreases |rest|
    {
      var at := Find(rest, needle).value;
      var after := rest[at + |needle|..];
      found := InsertNamed(found, read(after));
      rest := after;
    }
    if Searches.BorderFree(needle) {
      forall n ensures NamedIn(text, needle, read, n) <==> NamedSomewhere(text, needle, read, n) {
        NamedIsNamedSomewhere(text, needle, read, n);
      }
    }
  }

  // ---------- What is read after an occurrence ----------

  ghost predicate All(s: string, p: char -> bool) {
    forall c | c in s :: p(c)
  }

  ghost predicate Stops(s: string, p: char -> bool) {
    s != "" ==> !p(s[0])
  }

  lemma {:induction false} TakesAll(s: string, rest: string, p: char -> bool)
    requires All(s, p) && Stops(rest, p)
    ensures TakeWhile(s + rest, p) == s && DropWhile(s + rest, p) == rest
  {
    if s == "" {
      assert s + rest == rest;
    } else {
      assert s[0] in s && (s + rest)[0] == s[0] && (s + rest)[1..] == s[1..] + rest;
      TakesAll(s[1..], rest, p);
    }
  }

  lemma TakeSplit(s: string, p: char -> bool) returns (all: string, rest: string)
    ensures s == all + rest && All(all, p) && Stops(rest, p)
    ensures all == TakeWhile(s, p) && rest == DropWhile(s, p)
  {
    all, rest := TakeWhile(s, p), DropWhile(s, p);
    assert all == s[..|all|];
  }

  /** What follows the needle: digits, then ticks, dashes, ticks and digits, each as many as there are. */
  datatype Parts = Parts(lower: string, ticks: string, dashes: string, more: string, upper: string, rest: string)
  {
    function Text(): string {
      lower + (ticks + (dashes + (more + (upper + rest))))
    }

    ghost predicate Maximal() {
      && (forall c | c in lower || c in upper :: '0' <= c <= '9')
      && (forall c | c in ticks || c in more :: c == '`')
      && (forall c | c in dashes :: c == '-' || c == '\U{2013}' || c == '\U{2014}')
      && Stops(ticks + (dashes + (more + (upper + rest))), IsDigit)
      && Stops(dashes + (more + (upper + rest)), IsTick)
      && Stops(more + (upper + rest), IsDash)
      && Stops(upper + rest, IsTick)
      && Stops(rest, IsDigit)
    }
  }

  /** Every text has those parts, and in one way. */
  lemma PartsOf(after: string) returns (parts: Parts)
    ensures after == parts.Text() && parts.Maximal()
  {
    var lower, tail := TakeSplit(after, IsDigit);
    var ticks, tail2 := TakeSplit(tail, IsTick);
    var dashes, tail3 := TakeSplit(tail2, IsDash);
    var more, tail4 := TakeSplit(tail3, IsTick);
    var upper, rest := TakeSplit(tail4, IsDigit);
    parts := Parts(lower, ticks, dashes, more, upper, rest);
  }

  lemma PartsAreRead(parts: Parts)
    requires parts.Maximal()
    ensures TakeWhile(parts.Text(), IsDigit) == parts.lower
    ensures UpperDigits(DropWhile(parts.Text(), IsDigit)) == parts.upper
  {
    TakesAll(parts.lower, parts.ticks + (parts.dashes + (parts.more + (parts.upper + parts.rest))), IsDigit);
    TakesAll(parts.ticks, parts.dashes + (parts.more + (parts.upper + parts.rest)), IsTick);
    TakesAll(parts.dashes, parts.more + (parts.upper + parts.rest), IsDash);
    TakesAll(parts.more, parts.upper + parts.rest, IsTick);
    TakesAll(parts.upper, parts.rest, IsDigit);
  }

  /** A string of digits that a `u32` holds, and the number. */
  ghost predicate Spells(digits: string, n: nat) {
    digits != "" && (forall c | c in digits :: '0' <= c <= '9') && Value(digits) == n <= 0xFFFF_FFFF
  }

  lemma ParseSpells(digits: string, n: nat)
    ensures Parse(digits, U32_MAX) == Some(n) <==> Spells(digits, n)
  {
  }

  lemma NumbersName(first: Option<nat>, last: Option<nat>, n: nat)
    ensures Names(ReadNumbers(first, last), n)
            <==> || first == Some(n)
                 || exists a: nat, b: nat :: first == Some(a) && last == Some(b) && a < b < a + 32 && a <= n <= b
  {
  }

  /** The number read first, and each number of a range that climbs by less than 32. */
  ghost predicate NamesByText(lower: string, upper: string, n: nat) {
    || Spells(lower, n)
    || exists a: nat, b: nat :: Spells(lower, a) && Spells(upper, b) && a < b < a + 32 && a <= n <= b
  }

  lemma SpelledNumbersName(lower: string, upper: string, n: nat)
    ensures Names(ReadNumbers(Parse(lower, U32_MAX), Parse(upper, U32_MAX)), n) <==> NamesByText(lower, upper, n)
  {
    var first, last := Parse(lower, U32_MAX), Parse(upper, U32_MAX);
    NumbersName(first, last, n);
    ParseSpells(lower, n);
    forall a: nat ensures first == Some(a) <==> Spells(lower, a) { ParseSpells(lower, a); }
    forall b: nat ensures last == Some(b) <==> Spells(upper, b) { ParseSpells(upper, b); }
  }

  /** What is named after an occurrence of the needle, by the text that follows it. */
  lemma NamesExactly(parts: Parts, n: nat)
    requires parts.Maximal()
    ensures Names(Read(parts.Text()), n) <==> NamesByText(parts.lower, parts.upper, n)
  {
    PartsAreRead(parts);
    SpelledNumbersName(parts.lower, parts.upper, n);
  }

  /** The text has the parts, and they name the objective. */
  ghost predicate NamesWith(after: string, parts: Parts, n: nat) {
    after == parts.Text() && parts.Maximal() && NamesByText(parts.lower, parts.upper, n)
  }

  lemma OwnParts(after: string, n: nat) returns (parts: Parts)
    requires Names(Read(after), n)
    ensures NamesWith(after, parts, n)
  {
    parts := PartsOf(after);
    NamesExactly(parts, n);
  }

  /** The needle stands at the place, and the text after it has the parts and names the objective. */
  ghost predicate NamesAfter(text: string, at: nat, parts: Parts, n: nat) {
    OccursAt(text, "NFR-PERF-", at) && NamesWith(text[at + 9..], parts, n)
  }

  lemma NamedThere(text: string, n: nat, at: nat) returns (parts: Parts)
    requires NamedAt(text, NEEDLE, Read, n, at)
    ensures NamesAfter(text, at, parts, n)
  {
    parts := OwnParts(text[at + 9..], n);
  }

  lemma NamesThere(text: string, n: nat, at: nat, parts: Parts)
    requires NamesAfter(text, at, parts, n)
    ensures NamedAt(text, NEEDLE, Read, n, at)
  {
    NamesExactly(parts, n);
  }

  /** The tool names an objective exactly where its needle occurs before such a text. */
  lemma ToolNamesExactly(text: string, n: nat)
    ensures NamedIn(text, NEEDLE, Read, n) <==> exists at: nat, parts :: NamesAfter(text, at, parts, n)
  {
    ToolIsExact();
    NamedIsNamedSomewhere(text, NEEDLE, Read, n);
    if NamedSomewhere(text, NEEDLE, Read, n) {
      var at: nat :| NamedAt(text, NEEDLE, Read, n, at);
      var parts := NamedThere(text, n, at);
    }
    if at: nat, parts :| NamesAfter(text, at, parts, n) {
      NamesThere(text, n, at, parts);
    }
  }

  // ---------- Lines are read one by one ----------

  /** What a reader makes of a text is settled before the first newline. */
  ghost predicate StopsAtNewline(read: string -> Reading) {
    forall after, rest :: read(after + "\n" + rest) == read(after)
  }

  lemma UpperStopsAtNewline(tail: string, rest: string)
    ensures UpperDigits(tail + "\n" + rest) == UpperDigits(tail)
  {
    TakeWhileStops(tail, '\n', rest, IsTick);
    var dashes := DropWhile(tail, IsTick);
    TakeWhileStops(dashes, '\n', rest, IsDash);
    var ticks := DropWhile(dashes, IsDash);
    TakeWhileStops(ticks, '\n', rest, IsTick);
    TakeWhileStops(DropWhile(ticks, IsTick), '\n', rest, IsDigit);
  }

  /** No range crosses a line. */
  lemma ReadStopsAtNewline()
    ensures StopsAtNewline(Read)
  {
    forall after, rest ensures Read(after + "\n" + rest) == Read(after) {
      ReadsSame(after, rest);
    }
  }

  lemma ReadsSame(after: string, rest: string)
    ensures Read(after + "\n" + rest) == Read(after)
  {
    var all := after + "\n" + rest;
    TakeWhileStops(after, '\n', rest, IsDigit);
    assert TakeWhile(all, IsDigit) == TakeWhile(after, IsDigit);
    UpperStopsAtNewline(DropWhile(after, IsDigit), rest);
    assert UpperDigits(DropWhile(all, IsDigit)) == UpperDigits(DropWhile(after, IsDigit));
  }

  lemma NamedStep(text: string, needle: string, read: string -> Reading, n: nat, at: nat, after: string)
    requires needle != "" && Find(text, needle) == Some(at) && after == text[at + |needle|..]
    ensures NamedIn(text, needle, read, n) <==> Names(read(after), n) || NamedIn(after, needle, read, n)
  {
  }

  /** The objectives of two texts joined by a newline are those of the one and those of the other. */
  lemma {:induction false} JoinIsUnion(a: string, b: string, needle: string, read: string -> Reading, n: nat)
    requires needle != "" && '\n' !in needle && StopsAtNewline(read)
    ensures NamedIn(a + "\n" + b, needle, read, n) <==> NamedIn(a, needle, read, n) || NamedIn(b, needle, read, n)
    decreases |a|
  {
    var all := a + "\n" + b;
    FindAcross(a, "\n", b, needle);
    match Find(a, needle) {
      case Some(at) =>
        var after := a[at + |needle|..];
        assert all[at + |needle|..] == after + "\n" + b;
        NamedStep(all, needle, read, n, at, after + "\n" + b);
        NamedStep(a, needle, read, n, at, after);
        JoinIsUnion(after, b, needle, read, n);
      case None =>
        match Find(b, needle)
        case None =>
        case Some(at) =>
          assert all[|a| + 1 + at + |needle|..] == b[at + |needle|..];
          NamedStep(all, needle, read, n, |a| + 1 + at, b[at + |needle|..]);
          NamedStep(b, needle, read, n, at, b[at + |needle|..]);
    }
  }

  function Join(lines: seq<string>): string {
    if lines == [] then "" else if |lines| == 1 then lines[0] else lines[0] + "\n" + Join(lines[1..])
  }

  /** Some line names the objective. */
  predicate NamedInSome(lines: seq<string>, needle: string, read: string -> Reading, n: nat)
    requires needle != ""
  {
    exists line | line in lines :: NamedIn(line, needle, read, n)
  }

  lemma {:induction false} JoinedLines(lines: seq<string>, needle: string, read: string -> Reading, n: nat)
    requires needle != "" && '\n' !in needle && StopsAtNewline(read)
    ensures NamedIn(Join(lines), needle, read, n) <==> NamedInSome(lines, needle, read, n)
  {
    if lines == [] {
      FindPastGap("", "", needle);
      assert Find("", needle).None?;
    } else {
      assert lines == [lines[0]] + lines[1..];
      assert forall line :: line in lines <==> line == lines[0] || line in lines[1..];
      if |lines| > 1 {
        JoinIsUnion(lines[0], Join(lines[1..]), needle, read, n);
        JoinedLines(lines[1..], needle, read, n);
      }
    }
  }

  // ---------- The check ----------

  /** A row is blanks, a bar and anything. */
  lemma IsRowExactlyWhen(line: string)
    ensures IsRow(line) <==> exists blank, rest :: IsBlank(blank) && line == blank + "|" + rest
  {
    if IsRow(line) {
      var blank := TrimStartSplit(line);
      assert line == blank + "|" + TrimStart(line)[1..];
    }
    if blank, rest :| IsBlank(blank) && line == blank + "|" + rest {
      assert line == blank + ("|" + rest);
      TrimStartIgnores(blank, "|" + rest);
    }
  }

  predicate IsRow(line: string) {
    "|" <= TrimStart(line)
  }

  function Rows(lines: seq<string>): (rows: seq<string>)
  {
    if lines == [] then [] else (if IsRow(lines[0]) then [lines[0]] else []) + Rows(lines[1..])
  }

  lemma {:induction false} RowsMeaning(lines: seq<string>)
    ensures forall line :: line in Rows(lines) <==> line in lines && IsRow(line)
  {
    if lines != [] {
      RowsMeaning(lines[1..]);
      assert forall line :: line in lines <==> line == lines[0] || line in lines[1..];
    }
  }

  /** Some row of the table names the objective. */
  ghost predicate ReportedIn(lines: seq<string>, needle: string, read: string -> Reading, n: nat)
    requires needle != ""
  {
    exists line | line in lines && IsRow(line) :: NamedIn(line, needle, read, n)
  }

  /** Passing: something is stated, and what is stated is what the rows report, row by row. */
  ghost predicate Complete(stated: string, lines: seq<string>, needle: string, read: string -> Reading)
    requires needle != ""
  {
    && (exists n :: NamedIn(stated, needle, read, n))
    && (forall n :: NamedIn(stated, needle, read, n) <==> ReportedIn(lines, needle, read, n))
  }

  lemma TableIsRows(lines: seq<string>, needle: string, read: string -> Reading)
    requires needle != "" && '\n' !in needle && StopsAtNewline(read)
    ensures forall n :: NamedIn(Join(Rows(lines)), needle, read, n) <==> ReportedIn(lines, needle, read, n)
  {
    RowsMeaning(lines);
    forall n ensures NamedIn(Join(Rows(lines)), needle, read, n) <==> ReportedIn(lines, needle, read, n) {
      JoinedLines(Rows(lines), needle, read, n);
    }
  }

  method SameSets(stated: set<nat>, reported: set<nat>) returns (ok: bool)
    ensures ok <==> stated != {} && stated == reported
  {
    if stated == {} {
      return false;
    }
    ok := true;
    if stated - reported != {} {
      ok := false;
    }
    if reported - stated != {} {
      ok := false;
    }
    assert stated == reported <==> stated - reported == {} && reported - stated == {} by {
      assert forall n :: n in stated - reported <==> n in stated && n !in reported;
      assert forall n :: n in reported - stated <==> n in reported && n !in stated;
    }
  }

  method Check(statedText: Option<string>, reportedText: Option<string>, needle: string, read: string -> Reading)
    returns (ok: bool)
    requires needle != "" && '\n' !in needle && StopsAtNewline(read)
    ensures ok <==> statedText.Some? && reportedText.Some?
                    && Complete(statedText.value, Lines(reportedText.value), needle, read)
  {
    if statedText.None? {
      return false;
    }
    if reportedText.None? {
      return false;
    }
    var stated := Objectives(statedText.value, needle, read);
    var lines := Lines(reportedText.value);
    var reported := Objectives(Join(Rows(lines)), needle, read);
    TableIsRows(lines, needle, read);
    ok := SameSets(stated, reported);
    assert stated == reported <==> forall n :: n in stated <==> n in reported;
    assert stated != {} <==> exists n :: n in stated;
  }

  /** The check's own needle does not overlap itself: its first letter does not come again. */
  lemma NeedleIsBorderFree()
    ensures Searches.BorderFree(NEEDLE)
  {
    Searches.FirstCharacterOnce(NEEDLE);
  }

  /** So the check is exact with its own needle and reader. */
  lemma ToolIsExact()
    ensures NEEDLE != "" && '\n' !in NEEDLE && Searches.BorderFree(NEEDLE) && StopsAtNewline(Read)
  {
    NeedleIsBorderFree();
    ReadStopsAtNewline();
  }
}
