/** How a figure is written and read: digits, thousands, and small numbers in words. */
module Figures {
  import opened Text

  const USIZE_MAX := 0xFFFF_FFFF_FFFF_FFFF

  predicate IsFigure(c: char) {
    IsDigit(c) || c == ','
  }

  /** A digit, a separator, or the emphasis around them. */
  predicate IsRun(c: char) {
    IsFigure(c) || c == '*' || c == '_'
  }

  ghost predicate AllFigures(s: string) {
    forall c | c in s :: IsFigure(c)
  }

  function Keep(s: string, p: char -> bool): (r: string)
    ensures |r| <= |s|
    ensures forall c | c in r :: p(c) && c in s
  {
    if s == "" then "" else Keep(s[..|s| - 1], p) + if p(s[|s| - 1]) then [s[|s| - 1]] else ""
  }

  lemma {:induction false} KeepAppend(a: string, b: string, p: char -> bool)
    ensures Keep(a + b, p) == Keep(a, p) + Keep(b, p)
  {
    if b == "" {
      assert a + b == a;
    } else {
      assert (a + b)[..|a + b| - 1] == a + b[..|b| - 1];
      KeepAppend(a, b[..|b| - 1], p);
    }
  }

  lemma {:induction false} KeepAll(s: string, p: char -> bool)
    requires forall c | c in s :: p(c)
    ensures Keep(s, p) == s
  {
    if s != "" {
      var before, last := s[..|s| - 1], s[|s| - 1];
      assert s == before + [last] && last in s;
      assert forall c | c in before :: c in s;
      KeepAll(before, p);
    }
  }

  lemma {:induction false} KeepNone(s: string, p: char -> bool)
    requires forall c | c in s :: !p(c)
    ensures Keep(s, p) == ""
  {
    if s != "" {
      assert s[|s| - 1] in s && forall c | c in s[..|s| - 1] :: c in s;
      KeepNone(s[..|s| - 1], p);
    }
  }

  lemma KeepOne(c: char, p: char -> bool)
    ensures Keep([c], p) == if p(c) then [c] else ""
  {
    assert [c][..0] == "";
  }

  predicate NotComma(c: char) {
    c != ','
  }

  function WithoutCommas(s: string): string {
    Keep(s, NotComma)
  }

  /** `digits.replace(',', "").parse::<usize>()`. */
  function ParseFigure(digits: string): Option<nat> {
    Parse(WithoutCommas(digits), USIZE_MAX)
  }

  // ---------- Thousands ----------

  /** The digits from `i` on, a comma before every third from the end. */
  function Grouped(digits: string, i: nat): string
    requires i <= |digits|
    decreases |digits| - i
  {
    if i == |digits| then "" else Printed(digits, i) + Grouped(digits, i + 1)
  }

  /** One digit, its comma before it. */
  function Printed(digits: string, i: nat): string
    requires i < |digits|
  {
    if i > 0 && (|digits| - i) % 3 == 0 then [',', digits[i]] else [digits[i]]
  }

  lemma GroupedNext(digits: string, i: nat, before: string)
    requires i < |digits|
    ensures before + Grouped(digits, i) == (before + Printed(digits, i)) + Grouped(digits, i + 1)
  {
    Regroup(before, Printed(digits, i), Grouped(digits, i + 1));
  }

  method WithThousands(value: nat) returns (out: string)
    ensures out == Grouped(Decimal(value), 0)
  {
    var digits := Decimal(value);
    ghost var all := Grouped(digits, 0);
    out := "";
    assert out + all == all;
    for index := 0 to |digits|
      invariant out + Grouped(digits, index) == all
    {
      ghost var before := out;
      GroupedNext(digits, index, before);
      if index > 0 && (|digits| - index) % 3 == 0 {
        out := out + ",";
      }
      out := out + [digits[index]];
      assert out == before + Printed(digits, index);
    }
    assert out + "" == out;
  }

  /** A leading group of one to three digits, then a comma and three digits any number of times. */
  ghost predicate IsGrouped(s: string)
    decreases |s|
  {
    if |s| <= 3 then s != "" && forall c | c in s :: IsDigit(c)
    else
      var n := |s| - 4;
      s[n] == ',' && (forall c | c in s[n + 1..] :: IsDigit(c)) && IsGrouped(s[..n])
  }

  lemma {:induction false} GroupedTail(digits: string, i: nat)
    requires i <= |digits| && |digits| - i <= 3 && (i > 0 ==> |digits| - i < 3)
    ensures Grouped(digits, i) == digits[i..]
    decreases |digits| - i
  {
    if i < |digits| {
      GroupedTail(digits, i + 1);
      assert Printed(digits, i) == [digits[i]];
      assert digits[i..] == [digits[i]] + digits[i + 1..];
    }
  }

  lemma PrintedInLead(digits: string, i: nat)
    requires |digits| > 3 && i < |digits| - 3
    ensures Printed(digits, i) == Printed(digits[..|digits| - 3], i)
  {
  }

  lemma LastThree(digits: string)
    requires |digits| > 3
    ensures var n := |digits| - 3; Grouped(digits, n) == [','] + digits[n..]
  {
    var n := |digits| - 3;
    GroupedTail(digits, n + 1);
    assert Printed(digits, n) == [',', digits[n]];
    assert digits[n..] == [digits[n]] + digits[n + 1..];
  }

  /** The last three digits are a group of their own. */
  lemma {:induction false} GroupedLast(digits: string, i: nat)
    requires |digits| > 3 && i <= |digits| - 3
    ensures var n := |digits| - 3; Grouped(digits, i) == Grouped(digits[..n], i) + ([','] + digits[n..])
    decreases |digits| - i
  {
    var n := |digits| - 3;
    var lead := digits[..n];
    if i == n {
      LastThree(digits);
      assert Grouped(lead, n) == "";
    } else {
      GroupedLast(digits, i + 1);
      PrintedInLead(digits, i);
      Regroup(Printed(lead, i), Grouped(lead, i + 1), [','] + digits[n..]);
    }
  }

  ghost predicate AllDigits(s: string) {
    forall c | c in s :: IsDigit(c)
  }

  lemma GroupAdded(lead: string, last: string)
    requires IsGrouped(lead) && |last| == 3 && AllDigits(last)
    ensures IsGrouped(lead + ([','] + last))
  {
    var all := lead + ([','] + last);
    assert all[..|all| - 4] == lead && all[|all| - 3..] == last;
  }

  lemma CommaDropped(lead: string, last: string)
    requires AllDigits(last)
    ensures WithoutCommas(lead + ([','] + last)) == WithoutCommas(lead) + last
  {
    KeepAppend(lead, [','] + last, NotComma);
    KeepAppend([','], last, NotComma);
    KeepOne(',', NotComma);
    DigitsAreNotCommas(last);
    assert "" + last == last;
  }

  lemma DigitsAreNotCommas(digits: string)
    requires AllDigits(digits)
    ensures Keep(digits, NotComma) == digits
  {
    assert forall c | c in digits :: NotComma(c);
    KeepAll(digits, NotComma);
  }

  lemma ShortShape(digits: string)
    requires 0 < |digits| <= 3 && AllDigits(digits)
    ensures IsGrouped(Grouped(digits, 0)) && WithoutCommas(Grouped(digits, 0)) == digits
  {
    GroupedTail(digits, 0);
    KeepAll(digits, NotComma);
    assert digits[0..] == digits;
  }

  lemma LongShape(digits: string, n: nat)
    requires |digits| > 3 && n == |digits| - 3 && AllDigits(digits)
    requires IsGrouped(Grouped(digits[..n], 0)) && WithoutCommas(Grouped(digits[..n], 0)) == digits[..n]
    ensures IsGrouped(Grouped(digits, 0)) && WithoutCommas(Grouped(digits, 0)) == digits
  {
    var printed, last := Grouped(digits[..n], 0), digits[n..];
    GroupedLast(digits, 0);
    GroupAdded(printed, last);
    CommaDropped(printed, last);
    assert digits[..n] + last == digits;
  }

  lemma {:induction false} GroupedShape(digits: string)
    requires digits != "" && AllDigits(digits)
    ensures IsGrouped(Grouped(digits, 0)) && WithoutCommas(Grouped(digits, 0)) == digits
    decreases |digits|
  {
    if |digits| <= 3 {
      ShortShape(digits);
    } else {
      var n := |digits| - 3;
      GroupedShape(digits[..n]);
      LongShape(digits, n);
    }
  }

  /** Printing with separators and reading back is the identity on every `usize`. */
  lemma ThousandsRoundTrip(value: nat)
    requires value <= USIZE_MAX
    ensures ParseFigure(Grouped(Decimal(value), 0)) == Some(value) && IsGrouped(Grouped(Decimal(value), 0))
  {
    GroupedShape(Decimal(value));
    DecimalValue(value);
  }

  lemma DecimalRoundTrip(value: nat)
    requires value <= USIZE_MAX
    ensures ParseFigure(Decimal(value)) == Some(value)
  {
    KeepAll(Decimal(value), NotComma);
    DecimalValue(value);
  }

  lemma PrintedIsFigures(digits: string, i: nat)
    requires i < |digits| && AllFigures(digits)
    ensures AllFigures(Printed(digits, i)) && |Printed(digits, i)| >= 1
  {
    assert digits[i] in digits;
  }

  lemma {:induction false} GroupedIsFigures(digits: string, i: nat)
    requires i <= |digits| && AllFigures(digits)
    ensures AllFigures(Grouped(digits, i)) && |Grouped(digits, i)| >= |digits| - i
    decreases |digits| - i
  {
    if i < |digits| {
      PrintedIsFigures(digits, i);
      GroupedIsFigures(digits, i + 1);
    }
  }

  /** How a stale figure is rewritten: separators only where it had them. */
  function Respell(spelled: string, actual: nat): string {
    if ',' in spelled then Grouped(Decimal(actual), 0) else Decimal(actual)
  }

  lemma RespellReads(spelled: string, actual: nat)
    requires actual <= USIZE_MAX
    ensures var y := Respell(spelled, actual);
            y != "" && AllFigures(y) && ParseFigure(y) == Some(actual)
  {
    if ',' in spelled {
      ThousandsRoundTrip(actual);
      GroupedIsFigures(Decimal(actual), 0);
    } else {
      DecimalRoundTrip(actual);
    }
  }

  /** The style is kept: grouped in threes where there was a comma, bare digits where there was none. */
  lemma RespellKeepsStyle(spelled: string, actual: nat)
    ensures ',' in spelled ==>
              IsGrouped(Respell(spelled, actual)) && WithoutCommas(Respell(spelled, actual)) == Decimal(actual)
    ensures ',' !in spelled ==> AllDigits(Respell(spelled, actual)) && Value(Respell(spelled, actual)) == actual
  {
    GroupedShape(Decimal(actual));
    DecimalValue(actual);
  }

  // ---------- Words ----------

  const WORDS: seq<(string, nat)> := [
    ("one", 1), ("two", 2), ("three", 3), ("four", 4), ("five", 5), ("six", 6), ("seven", 7), ("eight", 8),
    ("nine", 9), ("ten", 10), ("eleven", 11), ("twelve", 12), ("thirteen", 13), ("fourteen", 14),
    ("fifteen", 15), ("sixteen", 16), ("seventeen", 17), ("eighteen", 18), ("nineteen", 19), ("twenty", 20),
    ("thirty", 30), ("forty", 40), ("fifty", 50)]

  /** One to twenty in turn, then the tens up to fifty. */
  lemma WordsCountUp()
    ensures |WORDS| == 23 && (forall k | 0 <= k < 20 :: WORDS[k].1 == k + 1)
    ensures forall k | 20 <= k < 23 :: WORDS[k].1 == 10 * (k - 17)
  {
  }

  function LookUp(words: seq<(string, nat)>, word: string): Option<nat> {
    if words == [] then None
    else if words[0].0 == word then Some(words[0].1)
    else LookUp(words[1..], word)
  }

  function Lower(c: char): char {
    if 'A' <= c <= 'Z' then (c as int - 'A' as int + 'a' as int) as char else c
  }

  function Lowered(s: string): string {
    if s == "" then "" else [Lower(s[0])] + Lowered(s[1..])
  }

  /** A number as prose spells it, `twenty-two` included. */
  function WordNumber(word: string, words: seq<(string, nat)>): Option<nat> {
    var lowered := Lowered(word);
    match Find(lowered, "-")
    case None => LookUp(words, lowered)
    case Some(i) =>
      match LookUp(words, lowered[..i])
      case None => None
      case Some(tens) =>
        match LookUp(words, lowered[i + 1..])
        case None => None
        case Some(units) => if tens >= 20 && units < 10 then Some(tens + units) else None
  }

  /** The first entry of the table under a word gives the number. */
  ghost predicate FirstUnder(words: seq<(string, nat)>, word: string, n: nat) {
    exists k :: 0 <= k < |words| && words[k] == (word, n) && forall j | 0 <= j < k :: words[j].0 != word
  }

  lemma {:induction false} LookUpMeaning(words: seq<(string, nat)>, word: string, n: nat)
    ensures LookUp(words, word) == Some(n) <==> FirstUnder(words, word, n)
  {
    if words != [] {
      LookUpMeaning(words[1..], word, n);
      if words[0].0 != word && FirstUnder(words[1..], word, n) {
        var k :| 0 <= k < |words[1..]| && words[1..][k] == (word, n)
                 && forall j | 0 <= j < k :: words[1..][j].0 != word;
        assert words[k + 1] == (word, n);
        assert forall j | 0 < j < k + 1 :: words[j] == words[1..][j - 1];
      }
      if k :| 0 <= k < |words| && words[k] == (word, n) && forall j | 0 <= j < k :: words[j].0 != word {
        if k > 0 {
          assert words[1..][k - 1] == (word, n);
          assert forall j | 0 <= j < k - 1 :: words[1..][j] == words[j + 1];
        }
      }
    }
  }

  /** A capital letter counts as its small one, and nothing else changes. */
  lemma {:induction false} LoweredMeaning(s: string, k: nat)
    requires k < |s|
    ensures |Lowered(s)| == |s|
    ensures 'A' <= s[k] <= 'Z' ==> Lowered(s)[k] as int == s[k] as int + 32
    ensures !('A' <= s[k] <= 'Z') ==> Lowered(s)[k] == s[k]
  {
    if k > 0 {
      LoweredMeaning(s[1..], k - 1);
    } else {
      LoweredLength(s);
    }
  }

  lemma {:induction false} LoweredLength(s: string)
    ensures |Lowered(s)| == |s|
  {
    if s != "" { LoweredLength(s[1..]); }
  }

  /** Tens and units joined by the word's first dash. */
  ghost predicate Composed(lowered: string, words: seq<(string, nat)>, tens: string, units: string, a: nat, b: nat) {
    && lowered == tens + "-" + units && '-' !in tens
    && FirstUnder(words, tens, a) && FirstUnder(words, units, b) && a >= 20 && b < 10
  }

  /** A word is a number exactly when it is in the table, or is tens and units of the table joined by a dash. */
  lemma WordNumberMeaning(word: string, words: seq<(string, nat)>, n: nat)
    ensures WordNumber(word, words) == Some(n)
            <==> || ('-' !in Lowered(word) && FirstUnder(words, Lowered(word), n))
                 || IsComposed(Lowered(word), words, n)
  {
    var lowered := Lowered(word);
    var before, rest := BeforeFirstSplit(lowered, '-');
    if rest == "" {
      assert lowered == before;
      AbsentIsNotFound(lowered, "-");
      LookUpMeaning(words, lowered, n);
      ComposedHasDash(lowered, words, n);
    } else {
      DashFound(lowered, before, rest[1..]);
      ComposedNumber(lowered, words, before, rest[1..], n);
      assert lowered[|before|] == '-';
      WordNumberAtDash(word, words, before, rest[1..], n);
    }
  }

  ghost predicate IsComposed(lowered: string, words: seq<(string, nat)>, n: nat) {
    exists tens, units, a: nat, b: nat :: Composed(lowered, words, tens, units, a, b) && n == a + b
  }

  lemma ComposedHasDash(lowered: string, words: seq<(string, nat)>, n: nat)
    ensures IsComposed(lowered, words, n) ==> '-' in lowered
  {
    if IsComposed(lowered, words, n) {
      var tens, units, a: nat, b: nat :| Composed(lowered, words, tens, units, a, b) && n == a + b;
      assert lowered[|tens|] == '-';
    }
  }

  /** The numbers of the two halves make the number. */
  ghost predicate MadeOf(words: seq<(string, nat)>, tens: string, units: string, n: nat) {
    && LookUp(words, tens).Some? && LookUp(words, units).Some?
    && LookUp(words, tens).value >= 20 && LookUp(words, units).value < 10
    && n == LookUp(words, tens).value + LookUp(words, units).value
  }

  lemma WordNumberAtDash(word: string, words: seq<(string, nat)>, tens: string, units: string, n: nat)
    requires var i := Find(Lowered(word), "-");
             i == Some(|tens|) && |tens| < |Lowered(word)|
             && Lowered(word)[..|tens|] == tens && Lowered(word)[|tens| + 1..] == units
    ensures WordNumber(word, words) == Some(n) <==> MadeOf(words, tens, units, n)
  {
  }

  lemma DashFound(lowered: string, tens: string, units: string)
    requires lowered == tens + "-" + units && '-' !in tens
    ensures Find(lowered, "-") == Some(|tens|) && lowered[..|tens|] == tens && lowered[|tens| + 1..] == units
  {
    forall j | 0 <= j < |tens| ensures !OccursAt(lowered, "-", j) {
      assert lowered[j..j + 1] == [lowered[j]] && lowered[j] == tens[j] && tens[j] in tens;
    }
    assert lowered[|tens|..|tens| + 1] == "-";
    FindIs(lowered, "-", |tens|);
  }

  lemma ComposedNumber(lowered: string, words: seq<(string, nat)>, tens: string, units: string, n: nat)
    requires lowered == tens + "-" + units && '-' !in tens
    ensures MadeOf(words, tens, units, n) <==> IsComposed(lowered, words, n)
  {
    if MadeOf(words, tens, units, n) {
      var a, b := LookUp(words, tens).value, LookUp(words, units).value;
      LookUpMeaning(words, tens, a);
      LookUpMeaning(words, units, b);
      assert Composed(lowered, words, tens, units, a, b);
    }
    if tens', units', a: nat, b: nat :| Composed(lowered, words, tens', units', a, b) && n == a + b {
      DashFound(lowered, tens, units);
      DashFound(lowered, tens', units');
      LookUpMeaning(words, tens, a);
      LookUpMeaning(words, units, b);
    }
  }
}
