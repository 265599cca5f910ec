/** The string operations the tools share, with the meaning their callers rely on. */
module Text {

  datatype Option<+T> = None | Some(value: T)

  lemma Regroup(a: string, b: string, c: string)
    ensures a + (b + c) == (a + b) + c
  {
  }

  predicate OccursAt(s: string, needle: string, at: int) {
    0 <= at && at + |needle| <= |s| && s[at..at + |needle|] == needle
  }

  predicate IsFirst(s: string, needle: string, i: int) {
    OccursAt(s, needle, i) && forall j | 0 <= j < i :: !OccursAt(s, needle, j)
  }

  /** `str::find`: where the first occurrence of `needle` starts. */
  function Find(s: string, needle: string): (r: Option<nat>)
    ensures r.Some? ==> r.value + |needle| <= |s|
  {
    if exists i | 0 <= i <= |s| :: IsFirst(s, needle, i) then
      var i :| 0 <= i <= |s| && IsFirst(s, needle, i);
      Some(i)
    else None
  }

  lemma {:induction false} SomeFirst(s: string, needle: string, p: nat) returns (i: nat)
    requires OccursAt(s, needle, p)
    ensures IsFirst(s, needle, i) && i <= p
  {
    if j :| 0 <= j < p && OccursAt(s, needle, j) {
      i := SomeFirst(s, needle, j);
    } else {
      i := p;
    }
  }

  lemma FindIsLeftmost(s: string, needle: string)
    ensures match Find(s, needle)
            case None => forall j :: !OccursAt(s, needle, j)
            case Some(i) => OccursAt(s, needle, i) && forall j | 0 <= j < i :: !OccursAt(s, needle, j)
  {
    if p: int :| OccursAt(s, needle, p) {
      var i := SomeFirst(s, needle, p);
      assert i <= |s|;
    }
  }

  lemma FindIs(s: string, needle: string, i: nat)
    requires OccursAt(s, needle, i) && forall j | 0 <= j < i :: !OccursAt(s, needle, j)
    ensures Find(s, needle) == Some(i)
  {
    FindIsLeftmost(s, needle);
  }

  /** The search goes on at the next character. */
  lemma FindStep(s: string, needle: string)
    ensures Find(s, needle)
            == if needle <= s then Some(0)
               else if s == "" then None
               else match Find(s[1..], needle) case None => None case Some(i) => Some(i + 1)
  {
    FindIsLeftmost(s, needle);
    if needle <= s {
      assert s[0..|needle|] == needle && OccursAt(s, needle, 0);
    } else if s != "" {
      OccursInTail(s, needle);
      FindIsLeftmost(s[1..], needle);
      if Find(s[1..], needle).Some? {
        assert OccursAt(s, needle, Find(s[1..], needle).value + 1);
      }
      if Find(s, needle).Some? {
        var i := Find(s, needle).value;
        assert i > 0 && OccursAt(s[1..], needle, i - 1);
      }
    }
  }

  lemma OccursInTail(s: string, needle: string)
    requires s != "" && !(needle <= s)
    ensures forall j :: OccursAt(s, needle, j) <==> OccursAt(s[1..], needle, j - 1)
  {
    forall j ensures OccursAt(s, needle, j) <==> OccursAt(s[1..], needle, j - 1) {
      if 1 <= j && j + |needle| <= |s| {
        assert s[1..][j - 1..j - 1 + |needle|] == s[j..j + |needle|];
      } else if j == 0 && |needle| <= |s| {
        assert s[0..|needle|] == s[..|needle|];
      }
    }
  }

  lemma OccursInSuffix(s: string, needle: string, from: nat, p: nat)
    requires from <= p && from <= |s|
    ensures OccursAt(s[from..], needle, p - from) <==> OccursAt(s, needle, p)
  {
    if p + |needle| <= |s| {
      assert s[from..][p - from..p - from + |needle|] == s[p..p + |needle|];
    }
  }

  /** `split(c).next()`: what precedes the first `c`, or all of it. */
  function BeforeFirst(s: string, c: char): string {
    match Find(s, [c])
    case None => s
    case Some(i) => s[..i]
  }

  /** `s[from..].find(needle)`, as a position of `s`. */
  function FindAt(s: string, from: nat, needle: string): (r: Option<nat>)
    requires from <= |s|
    ensures r.Some? ==> from <= r.value && r.value + |needle| <= |s|
    decreases |s| - from
  {
    if OccursAt(s, needle, from) then Some(from)
    else if from == |s| then None
    else FindAt(s, from + 1, needle)
  }

  lemma {:induction false} FindAtIsFind(s: string, from: nat, needle: string)
    requires from <= |s|
    ensures FindAt(s, from, needle)
            == match Find(s[from..], needle) case None => None case Some(i) => Some(from + i)
    decreases |s| - from
  {
    FindStep(s[from..], needle);
    assert needle <= s[from..] <==> OccursAt(s, needle, from) by {
      if from + |needle| <= |s| { assert s[from..][..|needle|] == s[from..from + |needle|]; }
    }
    if from < |s| {
      assert s[from..][1..] == s[from + 1..];
      if !OccursAt(s, needle, from) { FindAtIsFind(s, from + 1, needle); }
    }
  }

  lemma {:induction false} FindAtIsNext(s: string, from: nat, needle: string)
    requires from <= |s|
    ensures match FindAt(s, from, needle)
            case None => forall p | from <= p :: !OccursAt(s, needle, p)
            case Some(at) => OccursAt(s, needle, at) && forall p | from <= p < at :: !OccursAt(s, needle, p)
    decreases |s| - from
  {
    if !OccursAt(s, needle, from) && from < |s| { FindAtIsNext(s, from + 1, needle); }
  }

  /** A needle that shares no character with `gap` is found on one side of it or the other. */
  lemma {:induction false} FindAcross(a: string, gap: string, b: string, needle: string)
    requires needle != "" && gap != "" && forall c | c in gap :: c !in needle
    ensures Find(a + gap + b, needle)
            == match Find(a, needle)
               case Some(i) => Some(i)
               case None =>
                 match Find(b, needle)
                 case None => None
                 case Some(j) => Some(|a| + |gap| + j)
  {
    var all := a + gap + b;
    PrefixAcross(a, gap, b, needle);
    FindStep(all, needle);
    FindStep(a, needle);
    if a != "" {
      assert all[1..] == a[1..] + gap + b;
      if !(needle <= a) {
        FindAcross(a[1..], gap, b, needle);
      }
    } else {
      FindPastGap(gap, b, needle);
      assert all == gap + b;
    }
  }

  lemma PrefixAcross(a: string, gap: string, b: string, needle: string)
    requires needle != "" && gap != "" && forall c | c in gap :: c !in needle
    ensures needle <= a + gap + b <==> needle <= a
  {
    var all := a + gap + b;
    if |needle| > |a| {
      assert gap[0] in gap && all[|a|] == gap[0];
      assert needle[|a|] in needle;
    } else {
      assert all[..|needle|] == a[..|needle|];
    }
  }

  lemma {:induction false} FindPastGap(gap: string, b: string, needle: string)
    requires needle != "" && forall c | c in gap :: c !in needle
    ensures Find(gap + b, needle)
            == match Find(b, needle) case None => None case Some(j) => Some(|gap| + j)
  {
    if gap == "" {
      assert gap + b == b;
    } else {
      assert gap[0] in gap && (gap + b)[0] == gap[0] && (gap + b)[1..] == gap[1..] + b;
      assert needle[0] in needle;
      FindStep(gap + b, needle);
      FindPastGap(gap[1..], b, needle);
    }
  }

  /** A character that does not occur as a one-character needle is not in the text. */
  lemma AbsentBefore(s: string, c: char, end: nat)
    requires end <= |s| && forall j | 0 <= j < end :: !OccursAt(s, [c], j)
    ensures c !in s[..end]
  {
    forall k | 0 <= k < end ensures s[k] != c {
      assert s[k..k + 1] == [s[k]];
      assert !OccursAt(s, [c], k);
    }
  }

  lemma FirstIsThere(s: string, needle: string, j: int)
    ensures needle != "" && OccursAt(s, needle, j) ==> needle[0] in s
  {
    if needle != "" && OccursAt(s, needle, j) {
      assert s[j] == s[j..j + |needle|][0];
    }
  }

  /** A needle whose first character is not in the text is not found. */
  lemma AbsentIsNotFound(s: string, needle: string)
    requires needle != "" && needle[0] !in s
    ensures Find(s, needle).None? && forall j :: !OccursAt(s, needle, j)
  {
    FindIsLeftmost(s, needle);
    forall j ensures !OccursAt(s, needle, j) {
      FirstIsThere(s, needle, j);
    }
  }

  /** What precedes the first `c`, and the rest from it on. */
  lemma BeforeFirstSplit(s: string, c: char) returns (before: string, rest: string)
    ensures s == before + rest && before == BeforeFirst(s, c) && c !in before && (rest != "" ==> rest[0] == c)
  {
    before := BeforeFirst(s, c);
    rest := s[|before|..];
    FindIsLeftmost(s, [c]);
    AbsentBefore(s, c, |before|);
    match Find(s, [c])
    case None => assert s[..|s|] == s;
    case Some(i) => assert s[i] == s[i..i + 1][0];
  }

  lemma BeforeFirstIs(s: string, c: char, before: string, rest: string)
    requires s == before + rest && c !in before && (rest != "" ==> rest[0] == c)
    ensures BeforeFirst(s, c) == before
  {
    forall j | 0 <= j < |before| ensures !OccursAt(s, [c], j) {
      assert s[j..j + 1] == [s[j]] && s[j] == before[j] && before[j] in before;
    }
    if rest == "" {
      assert s == before;
      AbsentIsNotFound(s, [c]);
    } else {
      assert s[|before|..|before| + 1] == [rest[0]];
      FindIs(s, [c], |before|);
    }
  }

  predicate Contains(s: string, needle: string) {
    Find(s, needle).Some?
  }

  /** Unicode's `White_Space` property, which is what Rust's `char::is_whitespace` tests. */
  predicate IsWhitespace(c: char) {
    || '\t' <= c <= '\r' || c == ' ' || c == '\U{85}' || c == '\U{A0}' || c == '\U{1680}'
    || '\U{2000}' <= c <= '\U{200A}' || c == '\U{2028}' || c == '\U{2029}' || c == '\U{202F}'
    || c == '\U{205F}' || c == '\U{3000}'
  }

  ghost predicate IsBlank(s: string) {
    forall c | c in s :: IsWhitespace(c)
  }

  function TrimStart(s: string): string {
    if s != "" && IsWhitespace(s[0]) then TrimStart(s[1..]) else s
  }

  function TrimEnd(s: string): string {
    if s != "" && IsWhitespace(s[|s| - 1]) then TrimEnd(s[..|s| - 1]) else s
  }

  function Trim(s: string): string {
    TrimEnd(TrimStart(s))
  }

  lemma {:induction false} TrimStartSplit(s: string) returns (blank: string)
    ensures IsBlank(blank) && s == blank + TrimStart(s)
  {
    if s != "" && IsWhitespace(s[0]) {
      var rest := TrimStartSplit(s[1..]);
      blank := [s[0]] + rest;
      calc {
        blank + TrimStart(s);
        [s[0]] + (rest + TrimStart(s[1..]));
        [s[0]] + s[1..];
        s;
      }
    } else {
      blank := "";
    }
  }

  lemma {:induction false} TrimEndSplit(s: string) returns (blank: string)
    ensures IsBlank(blank) && s == TrimEnd(s) + blank
  {
    if s != "" && IsWhitespace(s[|s| - 1]) {
      var rest := TrimEndSplit(s[..|s| - 1]);
      blank := rest + [s[|s| - 1]];
      calc {
        TrimEnd(s) + blank;
        (TrimEnd(s[..|s| - 1]) + rest) + [s[|s| - 1]];
        s[..|s| - 1] + [s[|s| - 1]];
        s;
      }
    } else {
      blank := "";
    }
  }

  /** Blanks, the trimmed text, blanks. */
  lemma TrimSplit(s: string) returns (before: string, after: string)
    ensures IsBlank(before) && IsBlank(after) && s == before + Trim(s) + after
  {
    before := TrimStartSplit(s);
    after := TrimEndSplit(TrimStart(s));
  }

  lemma {:induction false} TrimStartIgnores(blank: string, s: string)
    requires IsBlank(blank)
    ensures TrimStart(blank + s) == TrimStart(s)
  {
    if blank == "" {
      assert blank + s == s;
    } else {
      assert blank[0] in blank;
      assert (blank + s)[1..] == blank[1..] + s;
      TrimStartIgnores(blank[1..], s);
    }
  }

  lemma {:induction false} TrimEndIgnores(s: string, blank: string)
    requires IsBlank(blank)
    ensures TrimEnd(s + blank) == TrimEnd(s)
  {
    if blank == "" {
      assert s + blank == s;
    } else {
      var last := |blank| - 1;
      assert blank[last] in blank;
      assert (s + blank)[..|s + blank| - 1] == s + blank[..last];
      TrimEndIgnores(s, blank[..last]);
    }
  }

  /** Blank ends never show in a trimmed string. */
  lemma {:induction false} TrimIgnores(before: string, s: string, after: string)
    requires IsBlank(before) && IsBlank(after)
    ensures Trim(before + s + after) == Trim(s)
  {
    assert before + s + after == before + (s + after);
    TrimStartIgnores(before, s + after);
    if IsBlank(s) {
      BlankTrims(s);
      BlankTrims(s + after);
    } else {
      TrimStartKeepsTail(s, after);
      TrimEndIgnores(TrimStart(s), after);
    }
  }

  /** A text that neither starts nor ends with a space is not trimmed. */
  lemma TrimKeeps(s: string)
    requires s != "" && !IsWhitespace(s[0]) && !IsWhitespace(s[|s| - 1])
    ensures Trim(s) == s
  {
  }

  /** Neither end of a trimmed text is a space. */
  lemma {:induction false} TrimmedEnds(s: string)
    ensures Trim(s) != "" ==> !IsWhitespace(Trim(s)[0]) && !IsWhitespace(Trim(s)[|Trim(s)| - 1])
  {
    var start := TrimStart(s);
    StartTrimmed(s);
    EndTrimmed(start);
    var after := TrimEndSplit(start);
    if TrimEnd(start) != "" { assert start[0] == TrimEnd(start)[0]; }
  }

  lemma StartTrimmed(s: string)
    ensures TrimStart(s) != "" ==> !IsWhitespace(TrimStart(s)[0])
  {
  }

  lemma EndTrimmed(s: string)
    ensures TrimEnd(s) != "" ==> !IsWhitespace(TrimEnd(s)[|TrimEnd(s)| - 1])
  {
  }

  lemma {:induction false} BlankTrims(s: string)
    requires IsBlank(s)
    ensures TrimStart(s) == "" && Trim(s) == ""
  {
    assert s + "" == s;
    TrimStartIgnores(s, "");
  }

  lemma {:induction false} TrimStartKeepsTail(s: string, after: string)
    requires !IsBlank(s)
    ensures TrimStart(s + after) == TrimStart(s) + after
  {
    if IsWhitespace(s[0]) {
      assert (s + after)[1..] == s[1..] + after;
      assert !IsBlank(s[1..]) by {
        var c :| c in s && !IsWhitespace(c);
        assert s == [s[0]] + s[1..];
      }
      TrimStartKeepsTail(s[1..], after);
    }
  }

  function TakeWhile(s: string, p: char -> bool): (r: string)
    ensures r <= s && (forall c | c in r :: p(c)) && (|r| < |s| ==> !p(s[|r|]))
  {
    if s != "" && p(s[0]) then [s[0]] + TakeWhile(s[1..], p) else ""
  }

  function DropWhile(s: string, p: char -> bool): (r: string)
    ensures r == s[|TakeWhile(s, p)|..]
  {
    if s != "" && p(s[0]) then DropWhile(s[1..], p) else s
  }

  predicate IsDigit(c: char) {
    '0' <= c <= '9'
  }

  lemma {:induction false} TakeWhileStops(s: string, stop: char, rest: string, p: char -> bool)
    requires !p(stop)
    ensures TakeWhile(s + [stop] + rest, p) == TakeWhile(s, p)
    ensures DropWhile(s + [stop] + rest, p) == DropWhile(s, p) + [stop] + rest
  {
    var all := s + [stop] + rest;
    if s != "" {
      assert all[1..] == s[1..] + [stop] + rest;
      TakeWhileStops(s[1..], stop, rest, p);
    }
  }

  /** The number a string of digits spells. */
  function Value(digits: string): nat
    requires forall c | c in digits :: IsDigit(c)
  {
    if digits == "" then 0
    else
      var last := digits[|digits| - 1];
      assert last in digits && IsDigit(last);
      Value(digits[..|digits| - 1]) * 10 + (last as int - '0' as int)
  }

  /** `str::parse` of an unsigned integer no larger than `max`, for a string of digits. */
  function Parse(digits: string, max: nat): (r: Option<nat>)
    ensures r.Some? ==> r.value <= max
  {
    if digits == "" || (exists c | c in digits :: !IsDigit(c)) || Value(digits) > max then None
    else Some(Value(digits))
  }

  /** A number as `to_string` prints it. */
  function Decimal(n: nat): (r: string)
    ensures r != "" && forall c | c in r :: IsDigit(c)
  {
    if n < 10 then ['0' + n as char] else Decimal(n / 10) + ['0' + (n % 10) as char]
  }

  lemma {:induction false} DecimalValue(n: nat)
    ensures Value(Decimal(n)) == n
  {
    if n >= 10 {
      DecimalValue(n / 10);
      assert Decimal(n)[..|Decimal(n)| - 1] == Decimal(n / 10);
    }
  }

  function WithoutCarriageReturn(line: string): string {
    if line != "" && line[|line| - 1] == '\r' then line[..|line| - 1] else line
  }

  /** Rust's `str::lines`: split at `\n`, drop one `\r` before it, no line after a final `\n`. */
  function Lines(s: string): seq<string>
    decreases |s|
  {
    if s == "" then []
    else match Find(s, "\n")
      case None => [s]
      case Some(i) => [WithoutCarriageReturn(s[..i])] + Lines(s[i + 1..])
  }

  lemma {:induction false} LinesHaveNoNewline(s: string)
    ensures forall line | line in Lines(s) :: '\n' !in line
    decreases |s|
  {
    if s != "" {
      FindIsLeftmost(s, "\n");
      match Find(s, "\n")
      case None =>
        AbsentBefore(s, '\n', |s|);
        assert s[..|s|] == s;
      case Some(i) =>
        AbsentBefore(s, '\n', i);
        LinesHaveNoNewline(s[i + 1..]);
        assert WithoutCarriageReturn(s[..i]) <= s[..i];
    }
  }
}
