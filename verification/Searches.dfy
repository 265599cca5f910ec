/**
 * Three hand-written searches for an occurrence with legal neighbours: `constructs`,
 * `contains_whole` and `is_named`. Each resumes after the whole needle it just rejected, which
 * can only be right when a needle cannot overlap itself.
 */
module Searches {
  import opened Text

  /** Which neighbours a search looks at, and which characters they must not be. */
  datatype Boundary = Boundary(before: bool, after: bool, identifier: char -> bool)

  predicate Legal(text: string, needle: string, at: nat, b: Boundary)
    requires at + |needle| <= |text|
  {
    var end := at + |needle|;
    && (b.before && at > 0 ==> !b.identifier(text[at - 1]))
    && (b.after && end < |text| ==> !b.identifier(text[end]))
  }

  /** What the searches are for. */
  ghost predicate OccursLegally(text: string, needle: string, b: Boundary) {
    exists at: nat :: OccursAt(text, needle, at) && Legal(text, needle, at, b)
  }

  /** What they compute: the loop from position `from`. */
  function SkipSearch(text: string, needle: string, b: Boundary, from: nat): bool
    requires needle != "" && from <= |text|
    decreases |text| - from
  {
    match FindAt(text, from, needle)
    case None => false
    case Some(start) => Legal(text, needle, start, b) || SkipSearch(text, needle, b, start + |needle|)
  }

  method Constructs(sources: string, needle: string, identifier: char -> bool) returns (found: bool)
    requires needle != ""
    ensures found == SkipSearch(sources, needle, Boundary(true, false, identifier), 0)
  {
    var from := 0;
    while FindAt(sources, from, needle).Some?
      invariant from <= |sources|
      invariant SkipSearch(sources, needle, Boundary(true, false, identifier), 0)
                == SkipSearch(sources, needle, Boundary(true, false, identifier), from)
      decreases |sources| - from
    {
      var start := FindAt(sources, from, needle).value;
      var precededByIdentifier := start > 0 && identifier(sources[start - 1]);
      if !precededByIdentifier {
        return true;
      }
      from := start + |needle|;
    }
    return false;
  }

  method ContainsWhole(haystack: string, needle: string, identifier: char -> bool) returns (found: bool)
    requires needle != ""
    ensures found == SkipSearch(haystack, needle, Boundary(true, true, identifier), 0)
  {
    var from := 0;
    while FindAt(haystack, from, needle).Some?
      invariant from <= |haystack|
      invariant SkipSearch(haystack, needle, Boundary(true, true, identifier), 0)
                == SkipSearch(haystack, needle, Boundary(true, true, identifier), from)
      decreases |haystack| - from
    {
      var start := FindAt(haystack, from, needle).value;
      var end := start + |needle|;
      var beforeOk := start == 0 || !identifier(haystack[start - 1]);
      var afterOk := !(end < |haystack| && identifier(haystack[end]));
      if beforeOk && afterOk {
        return true;
      }
      from := end;
    }
    return false;
  }

  method IsNamed(callers: string, kernel: string, identifier: char -> bool) returns (found: bool)
    ensures found == SkipSearch(callers, PathNeedle(kernel), Boundary(false, true, identifier), 0)
  {
    var needle := PathNeedle(kernel);
    var from := 0;
    while FindAt(callers, from, needle).Some?
      invariant from <= |callers|
      invariant SkipSearch(callers, needle, Boundary(false, true, identifier), 0)
                == SkipSearch(callers, needle, Boundary(false, true, identifier), from)
      decreases |callers| - from
    {
      var start := FindAt(callers, from, needle).value;
      var after := start + |needle|;
      var boundary := after == |callers| || !identifier(callers[after]);
      if boundary {
        return true;
      }
      from := after;
    }
    return false;
  }

  // ---------- Needles that cannot overlap themselves ----------

  /** No proper prefix is also a suffix. */
  ghost predicate BorderFree(needle: string) {
    forall k | 0 < k < |needle| :: needle[..k] != needle[|needle| - k..]
  }

  lemma OverlapIsBorder(text: string, needle: string, p: nat, q: nat)
    requires OccursAt(text, needle, p) && OccursAt(text, needle, q) && p < q < p + |needle|
    ensures var k := p + |needle| - q; needle[..k] == needle[|needle| - k..]
  {
    var k := p + |needle| - q;
    assert needle[..k] == text[q..q + k] by { assert needle == text[q..q + |needle|]; }
    assert needle[|needle| - k..] == text[q..q + k] by { assert needle == text[p..p + |needle|]; }
  }

  lemma NoOverlap(text: string, needle: string, p: nat, q: nat)
    requires BorderFree(needle) && OccursAt(text, needle, p) && OccursAt(text, needle, q) && p < q
    ensures p + |needle| <= q
  {
    if q < p + |needle| {
      OverlapIsBorder(text, needle, p, q);
    }
  }

  ghost predicate OccursLegallyFrom(text: string, needle: string, b: Boundary, from: nat) {
    exists at: nat :: from <= at && OccursAt(text, needle, at) && Legal(text, needle, at, b)
  }

  // ---------- When skipping is harmless ----------

  /** The search from 0 rejects the first match, at `start`, and finds nothing after all of it. */
  lemma OnlyFirstIsTried(text: string, needle: string, b: Boundary, start: nat)
    requires needle != "" && OccursAt(text, needle, start) && !Legal(text, needle, start, b)
    requires forall p | 0 <= p < start :: !OccursAt(text, needle, p)
    requires |text| < start + 2 * |needle|
    ensures !SkipSearch(text, needle, b, 0)
  {
    FindAtIsNext(text, 0, needle);
    FindAtIsNext(text, start + |needle|, needle);
  }

  /** A prefix of length `k` is a suffix too. */
  ghost predicate Border(needle: string, k: nat) {
    0 < k < |needle| && needle[..k] == needle[|needle| - k..]
  }

  /**
   * Over the border the first of two matches can be rejected while the second is legal: the character
   * before the second is no identifier, and either some character is one, to stand before the first,
   * or the one after the first is.
   */
  ghost predicate Harms(needle: string, k: nat, b: Boundary) {
    && Border(needle, k)
    && (b.before ==> !b.identifier(needle[|needle| - k - 1]))
    && ((b.before && exists c :: b.identifier(c)) || (b.after && b.identifier(needle[k])))
  }

  lemma TwoMatches(lead: string, needle: string, k: nat)
    requires Border(needle, k)
    ensures var text := lead + needle[..|needle| - k] + needle;
            OccursAt(text, needle, |lead|) && OccursAt(text, needle, |lead| + |needle| - k)
  {
    var n, text := |needle|, lead + needle[..|needle| - k] + needle;
    assert text[|lead| + n - k..|lead| + n - k + n] == needle;
    assert text[|lead|..|lead| + n] == needle[..n - k] + needle[..k];
    assert needle == needle[..n - k] + needle[n - k..];
  }

  /** Rejected for its left neighbour. */
  lemma MissedBehindLeft(needle: string, k: nat, b: Boundary, x: char) returns (text: string)
    requires Border(needle, k) && b.before && b.identifier(x) && !b.identifier(needle[|needle| - k - 1])
    ensures OccursLegally(text, needle, b) && !SkipSearch(text, needle, b, 0)
  {
    var n := |needle|;
    text := [x] + needle[..n - k] + needle;
    TwoMatches([x], needle, k);
    assert text[n - k] == needle[n - k - 1];
    assert Legal(text, needle, 1 + n - k, b) && !Legal(text, needle, 1, b);
    if OccursAt(text, needle, 0) {
      NoneLikeFirst(text, needle, x, n - k - 1);
    }
    OnlyFirstIsTried(text, needle, b, 1);
  }

  /** A text and its tail can both start with a needle only if the needle is one character over and over. */
  lemma NoneLikeFirst(text: string, needle: string, x: char, j: nat)
    requires OccursAt(text, needle, 0) && OccursAt(text, needle, 1) && text[0] == x && j < |needle|
    ensures needle[j] == x
  {
    assert needle[0] == text[0..|needle|][0] == x;
    if j > 0 {
      NoneLikeFirst(text, needle, x, j - 1);
      assert needle[j] == text[0..|needle|][j] == text[j];
      assert needle[j - 1] == text[1..1 + |needle|][j - 1] == text[j];
    }
  }

  /** Rejected for its right neighbour. */
  lemma MissedBehindRight(needle: string, k: nat, b: Boundary) returns (text: string)
    requires Border(needle, k) && b.after && b.identifier(needle[k])
    requires b.before ==> !b.identifier(needle[|needle| - k - 1])
    ensures OccursLegally(text, needle, b) && !SkipSearch(text, needle, b, 0)
  {
    var n := |needle|;
    text := needle[..n - k] + needle;
    TwoMatches("", needle, k);
    assert "" + needle[..n - k] + needle == text;
    assert text[n - k - 1] == needle[n - k - 1];
    assert text[n] == needle[k];
    assert Legal(text, needle, n - k, b) && !Legal(text, needle, 0, b);
    OnlyFirstIsTried(text, needle, b, 0);
  }

  /** A match that overlaps a rejected one is legal only over a border that harms. */
  lemma HiddenHarms(text: string, needle: string, b: Boundary, p: nat, q: nat)
    requires OccursAt(text, needle, p) && !Legal(text, needle, p, b)
    requires OccursAt(text, needle, q) && Legal(text, needle, q, b) && p < q < p + |needle|
    ensures Harms(needle, p + |needle| - q, b)
  {
    var n, k := |needle|, p + |needle| - q;
    OverlapIsBorder(text, needle, p, q);
    assert text[q - 1] == text[p..p + n][q - 1 - p] == needle[n - k - 1];
    assert text[p + n] == text[q..q + n][k] == needle[k];
  }

  /** The first match is legal, or the next legal one starts after all of it. */
  lemma NextLegal(text: string, needle: string, b: Boundary, from: nat, start: nat)
    requires (forall k: nat :: !Harms(needle, k, b)) && from <= start && OccursAt(text, needle, start)
    requires forall p | from <= p < start :: !OccursAt(text, needle, p)
    requires OccursLegallyFrom(text, needle, b, from) && !Legal(text, needle, start, b)
    ensures OccursLegallyFrom(text, needle, b, start + |needle|)
  {
    var q: nat :| from <= q && OccursAt(text, needle, q) && Legal(text, needle, q, b);
    if q < start + |needle| { HiddenHarms(text, needle, b, start, q); }
  }

  lemma {:induction false} SkippingMissesNone(text: string, needle: string, b: Boundary, from: nat)
    requires needle != "" && from <= |text| && forall k: nat :: !Harms(needle, k, b)
    requires OccursLegallyFrom(text, needle, b, from)
    ensures SkipSearch(text, needle, b, from)
    decreases |text| - from
  {
    FindAtIsNext(text, from, needle);
    match FindAt(text, from, needle)
    case None =>
    case Some(start) =>
      if !Legal(text, needle, start, b) {
        NextLegal(text, needle, b, from, start);
        SkippingMissesNone(text, needle, b, start + |needle|);
      }
  }

  lemma {:induction false} SkippingFindsLegal(text: string, needle: string, b: Boundary, from: nat)
    requires needle != "" && from <= |text| && SkipSearch(text, needle, b, from)
    ensures OccursLegally(text, needle, b)
    decreases |text| - from
  {
    FindAtIsNext(text, from, needle);
    match FindAt(text, from, needle)
    case None =>
    case Some(start) =>
      if !Legal(text, needle, start, b) { SkippingFindsLegal(text, needle, b, start + |needle|); }
  }

  /** The search decides legal occurrence on every text. */
  ghost predicate Exact(needle: string, b: Boundary)
    requires needle != ""
  {
    forall text :: SkipSearch(text, needle, b, 0) <==> OccursLegally(text, needle, b)
  }

  lemma ExactWhenNoBorderHarms(needle: string, b: Boundary)
    requires needle != "" && forall k: nat :: !Harms(needle, k, b)
    ensures Exact(needle, b)
  {
    forall text ensures SkipSearch(text, needle, b, 0) <==> OccursLegally(text, needle, b) {
      if OccursLegally(text, needle, b) { SkippingMissesNone(text, needle, b, 0); }
      if SkipSearch(text, needle, b, 0) { SkippingFindsLegal(text, needle, b, 0); }
    }
  }

  /** With the neighbours it looks at and what it takes for an identifier: exact just when no border harms. */
  lemma ExactExactlyWhenNoBorderHarms(needle: string, b: Boundary)
    requires needle != ""
    ensures Exact(needle, b) <==> forall k: nat :: !Harms(needle, k, b)
  {
    if forall k: nat :: !Harms(needle, k, b) {
      ExactWhenNoBorderHarms(needle, b);
    } else {
      var k: nat :| Harms(needle, k, b);
      if b.after && b.identifier(needle[k]) {
        var text := MissedBehindRight(needle, k, b);
      } else {
        var x :| b.identifier(x);
        var text := MissedBehindLeft(needle, k, b, x);
      }
    }
  }

  /** So a border-free needle is exact whatever an identifier is, and no other needle is. */
  lemma ExactForAllIdentifiersExactlyWhenBorderFree(needle: string, before: bool, after: bool)
    requires needle != "" && (before || after)
    ensures (forall identifier :: Exact(needle, Boundary(before, after, identifier))) <==> BorderFree(needle)
  {
    if BorderFree(needle) {
      forall identifier ensures Exact(needle, Boundary(before, after, identifier)) {
        ExactWhenNoBorderHarms(needle, Boundary(before, after, identifier));
      }
    } else {
      var k :| 0 < k < |needle| && needle[..k] == needle[|needle| - k..];
      var last := needle[|needle| - k - 1];
      var other := if last == 'a' then 'b' else 'a';
      var b := Boundary(before, after, if before then c => c != last else c => true);
      assert b.identifier(other) && Harms(needle, k, b);
      ExactExactlyWhenNoBorderHarms(needle, b);
    }
  }

  /** Over a needle that cannot overlap itself, resuming past a rejected match misses nothing. */
  lemma SkippingIsExact(text: string, needle: string, b: Boundary)
    requires needle != "" && BorderFree(needle)
    ensures SkipSearch(text, needle, b, 0) <==> OccursLegally(text, needle, b)
  {
    ExactWhenNoBorderHarms(needle, b);
  }

  // ---------- The needles the checks build ----------

  /** `Error::Variant(` and `Error::Variant {`. */
  function CallNeedle(variant: string): string { "Error::" + variant + "(" }
  function StructNeedle(variant: string): string { "Error::" + variant + " {" }

  /** `%field`, `?field` and `field =`. */
  function DisplayNeedle(field: string): string { "%" + field }
  function DebugNeedle(field: string): string { "?" + field }
  function AssignNeedle(field: string): string { field + " =" }

  /** `::kernel`. */
  function PathNeedle(kernel: string): string { "::" + kernel }

  lemma LastCharacterOnce(needle: string)
    requires needle != "" && needle[|needle| - 1] !in needle[..|needle| - 1]
    ensures BorderFree(needle)
  {
    var n := |needle|;
    forall k | 0 < k < n ensures needle[..k] != needle[n - k..] {
      assert needle[..n - 1][k - 1] == needle[..k][k - 1];
      assert needle[n - k..][k - 1] == needle[n - 1];
    }
  }

  lemma FirstCharacterOnce(needle: string)
    requires needle != "" && needle[0] !in needle[1..]
    ensures BorderFree(needle)
  {
    var n := |needle|;
    forall k | 0 < k < n ensures needle[..k] != needle[n - k..] {
      assert needle[1..][n - k - 1] == needle[n - k..][0];
      assert needle[..k][0] == needle[0];
    }
  }

  /** A site constructs the variant exactly when one of the two spellings occurs, not inside a longer name. */
  lemma ConstructorSearchIsExact(sources: string, variant: string, identifier: char -> bool)
    requires '(' !in variant && '{' !in variant
    ensures var b := Boundary(true, false, identifier);
            && (SkipSearch(sources, CallNeedle(variant), b, 0) <==> OccursLegally(sources, CallNeedle(variant), b))
            && (SkipSearch(sources, StructNeedle(variant), b, 0) <==> OccursLegally(sources, StructNeedle(variant), b))
  {
    var call, braced := CallNeedle(variant), StructNeedle(variant);
    assert call[..|call| - 1] == "Error::" + variant;
    assert braced[..|braced| - 1] == "Error::" + variant + " ";
    LastCharacterOnce(call);
    LastCharacterOnce(braced);
    SkippingIsExact(sources, call, Boundary(true, false, identifier));
    SkippingIsExact(sources, braced, Boundary(true, false, identifier));
  }

  predicate Recorded(line: string, field: string, identifier: char -> bool) {
    var b := Boundary(true, true, identifier);
    || SkipSearch(line, DisplayNeedle(field), b, 0)
    || SkipSearch(line, DebugNeedle(field), b, 0)
    || SkipSearch(line, AssignNeedle(field), b, 0)
  }

  ghost predicate Carries(line: string, field: string, identifier: char -> bool) {
    var b := Boundary(true, true, identifier);
    || OccursLegally(line, DisplayNeedle(field), b)
    || OccursLegally(line, DebugNeedle(field), b)
    || OccursLegally(line, AssignNeedle(field), b)
  }

  /** A field is recorded exactly when one of the three spellings occurs as a whole word. */
  lemma FieldSearchIsExact(line: string, field: string, identifier: char -> bool)
    requires '%' !in field && '?' !in field && '=' !in field
    ensures Recorded(line, field, identifier) <==> Carries(line, field, identifier)
  {
    var display, debug, named := DisplayNeedle(field), DebugNeedle(field), AssignNeedle(field);
    assert display[1..] == field && debug[1..] == field;
    assert named[..|named| - 1] == field + " ";
    FirstCharacterOnce(display);
    FirstCharacterOnce(debug);
    LastCharacterOnce(named);
    SkippingIsExact(line, display, Boundary(true, true, identifier));
    SkippingIsExact(line, debug, Boundary(true, true, identifier));
    SkippingIsExact(line, named, Boundary(true, true, identifier));
  }

  lemma PathIsBorderFree(kernel: string)
    requires kernel != "" && ':' !in kernel
    ensures BorderFree(PathNeedle(kernel))
  {
    var needle := PathNeedle(kernel);
    var n := |needle|;
    assert needle[2..] == kernel;
    forall k | 0 < k < n ensures needle[..k] != needle[n - k..] {
      if n - k >= 2 {
        assert needle[n - k..][0] == needle[2..][n - k - 2];
        assert needle[..k][0] == ':';
      } else {
        assert needle[n - k..][1] == kernel[0];
        assert needle[..k][1] == ':';
      }
    }
  }

  /** A kernel is reached exactly when some caller names it as the last segment of a path. */
  lemma PathSearchIsExact(callers: string, kernel: string, identifier: char -> bool)
    requires kernel != "" && ':' !in kernel
    ensures var b := Boundary(false, true, identifier);
            SkipSearch(callers, PathNeedle(kernel), b, 0) <==> OccursLegally(callers, PathNeedle(kernel), b)
  {
    PathIsBorderFree(kernel);
    SkippingIsExact(callers, PathNeedle(kernel), Boundary(false, true, identifier));
  }

  // ---------- The log-field check ----------

  function Filter(fields: seq<string>, line: string, identifier: char -> bool): seq<string> {
    if fields == [] then []
    else
      (if Recorded(line, fields[0], identifier) then [fields[0]] else [])
      + Filter(fields[1..], line, identifier)
  }

  function LoggedFields(line: string, macros: seq<string>, fields: seq<string>, identifier: char -> bool): seq<string> {
    if !exists m | m in macros :: Contains(line, m) then []
    else Filter(fields, line, identifier)
  }

  lemma {:induction false} FilterMeaning(fields: seq<string>, line: string, identifier: char -> bool)
    ensures forall f :: f in Filter(fields, line, identifier) <==> f in fields && Recorded(line, f, identifier)
  {
    if fields != [] {
      FilterMeaning(fields[1..], line, identifier);
      assert forall f :: f in fields <==> f == fields[0] || f in fields[1..];
    }
  }

  /** A line leaks a field exactly when it logs and spells the field whole in one of three ways. */
  lemma LoggedFieldsIsExact(line: string, macros: seq<string>, fields: seq<string>, field: string,
                            identifier: char -> bool)
    requires '%' !in field && '?' !in field && '=' !in field
    ensures field in LoggedFields(line, macros, fields, identifier)
            <==> && field in fields
                 && (exists m :: m in macros && exists at :: OccursAt(line, m, at))
                 && Carries(line, field, identifier)
  {
    FilterMeaning(fields, line, identifier);
    FieldSearchIsExact(line, field, identifier);
    forall m ensures Contains(line, m) <==> exists at :: OccursAt(line, m, at) {
      FindIsLeftmost(line, m);
    }
  }

  // ---------- Legal occurrence, on the text ----------

  /** The needle between two texts, neither joined to it by an identifier character where the search looks. */
  ghost predicate StandsIn(text: string, before: string, needle: string, after: string, b: Boundary) {
    && text == before + needle + after
    && (b.before && before != "" ==> !b.identifier(before[|before| - 1]))
    && (b.after && after != "" ==> !b.identifier(after[0]))
  }

  lemma LegalIsStanding(text: string, needle: string, b: Boundary)
    ensures OccursLegally(text, needle, b) <==> exists before, after :: StandsIn(text, before, needle, after, b)
  {
    if at: nat :| OccursAt(text, needle, at) && Legal(text, needle, at, b) {
      Pieces(text, needle, at);
      assert StandsIn(text, text[..at], needle, text[at + |needle|..], b);
    }
    if before, after :| StandsIn(text, before, needle, after, b) {
      StandsAt(text, before, needle, after);
      assert Legal(text, needle, |before|, b);
    }
  }

  lemma Pieces(text: string, needle: string, at: nat)
    requires OccursAt(text, needle, at)
    ensures text == text[..at] + needle + text[at + |needle|..]
  {
  }

  lemma StandsAt(text: string, before: string, needle: string, after: string)
    requires text == before + needle + after
    ensures OccursAt(text, needle, |before|)
  {
  }

  /** The path search, on the text: two colons and the name, and after it no identifier character. */
  lemma PathIsNamedExactlyWhen(callers: string, kernel: string, identifier: char -> bool)
    requires kernel != "" && ':' !in kernel
    ensures SkipSearch(callers, PathNeedle(kernel), Boundary(false, true, identifier), 0)
            <==> exists before, after :: EndsPath(callers, before, kernel, after, identifier)
  {
    PathSearchIsExact(callers, kernel, identifier);
    LegalIsStanding(callers, PathNeedle(kernel), Boundary(false, true, identifier));
    forall before, after
      ensures StandsIn(callers, before, PathNeedle(kernel), after, Boundary(false, true, identifier))
              <==> EndsPath(callers, before, kernel, after, identifier) {}
  }

  ghost predicate EndsPath(callers: string, before: string, kernel: string, after: string, identifier: char -> bool) {
    callers == before + ("::" + kernel) + after && (after == "" || !identifier(after[0]))
  }

  /** The needle stands in the line with no identifier character on either side. */
  ghost predicate Whole(line: string, needle: string, identifier: char -> bool) {
    exists before, after :: IsWhole(line, before, needle, after, identifier)
  }

  ghost predicate IsWhole(line: string, before: string, needle: string, after: string, identifier: char -> bool) {
    && line == before + needle + after
    && (before == "" || !identifier(before[|before| - 1])) && (after == "" || !identifier(after[0]))
  }

  lemma WholeIsLegal(line: string, needle: string, identifier: char -> bool)
    ensures OccursLegally(line, needle, Boundary(true, true, identifier)) <==> Whole(line, needle, identifier)
  {
    LegalIsStanding(line, needle, Boundary(true, true, identifier));
    forall before, after
      ensures StandsIn(line, before, needle, after, Boundary(true, true, identifier))
              <==> IsWhole(line, before, needle, after, identifier) {}
  }

  /** The field search, on the text: one of three spellings, whole. */
  lemma FieldIsRecordedExactlyWhen(line: string, field: string, identifier: char -> bool)
    requires '%' !in field && '?' !in field && '=' !in field
    ensures Recorded(line, field, identifier)
            <==> || Whole(line, "%" + field, identifier) || Whole(line, "?" + field, identifier)
                 || Whole(line, field + " =", identifier)
  {
    FieldSearchIsExact(line, field, identifier);
    WholeIsLegal(line, "%" + field, identifier);
    WholeIsLegal(line, "?" + field, identifier);
    WholeIsLegal(line, field + " =", identifier);
  }
}
