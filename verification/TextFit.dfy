/** The deck's text metrics: greedy wrapping, text height, and the largest size that fits a box. */
module TextFit {
  import opened Text

  // ---------- Words ----------

  /** What Python's `str.split()` splits at. */
  predicate IsSpace(c: char) {
    IsWhitespace(c) || '\U{1C}' <= c <= '\U{1F}'
  }

  /** The words `split()` returns; `word` is the one being read. */
  function WordsFrom(text: string, word: string): (words: seq<string>)
    ensures word != "" ==> words != []
  {
    if text == "" then
      if word == "" then [] else [word]
    else if IsSpace(text[0]) then
      (if word == "" then [] else [word]) + WordsFrom(text[1..], "")
    else
      WordsFrom(text[1..], word + [text[0]])
  }

  function Words(text: string): seq<string> {
    WordsFrom(text, "")
  }

  function Lengths(words: seq<string>): (lengths: seq<nat>)
    ensures |lengths| == |words| && forall k | 0 <= k < |words| :: lengths[k] == |words[k]|
  {
    seq(|words|, k requires 0 <= k < |words| => |words[k]|)
  }

  ghost predicate AllSpace(s: string) {
    forall c | c in s :: IsSpace(c)
  }

  ghost predicate IsWord(s: string) {
    s != "" && forall c | c in s :: !IsSpace(c)
  }

  /** The text is a gap, then a word up to the next space, and so on to the end. */
  ghost predicate SplitsInto(text: string, words: seq<string>)
    decreases |words|
  {
    if words == [] then AllSpace(text)
    else exists gap, rest :: StartsWith(text, gap, words[0], rest) && SplitsInto(rest, words[1..])
  }

  ghost predicate StartsWith(text: string, gap: string, word: string, rest: string) {
    text == gap + word + rest && AllSpace(gap) && IsWord(word) && (rest != "" ==> IsSpace(rest[0]))
  }

  lemma SpaceBefore(c: char, text: string, words: seq<string>)
    requires IsSpace(c) && SplitsInto(text, words)
    ensures SplitsInto([c] + text, words)
  {
    if words != [] {
      var gap, rest :| StartsWith(text, gap, words[0], rest) && SplitsInto(rest, words[1..]);
      assert [c] + text == ([c] + gap) + words[0] + rest;
      assert StartsWith([c] + text, [c] + gap, words[0], rest);
    }
  }

  lemma WordBefore(word: string, text: string, words: seq<string>)
    requires IsWord(word) && (text != "" ==> IsSpace(text[0])) && SplitsInto(text, words)
    ensures SplitsInto(word + text, [word] + words)
  {
    assert word + text == "" + word + text && ([word] + words)[1..] == words;
    assert StartsWith(word + text, "", ([word] + words)[0], text);
  }

  lemma SplitAtEnd(word: string)
    requires word != "" ==> IsWord(word)
    ensures SplitsInto(word, WordsFrom("", word))
  {
    if word != "" {
      WordBefore(word, "", []);
      assert word + "" == word && [word] + [] == [word];
    }
  }

  lemma SplitAtSpace(text: string, word: string)
    requires (word != "" ==> IsWord(word)) && text != "" && IsSpace(text[0])
    requires SplitsInto(text[1..], WordsFrom(text[1..], ""))
    ensures SplitsInto(word + text, WordsFrom(text, word))
  {
    var words := WordsFrom(text[1..], "");
    SpaceBefore(text[0], text[1..], words);
    assert [text[0]] + text[1..] == text;
    if word != "" {
      WordBefore(word, text, words);
    } else {
      assert word + text == text && [] + words == words;
    }
  }

  lemma {:induction false} WordsFromSplit(text: string, word: string)
    requires word != "" ==> IsWord(word)
    ensures SplitsInto(word + text, WordsFrom(text, word))
    decreases |text|
  {
    if text == "" {
      SplitAtEnd(word);
      assert word + text == word;
    } else if IsSpace(text[0]) {
      WordsFromSplit(text[1..], "");
      assert "" + text[1..] == text[1..];
      SplitAtSpace(text, word);
    } else {
      WordsFromSplit(text[1..], word + [text[0]]);
      assert word + [text[0]] + text[1..] == word + text;
    }
  }

  /** The words are the text's stretches without spaces, each as long as it can be, in order. */
  lemma WordsAreTheStretches(text: string)
    ensures SplitsInto(text, Words(text))
  {
    WordsFromSplit(text, "");
    assert "" + text == text;
  }

  lemma {:induction false} SplitsIntoWords(text: string, words: seq<string>)
    requires SplitsInto(text, words)
    ensures forall w | w in words :: IsWord(w)
    decreases |words|
  {
    if words != [] {
      var gap, rest :| StartsWith(text, gap, words[0], rest) && SplitsInto(rest, words[1..]);
      SplitsIntoWords(rest, words[1..]);
    }
  }

  /** How many characters of a text are not spaces. */
  function Inked(text: string): nat {
    if text == "" then 0 else (if IsSpace(text[0]) then 0 else 1) + Inked(text[1..])
  }

  lemma SumCons(n: nat, lengths: seq<nat>)
    ensures Sum([n] + lengths) == n + Sum(lengths)
    decreases |lengths|
  {
    if lengths != [] {
      var before := lengths[..|lengths| - 1];
      assert ([n] + lengths)[..|lengths|] == [n] + before;
      SumCons(n, before);
    } else {
      assert ([n] + lengths)[..0] == [];
    }
  }

  /** No character of a word is lost or counted twice. */
  lemma {:induction false} WordsHoldAllInk(text: string, word: string)
    ensures Sum(Lengths(WordsFrom(text, word))) == |word| + Inked(text)
    decreases |text|
  {
    if text == "" {
      if word != "" {
        assert Lengths([word]) == [|word|];
        SumCons(|word|, []);
        assert [|word|] + [] == [|word|];
      }
    } else if IsSpace(text[0]) {
      WordsHoldAllInk(text[1..], "");
      if word != "" {
        assert Lengths([word] + WordsFrom(text[1..], "")) == [|word|] + Lengths(WordsFrom(text[1..], ""));
        SumCons(|word|, Lengths(WordsFrom(text[1..], "")));
      } else {
        assert [] + WordsFrom(text[1..], "") == WordsFrom(text[1..], "");
      }
    } else {
      WordsHoldAllInk(text[1..], word + [text[0]]);
    }
  }

  // ---------- Greedy wrapping ----------

  /** How far a layout has got: lines used, and characters on the last. */
  datatype Position = Position(lines: nat, cur: nat)

  /** A token longer than a line runs over onto more of them. */
  function Spill(lines: nat, cur: nat, cpl: nat): Position
    requires cpl > 0
    decreases cur
  {
    if cur > cpl then Spill(lines + 1, cur - cpl, cpl) else Position(lines, cur)
  }

  function Need(cur: nat, length: nat): nat {
    length + if cur > 0 then 1 else 0
  }

  function Place(p: Position, length: nat, cpl: nat): Position
    requires cpl > 0
  {
    if p.cur + Need(p.cur, length) > cpl then Spill(p.lines + 1, length, cpl)
    else Position(p.lines, p.cur + Need(p.cur, length))
  }

  function Layout(lengths: seq<nat>, cpl: nat): Position
    requires cpl > 0
  {
    if lengths == [] then Position(1, 0)
    else Place(Layout(lengths[..|lengths| - 1], cpl), lengths[|lengths| - 1], cpl)
  }

  lemma LayoutNext(lengths: seq<nat>, k: nat, cpl: nat)
    requires cpl > 0 && k < |lengths|
    ensures Layout(lengths[..k + 1], cpl) == Place(Layout(lengths[..k], cpl), lengths[k], cpl)
  {
    assert lengths[..k + 1][..k] == lengths[..k];
  }

  /** The wrapping loop of `est_lines`. */
  method Wrap(lengths: seq<nat>, cpl: nat) returns (lines: nat)
    requires cpl > 0
    ensures lines == Layout(lengths, cpl).lines
  {
    lines := 1;
    var cur: nat := 0;
    for k := 0 to |lengths|
      invariant Position(lines, cur) == Layout(lengths[..k], cpl)
    {
      LayoutNext(lengths, k, cpl);
      var need := Need(cur, lengths[k]);
      if cur + need > cpl {
        lines := lines + 1;
        cur := lengths[k];
        ghost var spilt := Spill(lines, cur, cpl);
        while cur > cpl
          invariant Spill(lines, cur, cpl) == spilt
        {
          lines := lines + 1;
          cur := cur - cpl;
        }
      } else {
        cur := cur + need;
      }
    }
    assert lengths[..|lengths|] == lengths;
  }

  // ---------- Wider lines never need more of them ----------

  ghost predicate NotPast(p: Position, q: Position) {
    p.lines < q.lines || (p.lines == q.lines && p.cur <= q.cur)
  }

  lemma {:induction false} SpillGrows(lines: nat, cur: nat, cpl: nat)
    requires cpl > 0
    ensures Spill(lines, cur, cpl).lines >= lines + if cur > cpl then 1 else 0
    ensures Spill(lines, cur, cpl).cur <= cpl
    ensures cur > 0 ==> Spill(lines, cur, cpl).cur > 0
    decreases cur
  {
    if cur > cpl { SpillGrows(lines + 1, cur - cpl, cpl); }
  }

  lemma {:induction false} SpillMonotone(p: Position, wide: nat, q: Position, narrow: nat)
    requires 0 < narrow <= wide && p.lines <= q.lines && p.cur <= q.cur
    ensures NotPast(Spill(p.lines, p.cur, wide), Spill(q.lines, q.cur, narrow))
    decreases p.cur
  {
    if p.cur > wide {
      SpillMonotone(Position(p.lines + 1, p.cur - wide), wide, Position(q.lines + 1, q.cur - narrow), narrow);
    } else {
      SpillGrows(q.lines, q.cur, narrow);
    }
  }

  lemma PlaceMonotone(p: Position, wide: nat, q: Position, narrow: nat, length: nat)
    requires 0 < narrow <= wide && NotPast(p, q)
    ensures NotPast(Place(p, length, wide), Place(q, length, narrow))
  {
    SpillGrows(q.lines + 1, length, narrow);
    if p.lines <= q.lines {
      SpillMonotone(Position(p.lines + 1, length), wide, Position(q.lines + 1, length), narrow);
    }
  }

  /** For every text, tokens longer than a line included. */
  lemma {:induction false} LayoutMonotone(lengths: seq<nat>, wide: nat, narrow: nat)
    requires 0 < narrow <= wide
    ensures NotPast(Layout(lengths, wide), Layout(lengths, narrow))
  {
    if lengths != [] {
      var before := lengths[..|lengths| - 1];
      LayoutMonotone(before, wide, narrow);
      PlaceMonotone(Layout(before, wide), wide, Layout(before, narrow), narrow, lengths[|lengths| - 1]);
    }
  }

  // ---------- Greedy wrapping is optimal ----------

  function Sum(lengths: seq<nat>): nat {
    if lengths == [] then 0 else Sum(lengths[..|lengths| - 1]) + lengths[|lengths| - 1]
  }

  /** The characters a line of words takes, single spaces between them. */
  function Width(line: seq<nat>): nat {
    if |line| <= 1 then Sum(line) else Width(line[..|line| - 1]) + 1 + line[|line| - 1]
  }

  function Flatten(lines: seq<seq<nat>>): seq<nat> {
    if lines == [] then [] else Flatten(lines[..|lines| - 1]) + lines[|lines| - 1]
  }

  /** A way of breaking the words over lines, in order, each line holding some and fitting. */
  ghost predicate Breaks(lines: seq<seq<nat>>, lengths: seq<nat>, cpl: nat) {
    && (forall line | line in lines :: line != [] && Width(line) <= cpl)
    && Flatten(lines) == lengths
  }

  ghost predicate AllFit(lengths: seq<nat>, cpl: nat) {
    forall n | n in lengths :: 0 < n <= cpl
  }

  lemma {:induction false} BreaksNonempty(lines: seq<seq<nat>>, lengths: seq<nat>, cpl: nat)
    requires Breaks(lines, lengths, cpl)
    ensures lines == [] <==> lengths == []
  {
    if lines != [] {
      assert lines[|lines| - 1] in lines;
    }
  }

  lemma DropWord(lines: seq<seq<nat>>, lengths: seq<nat>, cpl: nat) returns (fewer: seq<seq<nat>>)
    requires Breaks(lines, lengths, cpl) && lengths != [] && lines != []
    ensures Breaks(fewer, lengths[..|lengths| - 1], cpl)
    ensures var last, word := lines[|lines| - 1], lengths[|lengths| - 1];
            if |last| == 1 then
              |fewer| == |lines| - 1 && Width(last) == word
            else
              && |fewer| == |lines| && |last| > 1
              && Width(last) == Width(fewer[|fewer| - 1]) + 1 + word
  {
    var m := |lines| - 1;
    var last := lines[m];
    assert last in lines;
    var short := last[..|last| - 1];
    assert last == short + [last[|last| - 1]];
    assert lengths == Flatten(lines[..m]) + short + [last[|last| - 1]];
    assert lengths[..|lengths| - 1] == Flatten(lines[..m]) + short;
    assert forall line | line in lines[..m] :: line in lines;
    if |last| == 1 {
      fewer := lines[..m];
      assert short == [];
      assert Sum(last) == Sum(last[..0]) + last[0];
    } else {
      fewer := lines[..m] + [short];
      assert fewer[..m] == lines[..m];
      assert Width(last) == Width(short) + 1 + last[|last| - 1];
    }
  }

  lemma {:induction false} GreedyIsAhead(lines: seq<seq<nat>>, lengths: seq<nat>, cpl: nat)
    requires cpl > 0 && AllFit(lengths, cpl) && lengths != [] && Breaks(lines, lengths, cpl)
    ensures lines != []
    ensures NotPast(Layout(lengths, cpl), Position(|lines|, Width(lines[|lines| - 1])))
    decreases |lengths|
  {
    BreaksNonempty(lines, lengths, cpl);
    var word := lengths[|lengths| - 1];
    var before := lengths[..|lengths| - 1];
    assert word in lengths;
    assert forall n | n in before :: n in lengths;
    var fewer := DropWord(lines, lengths, cpl);
    BreaksNonempty(fewer, before, cpl);
    assert lines[|lines| - 1] in lines;
    if before != [] {
      GreedyIsAhead(fewer, before, cpl);
      LayoutIsOnALine(before, cpl);
    }
  }

  lemma {:induction false} LayoutIsOnALine(lengths: seq<nat>, cpl: nat)
    requires cpl > 0 && forall n | n in lengths :: n > 0
    ensures Layout(lengths, cpl).lines >= 1
    ensures Layout(lengths, cpl).cur <= cpl && (lengths != [] ==> Layout(lengths, cpl).cur > 0)
  {
    if lengths != [] {
      var before := lengths[..|lengths| - 1];
      assert lengths[|lengths| - 1] in lengths;
      assert forall n | n in before :: n in lengths;
      LayoutIsOnALine(before, cpl);
      SpillGrows(Layout(before, cpl).lines + 1, lengths[|lengths| - 1], cpl);
    }
  }

  lemma OneWordLine(word: nat)
    ensures Width([word]) == word && Flatten([[word]]) == [word]
  {
    assert [word][..0] == [] && [[word]][..0] == [];
    assert Sum([word]) == Sum([]) + word;
    assert Flatten([[word]]) == Flatten([]) + [word];
  }

  lemma AddLine(lines: seq<seq<nat>>, lengths: seq<nat>, cpl: nat, word: nat)
    requires Breaks(lines, lengths, cpl) && word <= cpl
    ensures Breaks(lines + [[word]], lengths + [word], cpl) && Width([word]) == word
  {
    OneWordLine(word);
    assert (lines + [[word]])[..|lines|] == lines;
  }

  lemma ExtendLine(lines: seq<seq<nat>>, lengths: seq<nat>, cpl: nat, word: nat)
    requires Breaks(lines, lengths, cpl) && lines != []
    requires Width(lines[|lines| - 1]) + 1 + word <= cpl
    ensures var m := |lines| - 1;
            var last := lines[m] + [word];
            Breaks(lines[..m] + [last], lengths + [word], cpl) && Width(last) == Width(lines[m]) + 1 + word
  {
    var m := |lines| - 1;
    var last := lines[m] + [word];
    assert lines[m] in lines && last[..|lines[m]|] == lines[m];
    assert (lines[..m] + [last])[..m] == lines[..m];
    assert Flatten(lines[..m]) + last == lengths + [word];
    forall line | line in lines[..m] + [last] ensures line != [] && Width(line) <= cpl {
      assert line == last || line in lines;
    }
  }

  /** `p` is where the last of the lines ends. */
  ghost predicate EndsAt(lines: seq<seq<nat>>, p: Position) {
    lines != [] && p == Position(|lines|, Width(lines[|lines| - 1]))
  }

  lemma GreedyStep(prior: seq<seq<nat>>, before: seq<nat>, p: Position, cpl: nat, word: nat)
      returns (lines: seq<seq<nat>>)
    requires 0 < word <= cpl && p.cur > 0 && Breaks(prior, before, cpl) && EndsAt(prior, p)
    ensures Breaks(lines, before + [word], cpl) && EndsAt(lines, Place(p, word, cpl))
  {
    if p.cur + 1 + word > cpl {
      AddLine(prior, before, cpl, word);
      lines := prior + [[word]];
    } else {
      ExtendLine(prior, before, cpl, word);
      lines := prior[..|prior| - 1] + [prior[|prior| - 1] + [word]];
    }
  }

  /** The breaking the greedy loop follows. */
  lemma {:induction false} GreedyBreaking(lengths: seq<nat>, cpl: nat) returns (lines: seq<seq<nat>>)
    requires cpl > 0 && AllFit(lengths, cpl) && lengths != []
    ensures Breaks(lines, lengths, cpl) && EndsAt(lines, Layout(lengths, cpl))
  {
    var word := lengths[|lengths| - 1];
    var before := lengths[..|lengths| - 1];
    assert word in lengths && lengths == before + [word];
    if before == [] {
      AddLine([], [], cpl, word);
      lines := [] + [[word]];
    } else {
      assert forall n | n in before :: n in lengths;
      var prior := GreedyBreaking(before, cpl);
      LayoutIsOnALine(before, cpl);
      lines := GreedyStep(prior, before, Layout(before, cpl), cpl, word);
    }
  }

  /** Where every word fits on a line, the estimate is the fewest lines any breaking takes. */
  lemma GreedyIsOptimal(lengths: seq<nat>, cpl: nat)
    requires cpl > 0 && AllFit(lengths, cpl) && lengths != []
    ensures exists lines :: Breaks(lines, lengths, cpl) && |lines| == Layout(lengths, cpl).lines
    ensures forall lines | Breaks(lines, lengths, cpl) :: Layout(lengths, cpl).lines <= |lines|
  {
    var greedy := GreedyBreaking(lengths, cpl);
    forall lines | Breaks(lines, lengths, cpl) ensures Layout(lengths, cpl).lines <= |lines| {
      GreedyIsAhead(lines, lengths, cpl);
    }
  }

  // ---------- The estimate never loses characters ----------

  lemma {:induction false} SpillKeeps(lines: nat, cur: nat, cpl: nat)
    requires cpl > 0
    ensures var p := Spill(lines, cur, cpl); p.lines * cpl + p.cur == lines * cpl + cur
    decreases cur
  {
    if cur > cpl {
      SpillKeeps(lines + 1, cur - cpl, cpl);
      assert (lines + 1) * cpl == lines * cpl + cpl;
    }
  }

  lemma PlaceHolds(p: Position, length: nat, cpl: nat)
    requires cpl > 0 && p.cur <= cpl
    ensures var q := Place(p, length, cpl);
            q.cur <= cpl && p.lines * cpl + p.cur + length <= q.lines * cpl + q.cur
  {
    SpillKeeps(p.lines + 1, length, cpl);
    SpillGrows(p.lines + 1, length, cpl);
    assert (p.lines + 1) * cpl == p.lines * cpl + cpl;
  }

  lemma {:induction false} LayoutHolds(lengths: seq<nat>, cpl: nat)
    requires cpl > 0
    ensures var p := Layout(lengths, cpl);
            p.cur <= cpl && Sum(lengths) + cpl <= p.lines * cpl + p.cur
  {
    if lengths != [] {
      LayoutHolds(lengths[..|lengths| - 1], cpl);
      PlaceHolds(Layout(lengths[..|lengths| - 1], cpl), lengths[|lengths| - 1], cpl);
    }
  }

  /** For every text: its words' characters fit on the lines estimated. */
  lemma CharactersFit(lengths: seq<nat>, cpl: nat)
    requires cpl > 0
    ensures Sum(lengths) <= Layout(lengths, cpl).lines * cpl
  {
    LayoutHolds(lengths, cpl);
  }

  // ---------- Tokens longer than a line ----------

  /** A token put on new lines takes as many as hold it. */
  lemma {:induction false} SpillTakes(lines: nat, cur: nat, cpl: nat)
    requires cpl > 0 && cur > 0
    ensures Spill(lines, cur, cpl).lines == lines + (cur - 1) / cpl
    decreases cur
  {
    if cur > cpl {
      SpillTakes(lines + 1, cur - cpl, cpl);
      OneMoreLine(cur - 1, cpl);
    } else {
      SmallQuotient(cur - 1, cpl);
    }
  }

  lemma OneMoreLine(n: nat, cpl: nat)
    requires n >= cpl > 0
    ensures n / cpl == (n - cpl) / cpl + 1
  {
    var q := (n - cpl) / cpl;
    assert (q + 1) * cpl == q * cpl + cpl;
    QuotientIs(n, cpl, q + 1);
  }

  lemma QuotientIs(n: nat, cpl: nat, q: nat)
    requires cpl > 0 && q * cpl <= n < q * cpl + cpl
    ensures n / cpl == q
  {
    var other := n / cpl;
    assert other * cpl <= n < other * cpl + cpl;
    if other < q { WholeLines(other, q, cpl); }
    if q < other { WholeLines(q, other, cpl); }
  }

  lemma WholeLines(few: nat, many: nat, cpl: nat)
    requires few < many
    ensures few * cpl + cpl <= many * cpl
  {
    assert (many - few - 1) * cpl >= 0;
    assert many * cpl == few * cpl + cpl + (many - few - 1) * cpl;
  }

  lemma SmallQuotient(n: nat, cpl: nat)
    requires n < cpl
    ensures n / cpl == 0
  {
  }

  lemma LongWordTakes(lengths: seq<nat>, length: nat, cpl: nat)
    requires 0 < cpl < length
    ensures Layout(lengths + [length], cpl).lines == Layout(lengths, cpl).lines + (length + cpl - 1) / cpl
  {
    assert (lengths + [length])[..|lengths|] == lengths;
    SpillTakes(Layout(lengths, cpl).lines + 1, length, cpl);
    OneMoreLine(length + cpl - 1, cpl);
  }

  /** The pieces a token is cut into, and all the tokens of a text: whole lines and what is left. */
  function Cut(length: nat, cpl: nat): seq<nat>
    requires cpl > 0
    decreases length
  {
    if length <= cpl then [length] else [cpl] + Cut(length - cpl, cpl)
  }

  function CutAll(lengths: seq<nat>, cpl: nat): seq<nat>
    requires cpl > 0
  {
    if lengths == [] then [] else CutAll(lengths[..|lengths| - 1], cpl) + Cut(lengths[|lengths| - 1], cpl)
  }

  /** Lines that hold the pieces in order and fit; only the first may be empty. */
  ghost predicate Holds(lines: seq<seq<nat>>, pieces: seq<nat>, cpl: nat) {
    && (forall line | line in lines :: Width(line) <= cpl)
    && (forall k | 0 < k < |lines| :: lines[k] != [])
    && Flatten(lines) == pieces
  }

  ghost predicate Positive(pieces: seq<nat>) {
    forall n | n in pieces :: n > 0
  }

  /** One piece on a line of its own. */
  lemma HoldsNewLine(lines: seq<seq<nat>>, pieces: seq<nat>, cpl: nat, piece: nat)
    requires Holds(lines, pieces, cpl) && piece <= cpl
    ensures Holds(lines + [[piece]], pieces + [piece], cpl)
    ensures EndsAt(lines + [[piece]], Position(|lines| + 1, piece))
  {
    OneWordLine(piece);
    assert (lines + [[piece]])[..|lines|] == lines;
  }

  /** One more piece on the last line, after a space unless the line is empty. */
  lemma HoldsMore(lines: seq<seq<nat>>, pieces: seq<nat>, cpl: nat, piece: nat)
    requires Holds(lines, pieces, cpl) && lines != []
    requires var last := lines[|lines| - 1];
             Width(last) + (if last == [] then 0 else 1) + piece <= cpl
    ensures var m := |lines| - 1;
            var last := lines[m] + [piece];
            && Holds(lines[..m] + [last], pieces + [piece], cpl)
            && EndsAt(lines[..m] + [last],
                      Position(|lines|, Width(lines[m]) + (if lines[m] == [] then 0 else 1) + piece))
  {
    var m := |lines| - 1;
    var last := lines[m] + [piece];
    WiderByAPiece(lines[m], piece);
    assert (lines[..m] + [last])[..m] == lines[..m];
    assert Flatten(lines[..m]) + last == pieces + [piece];
    forall line | line in lines[..m] + [last] ensures Width(line) <= cpl {
      assert line == last || line in lines;
    }
  }

  lemma WiderByAPiece(line: seq<nat>, piece: nat)
    ensures Width(line + [piece]) == Width(line) + (if line == [] then 0 else 1) + piece
  {
    if line == [] {
      assert line + [piece] == [piece];
      OneWordLine(piece);
    } else {
      assert (line + [piece])[..|line|] == line;
    }
  }

  /** A token cut over new lines. */
  lemma {:induction false} HoldsCut(lines: seq<seq<nat>>, pieces: seq<nat>, cpl: nat, length: nat)
      returns (more: seq<seq<nat>>)
    requires cpl > 0 && length > 0 && Holds(lines, pieces, cpl)
    ensures Holds(more, pieces + Cut(length, cpl), cpl) && EndsAt(more, Spill(|lines| + 1, length, cpl))
    decreases length
  {
    if length <= cpl {
      HoldsNewLine(lines, pieces, cpl, length);
      more := lines + [[length]];
    } else {
      HoldsNewLine(lines, pieces, cpl, cpl);
      more := HoldsCut(lines + [[cpl]], pieces + [cpl], cpl, length - cpl);
      assert pieces + [cpl] + Cut(length - cpl, cpl) == pieces + Cut(length, cpl);
    }
  }

  lemma WidthIsPositive(line: seq<nat>)
    requires Positive(line)
    ensures Width(line) > 0 <==> line != []
  {
    if line != [] {
      assert line[|line| - 1] in line;
      if |line| == 1 { assert line[..0] == []; }
    }
  }

  lemma LastLineIsPositive(lines: seq<seq<nat>>)
    requires lines != [] && Positive(Flatten(lines))
    ensures Positive(lines[|lines| - 1])
  {
    var m := |lines| - 1;
    forall n | n in lines[m] ensures n > 0 {
      assert n in Flatten(lines[..m]) + lines[m];
    }
  }

  lemma {:induction false} CutIsPositive(length: nat, cpl: nat)
    requires cpl > 0 && length > 0
    ensures Positive(Cut(length, cpl))
    decreases length
  {
    if length > cpl { CutIsPositive(length - cpl, cpl); }
  }

  lemma {:induction false} CutAllIsPositive(lengths: seq<nat>, cpl: nat)
    requires cpl > 0 && Positive(lengths)
    ensures Positive(CutAll(lengths, cpl))
  {
    if lengths != [] {
      var before := lengths[..|lengths| - 1];
      assert forall n | n in before :: n in lengths;
      assert lengths[|lengths| - 1] in lengths;
      CutAllIsPositive(before, cpl);
      CutIsPositive(lengths[|lengths| - 1], cpl);
    }
  }

  /** Whatever the tokens, the lines counted are those of a breaking that cuts the long ones. */
  lemma {:induction false} CuttingFollows(lengths: seq<nat>, cpl: nat) returns (lines: seq<seq<nat>>)
    requires cpl > 0 && Positive(lengths)
    ensures Holds(lines, CutAll(lengths, cpl), cpl) && EndsAt(lines, Layout(lengths, cpl))
  {
    if lengths == [] {
      lines := [[]];
      assert lines[..0] == [];
    } else {
      var before, length := lengths[..|lengths| - 1], lengths[|lengths| - 1];
      assert length in lengths && forall n | n in before :: n in lengths;
      var prior := CuttingFollows(before, cpl);
      CutAllIsPositive(before, cpl);
      lines := CuttingStep(prior, CutAll(before, cpl), cpl, length, Layout(before, cpl));
    }
  }

  lemma CuttingStep(prior: seq<seq<nat>>, pieces: seq<nat>, cpl: nat, length: nat, p: Position)
      returns (lines: seq<seq<nat>>)
    requires cpl > 0 && length > 0 && Positive(pieces) && Holds(prior, pieces, cpl) && EndsAt(prior, p)
    ensures Holds(lines, pieces + Cut(length, cpl), cpl) && EndsAt(lines, Place(p, length, cpl))
  {
    if p.cur + Need(p.cur, length) > cpl {
      lines := HoldsCut(prior, pieces, cpl, length);
    } else {
      LastLineIsPositive(prior);
      WidthIsPositive(prior[|prior| - 1]);
      HoldsMore(prior, pieces, cpl, length);
      lines := prior[..|prior| - 1] + [prior[|prior| - 1] + [length]];
    }
  }

  // ---------- Sizes ----------

  /** A font: which family's average advance applies, and whether it is bold. */
  datatype Font = Font(sans: bool, bold: bool)

  function Advance(font: Font): (frac: real)
    ensures frac > 0.0
  {
    (if font.sans then 0.505 else 0.545) + if font.bold then 0.022 else 0.0
  }

  /** Python's `int()` of a float. */
  function Truncate(x: real): int {
    if x >= 0.0 then x.Floor else -((-x).Floor)
  }

  /** The width of a character, in inches. */
  function CharWidth(fs: real, font: Font): (w: real)
    ensures fs != 0.0 ==> w != 0.0
  {
    NonzeroProduct(fs, Advance(font));
    fs * Advance(font) / 72.0
  }

  function AtLeastFour(n: int): (cpl: nat)
    ensures cpl >= 4
  {
    if n > 4 then n else 4
  }

  function CharsPerLine(width: real, fs: real, font: Font): (cpl: nat)
    requires fs != 0.0
    ensures cpl >= 4
  {
    AtLeastFour(Truncate(width / CharWidth(fs, font)))
  }

  lemma NonzeroProduct(a: real, b: real)
    ensures a != 0.0 && b != 0.0 ==> a * b / 72.0 != 0.0
  {
  }

  /** Where the estimate is defined: with no text there is nothing to divide the width by. */
  predicate Measurable(text: string, fs: real) {
    fs != 0.0 || text == ""
  }

  function EstimatedLines(text: string, width: real, fs: real, font: Font): nat
    requires Measurable(text, fs)
  {
    if text == "" then 1 else Layout(Lengths(Words(text)), CharsPerLine(width, fs, font)).lines
  }

  method EstLines(text: string, width: real, fs: real, font: Font) returns (lines: nat)
    requires Measurable(text, fs)
    ensures lines == EstimatedLines(text, width, fs, font)
  {
    if text == "" {
      return 1;
    }
    lines := Wrap(Lengths(Words(text)), CharsPerLine(width, fs, font));
  }

  /** A text whose words all fit: the estimate is the fewest lines its words, in order, can be broken over. */
  lemma EstimateIsFewest(text: string, width: real, fs: real, font: Font)
    requires fs != 0.0 && Words(text) != [] && forall w | w in Words(text) :: |w| <= CharsPerLine(width, fs, font)
    ensures var cpl, lengths := CharsPerLine(width, fs, font), Lengths(Words(text));
            && (exists lines :: Breaks(lines, lengths, cpl) && |lines| == EstimatedLines(text, width, fs, font))
            && (forall lines | Breaks(lines, lengths, cpl) :: EstimatedLines(text, width, fs, font) <= |lines|)
  {
    var words := Words(text);
    WordsAreTheStretches(text);
    SplitsIntoWords(text, words);
    forall n | n in Lengths(words) ensures 0 < n <= CharsPerLine(width, fs, font) {
      var k :| 0 <= k < |words| && Lengths(words)[k] == n;
      assert words[k] in words;
    }
    GreedyIsOptimal(Lengths(words), CharsPerLine(width, fs, font));
  }

  /** Any text: all its characters but the spaces fit on the lines estimated. */
  lemma EstimateHoldsTheText(text: string, width: real, fs: real, font: Font)
    requires fs != 0.0
    ensures Inked(text) <= EstimatedLines(text, width, fs, font) * CharsPerLine(width, fs, font)
  {
    WordsHoldAllInk(text, "");
    CharactersFit(Lengths(Words(text)), CharsPerLine(width, fs, font));
  }

  lemma {:induction false} WordsOfWord(word: string, read: string)
    requires IsWord(read + word)
    ensures WordsFrom(word, read) == [read + word]
    decreases |word|
  {
    if word == "" {
      assert read + word == read;
    } else {
      assert (read + word)[|read|] == word[0] && word[0] in read + word;
      assert read + [word[0]] + word[1..] == read + word;
      WordsOfWord(word[1..], read + [word[0]]);
    }
  }

  lemma {:induction false} WordsFromAppend(text: string, word: string, read: string)
    requires IsWord(word)
    ensures WordsFrom(text + " " + word, read) == WordsFrom(text, read) + [word]
    decreases |text|
  {
    var all := text + " " + word;
    if text == "" {
      assert all[0] == ' ' && all[1..] == word && "" + word == word;
      WordsOfWord(word, "");
    } else {
      assert all[0] == text[0] && all[1..] == text[1..] + " " + word;
      WordsFromAppend(text[1..], word, if IsSpace(text[0]) then "" else read + [text[0]]);
    }
  }

  lemma LengthsAppend(words: seq<string>, word: string)
    ensures Lengths(words + [word]) == Lengths(words) + [|word|]
  {
  }

  /** A word longer than a line adds the lines that hold it, whatever the text before it. */
  lemma LongWordAdds(text: string, word: string, width: real, fs: real, font: Font)
    requires fs != 0.0 && IsWord(word) && |word| > CharsPerLine(width, fs, font)
    ensures var cpl := CharsPerLine(width, fs, font);
            EstimatedLines(text + " " + word, width, fs, font)
            == EstimatedLines(text, width, fs, font) + (|word| + cpl - 1) / cpl
  {
    var cpl := CharsPerLine(width, fs, font);
    WordsFromAppend(text, word, "");
    LengthsAppend(Words(text), word);
    LongWordTakes(Lengths(Words(text)), |word|, cpl);
    if text == "" {
      assert Lengths(Words("")) == [];
    }
  }

  /** Alone such a word takes a line more than hold it: it is not begun on the first. */
  lemma LongWordSkipsTheFirstLine(word: string, width: real, fs: real, font: Font)
    requires fs != 0.0 && IsWord(word) && |word| > CharsPerLine(width, fs, font)
    ensures var cpl := CharsPerLine(width, fs, font);
            EstimatedLines(word, width, fs, font) == 1 + (|word| + cpl - 1) / cpl
  {
    assert "" + word == word;
    WordsOfWord(word, "");
    LengthsAppend([], word);
    assert [] + [word] == [word] && Lengths([]) == [] && [] + [|word|] == [|word|];
    LongWordTakes([], |word|, CharsPerLine(width, fs, font));
  }

  /** For every text the estimate is the lines of a breaking of its words, the long ones cut. */
  lemma EstimateIsABreaking(text: string, width: real, fs: real, font: Font) returns (lines: seq<seq<nat>>)
    requires fs != 0.0
    ensures var cpl := CharsPerLine(width, fs, font);
            Holds(lines, CutAll(Lengths(Words(text)), cpl), cpl) && |lines| == EstimatedLines(text, width, fs, font)
  {
    var words, cpl := Words(text), CharsPerLine(width, fs, font);
    WordsAreTheStretches(text);
    SplitsIntoWords(text, words);
    forall n | n in Lengths(words) ensures n > 0 {
      var k :| 0 <= k < |words| && Lengths(words)[k] == n;
      assert words[k] in words;
    }
    lines := CuttingFollows(Lengths(words), cpl);
    if text == "" { assert Lengths(words) == []; }
  }

  /** The average advance of the four faces, as a fraction of the size. */
  lemma Advances()
    ensures Advance(Font(true, false)) == 0.505 && Advance(Font(false, false)) == 0.545
    ensures Advance(Font(true, true)) == 0.527 && Advance(Font(false, true)) == 0.567
  {
  }

  /** So many characters go on a line exactly when there are four at most, or their widths add up to no more than it. */
  lemma HoldsCharactersExactlyWhen(width: real, fs: real, font: Font, n: nat)
    requires fs > 0.0
    ensures n <= CharsPerLine(width, fs, font) <==> n <= 4 || n as real * (fs * Advance(font) / 72.0) <= width
  {
    var w := CharWidth(fs, font);
    CharWidthGrows(fs, fs, font);
    var q := width / w;
    assert q * w == width;
    if width >= 0.0 {
      QuotientFalls(width, w, w);
    } else {
      QuotientIsNegative(width, w);
    }
    FloorHolds(q, n);
    ScaleBothWays(n as real, q, w);
  }

  lemma ScaleBothWays(x: real, y: real, factor: real)
    requires factor > 0.0
    ensures x * factor <= y * factor <==> x <= y
  {
    if x <= y { ScaleUp(x, y, factor); }
    if x * factor <= y * factor { ScaleDown(x, y, factor); }
  }

  lemma FloorHolds(q: real, n: nat)
    ensures n > 0 ==> (n <= Truncate(q) <==> n as real <= q)
  {
  }

  lemma CharWidthGrows(small: real, large: real, font: Font)
    requires 0.0 < small <= large
    ensures 0.0 < CharWidth(small, font) <= CharWidth(large, font)
    ensures small < large ==> CharWidth(small, font) < CharWidth(large, font)
  {
    ProductGrows(small, large, Advance(font));
    if small < large { ProductGrowsStrictly(small, large, Advance(font)); }
  }

  lemma NarrowerAtLargerSizes(width: real, small: real, large: real, font: Font)
    requires 0.0 < small <= large
    ensures CharsPerLine(width, large, font) <= CharsPerLine(width, small, font)
  {
    var a, b := CharWidth(small, font), CharWidth(large, font);
    CharWidthGrows(small, large, font);
    if width >= 0.0 {
      QuotientFalls(width, a, b);
    } else {
      QuotientIsNegative(width, a);
      QuotientIsNegative(width, b);
    }
  }

  lemma ScaleUp(x: real, y: real, factor: real)
    requires x <= y && factor >= 0.0
    ensures x * factor <= y * factor
  {
    assert (y - x) * factor >= 0.0;
  }

  lemma ScaleDown(x: real, y: real, factor: real)
    requires x * factor <= y * factor && factor > 0.0
    ensures x <= y
  {
    assert (y - x) * factor >= 0.0;
  }

  lemma ProductGrows(small: real, large: real, factor: real)
    requires 0.0 < small <= large && factor > 0.0
    ensures 0.0 < small * factor <= large * factor
  {
    ScaleUp(small, large, factor);
  }

  lemma QuotientFalls(width: real, a: real, b: real)
    requires width >= 0.0 && 0.0 < a <= b
    ensures 0.0 <= width / b <= width / a
  {
    var x, y := width / a, width / b;
    assert x * a == width && y * b == width;
    assert a * y <= b * y by { ScaleUp(a, b, y); }
    ScaleDown(y, x, a);
  }

  lemma QuotientIsNegative(width: real, a: real)
    requires width < 0.0 && a > 0.0
    ensures width / a < 0.0
  {
    assert (width / a) * a == width;
  }

  /** An estimate only grows with the size of the type. */
  lemma LinesGrowWithSize(text: string, width: real, small: real, large: real, font: Font)
    requires 0.0 < small <= large
    ensures EstimatedLines(text, width, small, font) <= EstimatedLines(text, width, large, font)
  {
    NarrowerAtLargerSizes(width, small, large, font);
    LayoutMonotone(Lengths(Words(text)), CharsPerLine(width, small, font), CharsPerLine(width, large, font));
  }

  /** The height of some lines: `leading` multiplies the line box, which is a tenth more than the size. */
  function Stack(lines: nat, fs: real, leading: real): real {
    lines as real * fs * leading * 1.10 / 72.0
  }

  /** Each line adds the same height: at 72 points and a leading of one, an inch and a tenth. */
  lemma StackMeaning(m: nat, n: nat, fs: real, leading: real)
    ensures Stack(m + n, fs, leading) == Stack(m, fs, leading) + Stack(n, fs, leading)
    ensures Stack(m, fs, leading) == fs * Stack(m, 1.0, leading)
    ensures Stack(m, fs, leading) == leading * Stack(m, fs, 1.0)
    ensures Stack(1, 72.0, 1.0) == 1.1
  {
    StackScales(m, fs, leading);
    assert (m as real + n as real) * fs * leading == m as real * fs * leading + n as real * fs * leading;
    assert m as real * fs * leading == leading * (m as real * fs);
    assert m as real * fs * 1.0 == m as real * fs;
    TakeOut(leading, m as real * fs);
  }

  function TextHeight(text: string, width: real, fs: real, font: Font, leading: real): real
    requires Measurable(text, fs)
  {
    Stack(EstimatedLines(text, width, fs, font), fs, leading)
  }

  /** A smaller size is never higher, whatever the signs. */
  lemma HeightGrowsWithSize(text: string, width: real, small: real, large: real, font: Font, leading: real)
    requires small <= large && leading >= 0.0 && Measurable(text, small) && Measurable(text, large)
    ensures TextHeight(text, width, small, font, leading) <= TextHeight(text, width, large, font, leading)
  {
    var m, n := EstimatedLines(text, width, small, font), EstimatedLines(text, width, large, font);
    if 0.0 < small {
      LinesGrowWithSize(text, width, small, large, font);
      StackGrows(m, n, small, large, leading);
    } else if text == "" {
      StackIsLinear(1, small, large, leading);
    } else if 0.0 < large {
      StackSign(m, small, leading);
      StackSign(n, large, leading);
    } else {
      CharsPerLineNegated(width, small, font);
      CharsPerLineNegated(width, large, font);
      LinesGrowWithSize(text, -width, -large, -small, font);
      StackGrows(n, m, -large, -small, leading);
      StackNegated(m, small, leading);
      StackNegated(n, large, leading);
    }
  }

  lemma CharsPerLineNegated(width: real, fs: real, font: Font)
    requires fs != 0.0
    ensures CharsPerLine(-width, -fs, font) == CharsPerLine(width, fs, font)
  {
    ProductNegated(fs, Advance(font));
    assert CharWidth(-fs, font) == -CharWidth(fs, font);
    QuotientNegated(width, CharWidth(fs, font));
  }

  lemma ProductNegated(a: real, b: real)
    ensures (-a) * b == -(a * b)
  {
  }

  lemma QuotientNegated(a: real, b: real)
    requires b != 0.0
    ensures (-a) / (-b) == a / b
  {
    var q := a / b;
    assert q * b == a;
    assert q * (-b) == -a;
  }

  lemma StackNegated(lines: nat, fs: real, leading: real)
    ensures Stack(lines, -fs, leading) == -Stack(lines, fs, leading)
  {
    ProductNegated(fs, lines as real);
    assert lines as real * (-fs) == -(lines as real * fs);
    ProductNegated(lines as real * fs, leading);
  }

  lemma StackSign(lines: nat, fs: real, leading: real)
    requires leading >= 0.0
    ensures fs >= 0.0 ==> Stack(lines, fs, leading) >= 0.0
    ensures fs <= 0.0 ==> Stack(lines, fs, leading) <= 0.0
  {
    StackNegated(lines, fs, leading);
    if fs >= 0.0 { NotNegative(lines, fs, leading); } else { NotNegative(lines, -fs, leading); }
  }

  lemma NotNegative(lines: nat, fs: real, leading: real)
    requires fs >= 0.0 && leading >= 0.0
    ensures Stack(lines, fs, leading) >= 0.0
  {
    var area := lines as real * fs;
    ScaleUp(0.0, lines as real, fs);
    assert area >= 0.0;
    ScaleUp(0.0, area, leading);
  }

  lemma StackIsLinear(lines: nat, small: real, large: real, leading: real)
    requires small <= large && leading >= 0.0
    ensures Stack(lines, small, leading) <= Stack(lines, large, leading)
  {
    var n := lines as real;
    ScaleUp(small, large, n);
    assert n * small == small * n && n * large == large * n;
    BoxGrows(n * small, n * large, leading);
  }

  lemma StackGrows(m: nat, n: nat, small: real, large: real, leading: real)
    requires m <= n && 0.0 < small <= large && leading >= 0.0
    ensures Stack(m, small, leading) <= Stack(n, large, leading)
  {
    RectangleGrows(m as real, n as real, small, large);
    BoxGrows(m as real * small, n as real * large, leading);
  }

  lemma BoxGrows(low: real, high: real, leading: real)
    requires low <= high && leading >= 0.0
    ensures low * leading * 1.10 / 72.0 <= high * leading * 1.10 / 72.0
  {
    ScaleUp(low, high, leading);
  }

  lemma RectangleGrows(m: real, n: real, small: real, large: real)
    requires 0.0 <= m <= n && 0.0 < small <= large
    ensures m * small <= n * large
  {
    ScaleUp(m, n, small);
    ScaleUp(small, large, n);
    assert n * small == small * n && n * large == large * n;
  }

  // ---------- The fitter ----------

  /** A box to fill and how. */
  datatype Box = Box(text: string, width: real, height: real, font: Font, leading: real)

  predicate Fits(box: Box, fs: real)
    requires Measurable(box.text, fs)
  {
    TextHeight(box.text, box.width, fs, box.font, box.leading) <= box.height
  }

  function Rungs(fs: real, floor: real): nat {
    if fs <= floor then 0 else ((fs - floor) * 2.0).Floor + 1
  }

  /** What `fit_size` comes to: a size, or a division by zero on the way down to a negative floor. */
  datatype Fit = Size(fs: real) | DividesByZero

  /** The half-point ladder down from a size: where `fit_size` stops on it. */
  function Fitted(box: Box, fs: real, floor: real): Fit
    decreases Rungs(fs, floor)
  {
    if fs <= floor then Size(fs)
    else if !Measurable(box.text, fs) then DividesByZero
    else if Fits(box, fs) then Size(fs)
    else Fitted(box, fs - 0.5, floor)
  }

  method FitSize(box: Box, start: real, floor: real) returns (fit: Fit)
    ensures fit == Fitted(box, start, floor)
  {
    var fs := start;
    while fs > floor
      invariant Fitted(box, fs, floor) == Fitted(box, start, floor)
      decreases Rungs(fs, floor)
    {
      if !Measurable(box.text, fs) { return DividesByZero; }
      if Fits(box, fs) { break; }
      fs := fs - 0.5;
    }
    return Size(fs);
  }

  /** If a size fits, every smaller one fits. */
  lemma FittingIsDownward(box: Box, small: real, large: real)
    requires box.leading >= 0.0 && small <= large && Measurable(box.text, small) && Measurable(box.text, large)
    requires Fits(box, large)
    ensures Fits(box, small)
  {
    HeightGrowsWithSize(box.text, box.width, small, large, box.font, box.leading);
  }

  /** The rung `k` half points below `start`. */
  function Rung(start: real, k: nat): real {
    start - 0.5 * k as real
  }

  /** A rung the loop goes down from: over the floor, measured, and too large. */
  predicate TooLarge(box: Box, start: real, floor: real, k: nat) {
    Rung(start, k) > floor && Measurable(box.text, Rung(start, k)) && !Fits(box, Rung(start, k))
  }

  predicate AllTooLarge(box: Box, start: real, floor: real, k: nat) {
    forall j | 0 <= j < k :: TooLarge(box, start, floor, j)
  }

  /**
   * Every rung above the one where it ends is over the floor and too large; and there it is at the
   * floor, or a fit, or a size of zero with text to measure.
   */
  lemma {:induction false} FittedIsFrontier(box: Box, start: real, floor: real) returns (k: nat)
    ensures AllTooLarge(box, start, floor, k) && !TooLarge(box, start, floor, k)
    ensures match Fitted(box, start, floor)
            case Size(fs) => fs == Rung(start, k) && (fs > floor ==> Measurable(box.text, fs) && Fits(box, fs))
            case DividesByZero => Rung(start, k) == 0.0 > floor && box.text != ""
    decreases Rungs(start, floor)
  {
    k := 0;
    if start > floor && Measurable(box.text, start) && !Fits(box, start) {
      var below := FittedIsFrontier(box, start - 0.5, floor);
      k := below + 1;
      assert Rung(start - 0.5, below) == Rung(start, k);
      forall j | 0 <= j < k ensures TooLarge(box, start, floor, j) {
        if j > 0 { assert Rung(start, j) == Rung(start - 0.5, j - 1) && TooLarge(box, start - 0.5, floor, j - 1); }
      }
    }
  }

  /** It divides by zero exactly when zero is a rung over the floor that no size above fits before. */
  lemma DividesByZeroExactlyWhen(box: Box, start: real, floor: real)
    ensures Fitted(box, start, floor) == DividesByZero
            <==> box.text != ""
                 && exists k: nat :: Rung(start, k) == 0.0 > floor && AllTooLarge(box, start, floor, k)
  {
    var end := FittedIsFrontier(box, start, floor);
    if k: nat :| box.text != "" && Rung(start, k) == 0.0 > floor && AllTooLarge(box, start, floor, k) {
      assert !TooLarge(box, start, floor, end) && !TooLarge(box, start, floor, k);
      assert k == end;
    }
  }

  /** With a floor that is not negative it never does. */
  lemma FloorIsReached(box: Box, start: real, floor: real)
    requires floor >= 0.0
    ensures Fitted(box, start, floor).Size?
  {
    var k := FittedIsFrontier(box, start, floor);
  }

  /** No size half a point or more above the fitted one fits, on the ladder or off it. */
  lemma NothingLargerFits(box: Box, start: real, floor: real, found: real, fs: real)
    requires box.leading >= 0.0 && Fitted(box, start, floor) == Size(found) && found < start
    requires fs >= found + 0.5 && Measurable(box.text, fs)
    ensures !Fits(box, fs)
  {
    var k := FittedIsFrontier(box, start, floor);
    assert TooLarge(box, start, floor, k - 1) && Rung(start, k - 1) == found + 0.5;
    if Fits(box, fs) {
      FittingIsDownward(box, found + 0.5, fs);
    }
  }

  // ---------- The largest size, on the ladder and off it ----------

  /** The characters that fit on a line at sizes just above a size. */
  function CharsJustAbove(width: real, fs: real, font: Font): (cpl: nat)
    requires fs > 0.0
    ensures cpl >= 4
  {
    AtLeastFour(FloorBelow(width / CharWidth(fs, font)))
  }

  /** The largest whole number under a number. */
  function FloorBelow(x: real): int {
    if x.Floor as real == x then x.Floor - 1 else x.Floor
  }

  function LinesJustAbove(text: string, width: real, fs: real, font: Font): nat
    requires fs > 0.0
  {
    if text == "" then 1 else Layout(Lengths(Words(text)), CharsJustAbove(width, fs, font)).lines
  }

  lemma QuotientFallsStrictly(width: real, a: real, b: real)
    requires width > 0.0 && 0.0 < a < b
    ensures 0.0 < width / b < width / a
  {
    var x, y := width / a, width / b;
    assert x * a == width && y * b == width;
    QuotientFalls(width, a, b);
    assert y * (b - a) > 0.0 || y == 0.0;
    assert y * a < width;
  }

  lemma ProductGrowsStrictly(small: real, large: real, factor: real)
    requires 0.0 < small < large && factor > 0.0
    ensures 0.0 < small * factor < large * factor
  {
    assert (large - small) * factor > 0.0;
  }

  /** Any larger size has no more on a line. */
  lemma NoMoreJustAbove(width: real, fs: real, above: real, font: Font)
    requires 0.0 < fs < above
    ensures CharsPerLine(width, above, font) <= CharsJustAbove(width, fs, font)
  {
    var a, b := CharWidth(fs, font), CharWidth(above, font);
    CharWidthGrows(fs, above, font);
    if width > 0.0 {
      QuotientFallsStrictly(width, a, b);
      FloorFalls(width / b, width / a);
    } else if width < 0.0 {
      QuotientIsNegative(width, b);
    } else {
      assert width / b == 0.0;
    }
  }

  lemma FloorFalls(y: real, x: real)
    requires y < x
    ensures y.Floor <= FloorBelow(x)
  {
    assert y.Floor as real <= y;
  }

  /** Up to some larger size, as much is on a line. */
  lemma AsMuchForAWhile(width: real, fs: real, font: Font) returns (reach: real)
    requires fs > 0.0
    ensures reach > fs
    ensures forall above | fs < above <= reach :: CharsPerLine(width, above, font) == CharsJustAbove(width, fs, font)
  {
    var c := CharsJustAbove(width, fs, font);
    var q := width / CharWidth(fs, font);
    reach := fs + 1.0;
    if c > 4 {
      assert c == FloorBelow(q) && c as real < q;
      reach := Reach(fs, q, c as real);
    }
    forall above | fs < above <= reach ensures CharsPerLine(width, above, font) == c {
      NoMoreJustAbove(width, fs, above, font);
      if c > 4 { AsMuchAt(width, fs, above, font, c, reach); }
    }
  }

  lemma Reach(fs: real, q: real, c: real) returns (reach: real)
    requires fs > 0.0 && 0.0 < c < q
    ensures reach > fs && reach * c == fs * q
  {
    reach := fs * q / c;
    assert fs * q > fs * c by { assert fs * (q - c) > 0.0; }
    if reach <= fs { ScaleUp(reach, fs, c); }
  }

  lemma AsMuchAt(width: real, fs: real, above: real, font: Font, c: nat, reach: real)
    requires 0.0 < fs < above <= reach && c > 4
    requires reach * c as real == fs * (width / CharWidth(fs, font))
    ensures CharsPerLine(width, above, font) >= c
  {
    var u, q := Advance(font) / 72.0, width / CharWidth(fs, font);
    assert CharWidth(fs, font) == fs * u && CharWidth(above, font) == above * u;
    assert q * CharWidth(fs, font) == width;
    ScaleUp(above, reach, c as real);
    FitsOnLine(width, fs, above, u, q, c as real);
    assert width / CharWidth(above, font) >= c as real;
  }

  /** Sizes and widths: what is at most `q` over `fs` still holds `c`. */
  lemma FitsOnLine(width: real, fs: real, above: real, u: real, q: real, c: real)
    requires u > 0.0 && above > 0.0 && width == q * (fs * u) && above * c <= fs * q
    ensures above * u > 0.0 && width / (above * u) >= c
  {
    var b := above * u;
    ProductGrowsStrictly(above, above + 1.0, u);
    assert c * b == (above * c) * u;
    assert width == (fs * q) * u;
    ScaleUp(above * c, fs * q, u);
    var x := width / b;
    assert x * b == width;
    ScaleDown(c, x, b);
  }

  lemma LinesAreLines(text: string, width: real, fs: real, font: Font)
    requires fs > 0.0
    ensures LinesJustAbove(text, width, fs, font) >= 1
  {
    if text != "" { AtLeastOneLine(Lengths(Words(text)), CharsJustAbove(width, fs, font)); }
  }

  lemma {:induction false} AtLeastOneLine(lengths: seq<nat>, cpl: nat)
    requires cpl > 0
    ensures Layout(lengths, cpl).lines >= 1
  {
    if lengths != [] {
      var p := Layout(lengths[..|lengths| - 1], cpl);
      AtLeastOneLine(lengths[..|lengths| - 1], cpl);
      SpillGrows(p.lines + 1, lengths[|lengths| - 1], cpl);
    }
  }

  lemma StackGrowsStrictly(lines: nat, small: real, large: real, leading: real)
    requires lines >= 1 && 0.0 < small < large && leading > 0.0
    ensures 0.0 < Stack(lines, small, leading) < Stack(lines, large, leading)
  {
    var n := lines as real;
    ProductGrowsStrictly(small, large, n);
    assert n * small == small * n && n * large == large * n;
    ProductGrowsStrictly(n * small, n * large, leading);
  }

  /** A larger size takes at least the lines counted just above, and more height. */
  lemma HigherAbove(box: Box, fs: real, above: real)
    requires 0.0 < fs < above && box.leading > 0.0
    ensures TextHeight(box.text, box.width, above, box.font, box.leading)
            > Stack(LinesJustAbove(box.text, box.width, fs, box.font), fs, box.leading)
  {
    var n, m := LinesJustAbove(box.text, box.width, fs, box.font), EstimatedLines(box.text, box.width, above, box.font);
    NoMoreJustAbove(box.width, fs, above, box.font);
    if box.text != "" {
      LayoutMonotone(Lengths(Words(box.text)), CharsJustAbove(box.width, fs, box.font),
                     CharsPerLine(box.width, above, box.font));
    }
    LinesAreLines(box.text, box.width, fs, box.font);
    StackGrowsStrictly(n, fs, above, box.leading);
    StackGrows(n, m, above, above, box.leading);
  }

  /** Where the height just above a size is under a limit, some larger size is not over it. */
  lemma RoomAbove(lines: nat, fs: real, leading: real, height: real) returns (room: real)
    requires lines >= 1 && fs > 0.0 && leading > 0.0 && Stack(lines, fs, leading) < height
    ensures room > fs && Stack(lines, room, leading) <= height
  {
    var unit := Stack(lines, 1.0, leading);
    StackGrowsStrictly(lines, 0.5, 1.0, leading);
    StackScales(lines, fs, leading);
    room := height / unit;
    StackScales(lines, room, leading);
    assert room * unit == height;
    if room <= fs { ScaleUp(room, fs, unit); }
  }

  lemma StackScales(lines: nat, fs: real, leading: real)
    ensures Stack(lines, fs, leading) == fs * Stack(lines, 1.0, leading)
  {
    var n := lines as real;
    assert n * fs * leading == fs * (n * leading);
    assert n * 1.0 == n;
    TakeOut(fs, n * leading);
  }

  lemma TakeOut(fs: real, a: real)
    ensures fs * a * 1.10 / 72.0 == fs * (a * 1.10 / 72.0)
  {
  }

  /** No size above fits exactly when the lines counted just above are too high already at the size itself. */
  lemma NoneAboveExactlyWhen(box: Box, found: real, top: real)
    requires box.leading > 0.0 && 0.0 < found < top
    ensures (forall fs | found < fs <= top :: !Fits(box, fs))
            <==> Stack(LinesJustAbove(box.text, box.width, found, box.font), found, box.leading) >= box.height
  {
    var n := LinesJustAbove(box.text, box.width, found, box.font);
    if Stack(n, found, box.leading) >= box.height {
      forall fs | found < fs <= top ensures !Fits(box, fs) {
        HigherAbove(box, found, fs);
      }
    } else {
      var fs := FitsJustAbove(box, found, top);
    }
  }

  lemma FitsJustAbove(box: Box, found: real, top: real) returns (fs: real)
    requires box.leading > 0.0 && 0.0 < found < top
    requires Stack(LinesJustAbove(box.text, box.width, found, box.font), found, box.leading) < box.height
    ensures found < fs <= top && Fits(box, fs)
  {
    var n := LinesJustAbove(box.text, box.width, found, box.font);
    LinesAreLines(box.text, box.width, found, box.font);
    var reach := AsMuchForAWhile(box.width, found, box.font);
    var room := RoomAbove(n, found, box.leading, box.height);
    fs := if reach <= room then reach else room;
    fs := if fs <= top then fs else top;
    assert EstimatedLines(box.text, box.width, fs, box.font) == n;
    StackGrows(n, n, fs, room, box.leading);
  }

  /** The documented promise: the largest size, not over `start`, at which the text fits. */
  ghost predicate IsLargest(box: Box, start: real, found: real)
    requires found > 0.0
  {
    found <= start && Fits(box, found) && forall fs | found < fs <= start :: !Fits(box, fs)
  }

  /**
   * `fit_size` keeps its promise exactly when what it returns fits, and is `start` or has, with as
   * many characters on a line as sizes just above it have, no room left.
   */
  lemma LargestExactlyWhen(box: Box, start: real, floor: real, found: real)
    requires box.leading > 0.0 && Fitted(box, start, floor) == Size(found) && found > 0.0
    ensures IsLargest(box, start, found)
            <==> && Fits(box, found)
                 && (found == start
                     || Stack(LinesJustAbove(box.text, box.width, found, box.font), found, box.leading) >= box.height)
  {
    var k := FittedIsFrontier(box, start, floor);
    assert found <= start;
    if found < start {
      NoneAboveExactlyWhen(box, found, start);
    }
  }

  /** A line of one letter in the default leading, as high as the letter is at a size. */
  function OneLetter(size: real): Box {
    Box("a", 1.0, size * 1.22 * 1.10 / 72.0, Font(true, false), 1.22)
  }

  lemma OneLetterTakesALine(text: string, width: real, fs: real, font: Font)
    requires |text| == 1 && !IsSpace(text[0]) && fs != 0.0
    ensures EstimatedLines(text, width, fs, font) == 1
  {
    assert text[1..] == "" && "" + [text[0]] == text;
    assert WordsFrom(text[1..], text) == [text];
    assert Lengths(Words(text)) == [1];
    assert [1][..0] == [] && Layout([], CharsPerLine(width, fs, font)) == Position(1, 0);
  }

  lemma OneLetterHeight(fs: real, size: real)
    requires fs > 0.0
    ensures Fits(OneLetter(size), fs) <==> fs <= size
  {
    OneLetterTakesALine("a", 1.0, fs, Font(true, false));
  }

  /** With the default floor and leading: down from 10 points, 9 is found where 9.25 still fits. */
  lemma BetweenRungsMayFit()
    ensures Fitted(OneLetter(9.25), 10.0, 8.0) == Size(9.0) && !IsLargest(OneLetter(9.25), 10.0, 9.0)
  {
    var box := OneLetter(9.25);
    OneLetterHeight(10.0, 9.25);
    OneLetterHeight(9.5, 9.25);
    OneLetterHeight(9.25, 9.25);
    OneLetterHeight(9.0, 9.25);
    assert Fitted(box, 9.0, 8.0) == Size(9.0);
    assert Fitted(box, 9.5, 8.0) == Fitted(box, 9.0, 8.0);
    assert Fitted(box, 10.0, 8.0) == Fitted(box, 9.5, 8.0);
    assert Fits(box, 9.25);
  }

  // ---------- Whether it fits at all ----------

  /** The first rung at or below the floor. */
  function LastRung(start: real, floor: real): real
    decreases Rungs(start, floor)
  {
    if start > floor then LastRung(start - 0.5, floor) else start
  }

  lemma {:induction false} LastRungIsLow(box: Box, start: real, floor: real)
    requires Fitted(box, start, floor).Size?
    ensures var found := Fitted(box, start, floor).fs;
            LastRung(start, floor) <= found && (found <= floor ==> found == LastRung(start, floor))
    decreases Rungs(start, floor)
  {
    LastRungBelow(start, floor);
    if start > floor && Measurable(box.text, start) && !Fits(box, start) {
      LastRungIsLow(box, start - 0.5, floor);
    }
  }

  lemma {:induction false} LastRungBelow(start: real, floor: real)
    ensures LastRung(start, floor) <= start
    ensures start > floor ==> floor - 0.5 < LastRung(start, floor) <= floor
    decreases Rungs(start, floor)
  {
    if start > floor { LastRungBelow(start - 0.5, floor); }
  }

  /**
   * `fit_size` is documented to return a size that fits. It does exactly when the text fits at
   * the first rung at or below the floor; otherwise what it returns overflows the box.
   */
  lemma FittedFitsExactlyWhenTheFloorDoes(box: Box, start: real, floor: real)
    requires box.leading >= 0.0 && Fitted(box, start, floor).Size? && Measurable(box.text, LastRung(start, floor))
    ensures var found := Fitted(box, start, floor).fs;
            Measurable(box.text, found) && (Fits(box, found) <==> Fits(box, LastRung(start, floor)))
  {
    var found := Fitted(box, start, floor).fs;
    LastRungIsLow(box, start, floor);
    var k := FittedIsFrontier(box, start, floor);
    if Fits(box, found) {
      FittingIsDownward(box, LastRung(start, floor), found);
    }
  }
}
