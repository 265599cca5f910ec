/** `code_lines`: a per-line loop that skips block comments, against one scan of the whole text. */
module CodeLines {
  import opened Text

  // ---------- The reference: one left-to-right scan of a text ----------

  /** A maximal stretch of text outside block comments and within one line. */
  datatype Fragment =
    | BeforeComment(text: string)
    | EndsLine(text: string)
  {
    predicate Counted() {
      var shown := Trim(text);
      shown != "" && (EndsLine? ==> !("//" <= shown))
    }
  }

  datatype Scanned = Scanned(fragments: seq<Fragment>, inBlock: bool)

  /**
   * The fragments of `text`, given the fragment already open before it. The scan for a comment's
   * close starts one character into its open, so `/` `*` `/` opens and closes a comment.
   */
  function Scan(text: string, open: string, inBlock: bool): Scanned {
    if text == "" then
      if inBlock then Scanned([], true) else Emit(EndsLine(open), Scanned([], false))
    else if inBlock then
      if Closes(text) then Scan(text[2..], "", false) else Scan(text[1..], "", true)
    else if Opens(text) then
      Emit(BeforeComment(open), Scan(text[1..], "", true))
    else if text[0] == '\n' then
      Emit(EndsLine(open), Scan(text[1..], "", false))
    else
      Scan(text[1..], open + [text[0]], false)
  }

  predicate Opens(text: string) {
    |text| >= 2 && text[0] == '/' && text[1] == '*'
  }

  predicate Closes(text: string) {
    |text| >= 2 && text[0] == '*' && text[1] == '/'
  }

  function Emit(first: Fragment, rest: Scanned): Scanned {
    Scanned([first] + rest.fragments, rest.inBlock)
  }

  function CountedIn(fragments: seq<Fragment>): nat {
    if fragments == [] then 0
    else (if fragments[0].Counted() then 1 else 0) + CountedIn(fragments[1..])
  }

  // ---------- One line, as the loop sees it ----------

  datatype Tally = Tally(count: nat, inBlock: bool)

  function TallyOf(scanned: Scanned): Tally {
    Tally(CountedIn(scanned.fragments), scanned.inBlock)
  }

  lemma EmitCounts(first: Fragment, rest: Scanned)
    ensures TallyOf(Emit(first, rest)) == Plus(if first.Counted() then 1 else 0, TallyOf(rest))
  {
    assert ([first] + rest.fragments)[1..] == rest.fragments;
  }

  function Plus(n: nat, tally: Tally): Tally {
    Tally(n + tally.count, tally.inBlock)
  }

  function HeadCount(head: string): nat {
    if BeforeComment(head).Counted() then 1 else 0
  }

  function LastCount(last: string): nat {
    if EndsLine(last).Counted() then 1 else 0
  }

  /** What a line contributes: its fragments scanned on their own, from the flag it starts with. */
  function LineTally(line: string, inBlock: bool): Tally {
    TallyOf(Scan(line, "", inBlock))
  }

  function LinesTally(lines: seq<string>, inBlock: bool): Tally
    decreases |lines|
  {
    if lines == [] then Tally(0, inBlock)
    else
      var first := LineTally(lines[0], inBlock);
      Plus(first.count, LinesTally(lines[1..], first.inBlock))
  }

  lemma {:induction false} LinesTallyAppend(lines: seq<string>, last: string, inBlock: bool)
    ensures var before := LinesTally(lines, inBlock);
            LinesTally(lines + [last], inBlock)
            == Plus(before.count, LineTally(last, before.inBlock))
  {
    if lines == [] {
      assert (lines + [last])[1..] == [];
    } else {
      assert (lines + [last])[1..] == lines[1..] + [last];
      LinesTallyAppend(lines[1..], last, LineTally(lines[0], inBlock).inBlock);
    }
  }

  /**
   * The line counter, loop for loop. It returns the number of counted fragments of one scan of
   * the whole text: the non-blank stretches outside block comments, a line's last one excepted
   * when it starts with `//`.
   */
  method Count(src: string) returns (n: nat)
    ensures n == CountedIn(Scan(src, "", false).fragments)
  {
    n := 0;
    var inBlock := false;
    var lines := Lines(src);
    LinesHaveNoNewline(src);
    for k := 0 to |lines|
      invariant Tally(n, inBlock) == LinesTally(lines[..k], false)
    {
      LinesTallyNext(lines, k, false);
      n, inBlock := CountLine(lines[k], n, inBlock);
    }
    assert lines[..|lines|] == lines;
    TextAgrees(src, false);
  }

  lemma LinesTallyNext(lines: seq<string>, k: nat, inBlock: bool)
    requires k < |lines|
    ensures var before := LinesTally(lines[..k], inBlock);
            LinesTally(lines[..k + 1], inBlock) == Plus(before.count, LineTally(lines[k], before.inBlock))
  {
    assert lines[..k + 1] == lines[..k] + [lines[k]];
    LinesTallyAppend(lines[..k], lines[k], inBlock);
  }

  /** After a block comment that ends on the line, the rest is trimmed again. */
  lemma TrimmedClose(line: string, i: nat)
    requires NoNewline(line) && Find(line, "*/") == Some(i)
    ensures NoNewline(Trim(line[i + 2..])) && LineTally(line, true) == LineTally(Trim(line[i + 2..]), false)
  {
    InBlockClosed(line, i, line[i + 2..]);
    TrimmedLine(line[i + 2..], false);
  }

  lemma NotClosed(line: string)
    requires Find(line, "*/").None?
    ensures LineTally(line, true) == Tally(0, true)
  {
    InBlockStep(line);
  }

  method CountLine(raw: string, n0: nat, inBlock0: bool) returns (n: nat, inBlock: bool)
    requires NoNewline(raw)
    ensures Tally(n, inBlock) == Plus(n0, LineTally(raw, inBlock0))
  {
    n, inBlock := n0, inBlock0;
    var line := Trim(raw);
    TrimmedLine(raw, inBlock);
    if inBlock {
      match Find(line, "*/") {
        case Some(i) =>
          TrimmedClose(line, i);
          line := Trim(line[i + 2..]);
        case None =>
          NotClosed(line);
          return;
      }
    }
    n, inBlock := CountFragments(line, n);
  }

  /** The inner loop: head after head, until no comment opens or one stays open. */
  method CountFragments(line0: string, n0: nat) returns (n: nat, inBlock: bool)
    requires NoNewline(line0)
    ensures Tally(n, inBlock) == Plus(n0, LineTally(line0, false))
  {
    n, inBlock := n0, false;
    var line := line0;
    while Find(line, "/*").Some?
      invariant NoNewline(line) && !inBlock
      invariant Plus(n, LineTally(line, false)) == Plus(n0, LineTally(line0, false))
      decreases |line|
    {
      var i := Find(line, "/*").value;
      var head := Trim(line[..i]);
      match Find(line[i..], "*/") {
        case Some(j) =>
          ClosedStep(line, i, j);
          line := line[i + j + 2..];
        case None =>
          OpenStep(line, i);
          inBlock := true;
          line := "";
      }
      if head != "" {
        n := n + 1;
        if inBlock { break; }
        continue;
      }
      if inBlock { break; }
    }
    if !inBlock { NoCommentStep(line); }
    line := Trim(line);
    if line == "" || "//" <= line {
      return;
    }
    n := n + 1;
  }

  // ---------- A line's tally is the scan's ----------

  lemma PrefixIsOpen(text: string)
    ensures Opens(text) <==> "/*" <= text
    ensures Closes(text) <==> "*/" <= text
  {
  }

  lemma {:induction false} ScanTo(text: string, open: string)
    ensures match Find(text, "/*")
            case None => NoNewline(text) ==>
                Scan(text, open, false) == Emit(EndsLine(open + text), Scanned([], false))
            case Some(i) =>
              NoNewline(text[..i]) ==>
                Scan(text, open, false)
                == Emit(BeforeComment(open + text[..i]), Scan(text[i + 1..], "", true))
  {
    PrefixIsOpen(text);
    FindStep(text, "/*");
    if text == "" {
      assert open + text == open;
    } else if Opens(text) {
      assert open + text[..0] == open;
    } else {
      ScanTo(text[1..], open + [text[0]]);
      assert open + [text[0]] + text[1..] == open + text;
      if Find(text, "/*").Some? {
        var i := Find(text, "/*").value;
        assert open + [text[0]] + text[1..][..i - 1] == open + text[..i];
        assert text[1..][i - 1 + 1..] == text[i + 1..];
        assert text[..i][0] == text[0];
        assert text[1..][..i - 1] == text[..i][1..];
      }
    }
  }

  lemma {:induction false} ScanInBlock(text: string)
    ensures Scan(text, "", true)
            == match Find(text, "*/")
               case None => Scanned([], true)
               case Some(i) => Scan(text[i + 2..], "", false)
  {
    PrefixIsOpen(text);
    FindStep(text, "*/");
    if text != "" && !Closes(text) {
      ScanInBlock(text[1..]);
      if Find(text, "*/").Some? {
        var i := Find(text, "*/").value;
        assert text[1..][i - 1 + 2..] == text[i + 2..];
      }
    }
  }

  predicate NoNewline(s: string) {
    '\n' !in s
  }

  lemma InBlockStep(line: string)
    ensures LineTally(line, true) == match Find(line, "*/")
                                     case None => Tally(0, true)
                                     case Some(i) => LineTally(line[i + 2..], false)
  {
    ScanInBlock(line);
  }

  lemma InBlockClosed(line: string, i: nat, rest: string)
    requires Find(line, "*/") == Some(i) && rest == line[i + 2..]
    ensures LineTally(line, true) == LineTally(rest, false)
  {
    ScanInBlock(line);
  }

  lemma NoCommentStep(line: string)
    requires NoNewline(line) && Find(line, "/*").None?
    ensures LineTally(line, false) == Tally(LastCount(line), false)
  {
    ScanTo(line, "");
    assert "" + line == line;
    EmitCounts(EndsLine(line), Scanned([], false));
  }

  lemma CommentStep(line: string, i: nat)
    requires NoNewline(line) && Find(line, "/*") == Some(i)
    ensures LineTally(line, false) == Plus(HeadCount(line[..i]), LineTally(line[i + 1..], true))
  {
    ScanTo(line, "");
    assert "" + line[..i] == line[..i];
    EmitCounts(BeforeComment(line[..i]), Scan(line[i + 1..], "", true));
  }

  /** Searching for the close from the opening slash finds what searching from its star finds. */
  lemma CloseAfterOpen(tail: string)
    requires "/*" <= tail
    ensures match Find(tail, "*/")
            case None => Find(tail[1..], "*/").None?
            case Some(j) => j >= 1 && Find(tail[1..], "*/") == Some(j - 1)
  {
    FindStep(tail, "*/");
    assert tail[0] == '/' && !("*/" <= tail);
  }

  /** What follows the open, and what follows its star. */
  lemma Opened(line: string, i: nat) returns (tail: string, inner: string)
    requires Find(line, "/*") == Some(i)
    ensures tail == line[i..] && inner == line[i + 1..] && tail[1..] == inner && "/*" <= tail
  {
    FindIsLeftmost(line, "/*");
    tail, inner := line[i..], line[i + 1..];
    assert tail[..2] == line[i..i + 2];
  }

  /** One turn of the inner loop over a comment closed on its line. */
  lemma ClosedStep(line: string, i: nat, j: nat)
    requires NoNewline(line) && Find(line, "/*") == Some(i) && Find(line[i..], "*/") == Some(j)
    ensures LineTally(line, false) == Plus(HeadCount(line[..i]), LineTally(line[i + j + 2..], false))
  {
    var tail, inner := Opened(line, i);
    CloseAfterOpen(tail);
    assert inner[j - 1 + 2..] == line[i + j + 2..];
    CommentStep(line, i);
    InBlockClosed(inner, j - 1, line[i + j + 2..]);
  }

  /** And over one that is not. */
  lemma OpenStep(line: string, i: nat)
    requires NoNewline(line) && Find(line, "/*") == Some(i) && Find(line[i..], "*/").None?
    ensures LineTally(line, false) == Tally(HeadCount(line[..i]), true)
  {
    var tail, inner := Opened(line, i);
    CloseAfterOpen(tail);
    CommentStep(line, i);
    InBlockStep(inner);
  }

  // ---------- Trimming a line changes nothing ----------

  lemma {:induction false} ScanIgnoresBlankOpen(text: string, blank: string, open: string)
    requires IsBlank(blank)
    ensures TallyOf(Scan(text, blank + open, false)) == TallyOf(Scan(text, open, false))
  {
    TrimIgnores(blank, open, "");
    assert blank + open + "" == blank + open;
    if text == "" || Opens(text) || text[0] == '\n' {
      var rest := if text == "" then Scanned([], false) else Scan(text[1..], "", Opens(text));
      EmitCounts(BeforeComment(open), rest);
      EmitCounts(BeforeComment(blank + open), rest);
      EmitCounts(EndsLine(open), rest);
      EmitCounts(EndsLine(blank + open), rest);
    } else {
      assert blank + open + [text[0]] == blank + (open + [text[0]]);
      ScanIgnoresBlankOpen(text[1..], blank, open + [text[0]]);
    }
  }

  lemma {:induction false} ScanOpens(blank: string, text: string, open: string)
    requires IsBlank(blank) && NoNewline(blank)
    ensures Scan(blank + text, open, false) == Scan(text, open + blank, false)
  {
    if blank == "" {
      assert blank + text == text && open + blank == open;
    } else {
      assert blank[0] in blank;
      assert (blank + text)[1..] == blank[1..] + text;
      assert open + blank == open + [blank[0]] + blank[1..];
      ScanOpens(blank[1..], text, open + [blank[0]]);
    }
  }

  lemma {:induction false} ScanSkipsBlank(blank: string, text: string)
    requires IsBlank(blank)
    ensures Scan(blank + text, "", true) == Scan(text, "", true)
  {
    if blank == "" {
      assert blank + text == text;
    } else {
      assert blank[0] in blank;
      assert (blank + text)[1..] == blank[1..] + text;
      ScanSkipsBlank(blank[1..], text);
    }
  }

  lemma {:induction false} ScanIgnoresBlankStart(blank: string, text: string, inBlock: bool)
    requires IsBlank(blank) && NoNewline(blank)
    ensures TallyOf(Scan(blank + text, "", inBlock)) == TallyOf(Scan(text, "", inBlock))
  {
    if inBlock {
      ScanSkipsBlank(blank, text);
    } else {
      ScanOpens(blank, text, "");
      assert "" + blank == blank + "" == blank;
      ScanIgnoresBlankOpen(text, blank, "");
    }
  }

  lemma ScanOfBlank(blank: string, open: string, inBlock: bool)
    requires IsBlank(blank) && NoNewline(blank)
    ensures TallyOf(Scan(blank, open, inBlock)) == TallyOf(Scan("", open, inBlock))
  {
    assert blank + "" == blank;
    if inBlock {
      ScanSkipsBlank(blank, "");
      ScanBlockForgetsOpen(blank, open);
    } else {
      ScanOpens(blank, "", open);
      BlankEndCounts(open, blank);
    }
  }

  lemma BlankEndCounts(open: string, blank: string)
    requires IsBlank(blank)
    ensures TallyOf(Scan("", open + blank, false)) == TallyOf(Scan("", open, false))
  {
    TrimIgnores("", open, blank);
    assert "" + open + blank == open + blank;
    EmitCounts(EndsLine(open), Scanned([], false));
    EmitCounts(EndsLine(open + blank), Scanned([], false));
  }

  lemma EmitSame(first: Fragment, a: Scanned, b: Scanned)
    requires TallyOf(a) == TallyOf(b)
    ensures TallyOf(Emit(first, a)) == TallyOf(Emit(first, b))
  {
    EmitCounts(first, a);
    EmitCounts(first, b);
  }

  lemma {:induction false} ScanIgnoresBlankEnd(text: string, blank: string, open: string, inBlock: bool)
    requires IsBlank(blank) && NoNewline(blank)
    ensures TallyOf(Scan(text + blank, open, inBlock)) == TallyOf(Scan(text, open, inBlock))
    decreases |text|
  {
    if text == "" {
      assert text + blank == blank;
      ScanOfBlank(blank, open, inBlock);
    } else {
      var tail := text[1..];
      assert (text + blank)[1..] == tail + blank;
      BlankHasNoMark(text, blank);
      if inBlock && Closes(text) {
        assert (text + blank)[2..] == text[2..] + blank;
        ScanIgnoresBlankEnd(text[2..], blank, "", false);
      } else if inBlock {
        ScanIgnoresBlankEnd(tail, blank, "", true);
      } else if Opens(text) {
        ScanIgnoresBlankEnd(tail, blank, "", true);
        EmitSame(BeforeComment(open), Scan(tail + blank, "", true), Scan(tail, "", true));
      } else if text[0] == '\n' {
        ScanIgnoresBlankEnd(tail, blank, "", false);
        EmitSame(EndsLine(open), Scan(tail + blank, "", false), Scan(tail, "", false));
      } else {
        ScanIgnoresBlankEnd(tail, blank, open + [text[0]], false);
      }
    }
  }

  lemma ScanBlockForgetsOpen(text: string, open: string)
    ensures Scan(text, open, true) == Scan(text, "", true)
  {
  }

  lemma BlankHasNoMark(text: string, blank: string)
    requires text != "" && IsBlank(blank)
    ensures Opens(text + blank) <==> Opens(text)
    ensures Closes(text + blank) <==> Closes(text)
  {
    if |text| == 1 && blank != "" {
      assert blank[0] in blank;
      assert (text + blank)[1] == blank[0];
    }
  }

  lemma TrimmedLine(line: string, inBlock: bool)
    requires NoNewline(line)
    ensures NoNewline(Trim(line)) && LineTally(Trim(line), inBlock) == LineTally(line, inBlock)
  {
    var before := TrimStartSplit(line);
    var after := TrimEndSplit(TrimStart(line));
    assert line == before + (Trim(line) + after);
    assert forall c | c in before || c in Trim(line) || c in after :: c in line;
    ScanIgnoresBlankStart(before, Trim(line) + after, inBlock);
    ScanIgnoresBlankEnd(Trim(line), after, "", inBlock);
  }

  // ---------- The whole text ----------

  lemma CountedInAppend(a: seq<Fragment>, b: seq<Fragment>)
    ensures CountedIn(a + b) == CountedIn(a) + CountedIn(b)
  {
    if a == [] {
      assert a + b == b;
    } else {
      assert (a + b)[1..] == a[1..] + b;
    }
  }

  /** A scan resumes after a newline exactly where the line before it left the block flag. */
  lemma {:induction false} ScanLine(line: string, rest: string, open: string, inBlock: bool)
    requires NoNewline(line)
    ensures var first := Scan(line, open, inBlock);
            var more := Scan(rest, "", first.inBlock);
            Scan(line + "\n" + rest, open, inBlock) == Scanned(first.fragments + more.fragments, more.inBlock)
    decreases |line|
  {
    var all := line + "\n" + rest;
    if line == "" {
      assert all[1..] == rest;
    } else {
      assert all[1..] == line[1..] + "\n" + rest;
      assert all[0] == line[0] && line[0] in line;
      assert all[1] == if |line| > 1 then line[1] else '\n';
      assert forall c | c in line[1..] :: c in line;
      if inBlock && Closes(line) {
        assert all[2..] == line[2..] + "\n" + rest;
        ScanLine(line[2..], rest, "", false);
      } else if inBlock || Opens(line) {
        ScanLine(line[1..], rest, "", true);
      } else {
        ScanLine(line[1..], rest, open + [line[0]], false);
      }
    }
  }

  lemma NothingCounts()
    ensures TallyOf(Scan("", "", false)) == Tally(0, false)
  {
    BlankTrims("");
    EmitCounts(EndsLine(""), Scanned([], false));
  }

  lemma {:induction false} TextAgrees(src: string, inBlock: bool)
    ensures LinesTally(Lines(src), inBlock) == TallyOf(Scan(src, "", inBlock))
    decreases |src|
  {
    FindIsLeftmost(src, "\n");
    match Find(src, "\n") {
      case None =>
        NothingCounts();
        if src != "" {
          AbsentBefore(src, '\n', |src|);
          assert src[..|src|] == src;
        }
      case Some(i) =>
        var line, rest := src[..i], src[i + 1..];
        AbsentBefore(src, '\n', i);
        assert src == line + "\n" + rest by { assert src[i..i + 1] == "\n"; }
        var kept := WithoutCarriageReturn(line);
        assert kept <= line;
        assert forall c | c in kept :: c in line;
        var first := Scan(line, "", inBlock);
        CarriageReturnIgnored(line, inBlock);
        ScanLine(line, rest, "", inBlock);
        TextAgrees(rest, first.inBlock);
        CountedInAppend(first.fragments, Scan(rest, "", first.inBlock).fragments);
        assert ([kept] + Lines(rest))[1..] == Lines(rest);
    }
  }

  lemma CarriageReturnIgnored(line: string, inBlock: bool)
    requires NoNewline(line)
    ensures TallyOf(Scan(WithoutCarriageReturn(line), "", inBlock)) == TallyOf(Scan(line, "", inBlock))
  {
    var kept := WithoutCarriageReturn(line);
    if kept != line {
      assert line == kept + "\r";
      ScanIgnoresBlankEnd(kept, "\r", "", inBlock);
    }
  }

  // ---------- Fragments are not lines ----------

  /** What line `k` contributes, from the flag it starts with. */
  function TallyAt(lines: seq<string>, k: nat): Tally
    requires k < |lines|
  {
    LineTally(lines[k], LinesTally(lines[..k], false).inBlock)
  }

  /** The lines, of the first `n`, with something counted on them. */
  function CountedLines(lines: seq<string>, n: nat): set<nat>
    requires n <= |lines|
  {
    set k: nat | k < n && TallyAt(lines, k).count > 0
  }

  ghost predicate NoneCountsTwice(lines: seq<string>, n: nat)
    requires n <= |lines|
  {
    forall k: nat | k < n :: TallyAt(lines, k).count <= 1
  }

  lemma OneMoreLine(lines: seq<string>, n: nat)
    requires n < |lines|
    ensures CountedLines(lines, n + 1) == CountedLines(lines, n) + if TallyAt(lines, n).count > 0 then {n} else {}
    ensures |CountedLines(lines, n + 1)| == |CountedLines(lines, n)| + if TallyAt(lines, n).count > 0 then 1 else 0
  {
    assert n !in CountedLines(lines, n);
  }

  lemma OneMoreOnce(lines: seq<string>, n: nat)
    requires n < |lines|
    ensures NoneCountsTwice(lines, n + 1) <==> NoneCountsTwice(lines, n) && TallyAt(lines, n).count <= 1
  {
  }

  /** The lines counted, against the count. */
  ghost predicate Bounded(lines: seq<string>, n: nat, count: nat)
    requires n <= |lines|
  {
    && |CountedLines(lines, n)| <= count
    && (|CountedLines(lines, n)| == count <==> NoneCountsTwice(lines, n))
  }

  lemma CountNext(lines: seq<string>, n: nat)
    requires n < |lines|
    ensures LinesTally(lines[..n + 1], false).count == LinesTally(lines[..n], false).count + TallyAt(lines, n).count
  {
    LinesTallyNext(lines, n, false);
  }

  lemma {:induction false} LinesBound(lines: seq<string>, n: nat)
    requires n <= |lines|
    ensures Bounded(lines, n, LinesTally(lines[..n], false).count)
  {
    if n == 0 {
      assert lines[..0] == [] && CountedLines(lines, 0) == {};
    } else {
      LinesBound(lines, n - 1);
      CountNext(lines, n - 1);
      BoundedNext(lines, n - 1, LinesTally(lines[..n - 1], false).count);
    }
  }

  lemma BoundedNext(lines: seq<string>, n: nat, count: nat)
    requires n < |lines| && Bounded(lines, n, count)
    ensures Bounded(lines, n + 1, count + TallyAt(lines, n).count)
  {
    OneMoreLine(lines, n);
    OneMoreOnce(lines, n);
  }

  /** The count is the number of lines with code on them exactly when no line counts twice; else it is more. */
  lemma CountsLinesExactlyWhen(src: string)
    ensures var n, lines := CountedIn(Scan(src, "", false).fragments), Lines(src);
            && |CountedLines(lines, |lines|)| <= n
            && (|CountedLines(lines, |lines|)| == n <==> NoneCountsTwice(lines, |lines|))
  {
    var lines := Lines(src);
    LinesBound(lines, |lines|);
    assert lines[..|lines|] == lines;
    TextAgrees(src, false);
  }

  lemma FirstAt(text: string, mark: string, i: nat)
    requires OccursAt(text, mark, i) && mark != "" && forall j | 0 <= j < i :: text[j] != mark[0]
    ensures Find(text, mark) == Some(i)
  {
    forall j | 0 <= j < i ensures !OccursAt(text, mark, j) {
      StartsWithMark(text, mark, j);
    }
    FindIs(text, mark, i);
  }

  lemma StartsWithMark(text: string, mark: string, j: nat)
    requires mark != ""
    ensures OccursAt(text, mark, j) ==> text[j] == mark[0]
    ensures |mark| == 2 && OccursAt(text, mark, j) ==> text[j + 1] == mark[1]
  {
    if OccursAt(text, mark, j) {
      assert text[j] == text[j..j + |mark|][0];
      assert |mark| == 2 ==> text[j + 1] == text[j..j + |mark|][1];
    }
  }

  lemma CommentedFinds(line: string)
    requires line == "a /* x */ b"
    ensures Find(line, "/*") == Some(2) && Find(line[2..], "*/") == Some(5)
    ensures line[..2] == ['a', ' '] && line[9..] == [' ', 'b'] && NoNewline(line)
  {
    assert line[2..4] == "/*" && line[2..][5..7] == "*/";
    FirstAt(line, "/*", 2);
    CloseIsFifth(line[2..]);
  }

  /** One comment between two stretches of code: the line counts twice. */
  lemma CodeAroundACommentCountsTwice(line: string)
    requires line == "a /* x */ b"
    ensures LineTally(line, false) == Tally(2, false)
  {
    CommentedFinds(line);
    ClosedStep(line, 2, 5);
    OneLetterCounts(line[..2], 'a');
    LastLetterCounts(line[9..], 'b');
  }

  lemma CloseIsFifth(tail: string)
    requires |tail| == 9 && OccursAt(tail, "*/", 5) && tail[1] == '*' && tail[2] != '/'
    requires forall j | 0 <= j < 5 && j != 1 :: tail[j] != '*'
    ensures Find(tail, "*/") == Some(5)
  {
    forall j | 0 <= j < 5 ensures !OccursAt(tail, "*/", j) {
      StartsWithMark(tail, "*/", j);
    }
    FindIs(tail, "*/", 5);
  }

  lemma OneLetterTrims(before: string, c: char, after: string)
    requires IsBlank(before) && IsBlank(after) && !IsWhitespace(c)
    ensures Trim(before + [c] + after) == [c]
  {
    TrimIgnores(before, [c], after);
    assert [c][..0] == "" && [c][1..] == "";
  }

  lemma OneLetterCounts(head: string, c: char)
    requires head == [c, ' '] && !IsWhitespace(c)
    ensures HeadCount(head) == 1
  {
    OneLetterTrims("", c, " ");
    assert "" + [c] + " " == head;
  }

  lemma LastLetterCounts(last: string, c: char)
    requires last == [' ', c] && !IsWhitespace(c) && c != '/'
    ensures LineTally(last, false) == Tally(1, false)
  {
    OneLetterTrims(" ", c, "");
    assert " " + [c] + "" == last;
    NoSlashNoComment(last);
    NoCommentStep(last);
  }

  lemma NoSlashNoComment(text: string)
    requires '/' !in text
    ensures Find(text, "/*").None?
  {
    AbsentIsNotFound(text, "/*");
  }

  /** The close is looked for from the opening slash on: this is a comment and nothing else. */
  lemma SlashStarSlashIsAComment(line: string)
    requires line == "/*/"
    ensures LineTally(line, false) == Tally(0, false)
  {
    assert line[0..2] == "/*" && line[0..] == line && line[1..3] == "*/" && line[..0] == "" && line[3..] == "";
    FirstAt(line, "/*", 0);
    FirstAt(line, "*/", 1);
    ClosedStep(line, 0, 1);
    BlankTrims("");
    NothingCounts();
  }

  // ---------- Which lines count ----------

  lemma TrimsToNothing(s: string)
    ensures Trim(s) == "" <==> IsBlank(s)
  {
    var before, after := TrimSplit(s);
    if IsBlank(s) { BlankTrims(s); }
    assert Trim(s) == "" ==> s == before + after;
  }

  /** Blanks, two slashes and anything. */
  ghost predicate IsCommentLine(line: string) {
    exists blank, rest :: IsBlank(blank) && line == blank + "//" + rest
  }

  lemma TrimKeepsSlashes(rest: string)
    ensures "//" <= TrimEnd("//" + rest)
  {
    var s := "//" + rest;
    var after := TrimEndSplit(s);
    var n := |TrimEnd(s)|;
    assert forall j | n <= j < |s| :: s[j] == after[j - n] && after[j - n] in after;
    assert !IsWhitespace(s[1]) && TrimEnd(s) == s[..n] && s[..2] == "//";
  }

  lemma SlashesFirst(line: string)
    ensures "//" <= Trim(line) <==> IsCommentLine(line)
  {
    if "//" <= Trim(line) {
      var before, after := TrimSplit(line);
      assert Trim(line) == "//" + Trim(line)[2..];
      assert line == before + "//" + (Trim(line)[2..] + after);
    }
    if blank, rest :| IsBlank(blank) && line == blank + "//" + rest {
      assert line == blank + ("//" + rest);
      TrimStartIgnores(blank, "//" + rest);
      TrimKeepsSlashes(rest);
    }
  }

  /** A line on which no block comment opens counts unless it is blank or a line comment. */
  lemma PlainLineCountsExactlyWhen(line: string)
    requires NoNewline(line) && forall at :: !OccursAt(line, "/*", at)
    ensures LineTally(line, false) == Tally(if IsBlank(line) || IsCommentLine(line) then 0 else 1, false)
  {
    FindIsLeftmost(line, "/*");
    NoCommentStep(line);
    TrimsToNothing(line);
    SlashesFirst(line);
  }

  /** What stands before the first block comment counts unless it is blank: two slashes do not hide it. */
  lemma HeadCountsExactlyWhen(line: string, i: nat)
    requires NoNewline(line) && IsFirst(line, "/*", i)
    ensures LineTally(line, false) == Plus(if IsBlank(line[..i]) then 0 else 1, LineTally(line[i + 1..], true))
  {
    FindIs(line, "/*", i);
    CommentStep(line, i);
    TrimsToNothing(line[..i]);
  }

  /** So a line comment that mentions an open counts as code, and leaves a block comment open unless a close follows. */
  lemma LineCommentOpensABlock(line: string, i: nat)
    requires NoNewline(line) && IsFirst(line, "/*", i) && IsCommentLine(line[..i])
    requires forall at | at > i :: !OccursAt(line, "*/", at)
    ensures LineTally(line, false) == Tally(1, true)
  {
    HeadCountsExactlyWhen(line, i);
    var blank, rest :| IsBlank(blank) && line[..i] == blank + "//" + rest;
    assert line[..i][|blank|] == '/' && line[..i][|blank|] in line[..i];
    NotClosedAfter(line, i + 1);
  }

  lemma NotClosedAfter(line: string, from: nat)
    requires from <= |line| && forall at | at >= from :: !OccursAt(line, "*/", at)
    ensures LineTally(line[from..], true) == Tally(0, true)
  {
    FindIsLeftmost(line[from..], "*/");
    if Find(line[from..], "*/").Some? {
      OccursInSuffix(line, "*/", from, from + Find(line[from..], "*/").value);
    }
    NotClosed(line[from..]);
  }
}
