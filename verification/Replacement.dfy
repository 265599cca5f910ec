/** Python's `str.count` and `str.replace`, and what a bounded replacement leaves. */
module Replacement {
  import opened Text

  // ---------- A needle with something in it ----------

  function CountOf(s: string, find: string): nat
    requires find != ""
    decreases |s|
  {
    match Find(s, find)
    case None => 0
    case Some(i) => 1 + CountOf(s[i + |find|..], find)
  }

  function ReplaceFirst(s: string, find: string, repl: string, most: nat): string
    requires find != ""
    decreases |s|
  {
    if most == 0 then s
    else
      match Find(s, find)
      case None => s
      case Some(i) => s[..i] + repl + ReplaceFirst(s[i + |find|..], find, repl, most - 1)
  }

  /** What stands between the occurrences. */
  function Split(s: string, find: string): (pieces: seq<string>)
    requires find != ""
    ensures pieces != []
    decreases |s|
  {
    match Find(s, find)
    case None => [s]
    case Some(i) => [s[..i]] + Split(s[i + |find|..], find)
  }

  // ---------- The empty needle, which Python finds around every character ----------

  function Interleave(s: string, repl: string, most: nat): string {
    if most == 0 then s
    else if s == "" then repl
    else repl + [s[0]] + Interleave(s[1..], repl, most - 1)
  }

  function Singles(s: string): (singles: seq<string>)
    ensures singles != []
  {
    if s == "" then [""] else [[s[0]]] + Singles(s[1..])
  }

  // ---------- `str.count` and `str.replace` ----------

  function Count(s: string, find: string): nat {
    if find == "" then |s| + 1 else CountOf(s, find)
  }

  function Pieces(s: string, find: string): (pieces: seq<string>)
    ensures pieces != []
  {
    if find == "" then [""] + Singles(s) else Split(s, find)
  }

  function ReplaceAtMost(s: string, find: string, repl: string, most: nat): string {
    if find == "" then Interleave(s, repl, most) else ReplaceFirst(s, find, repl, most)
  }

  /** `s.replace(find, repl, bound)`: a negative bound is no bound. */
  function Replace(s: string, find: string, repl: string, bound: int): string {
    ReplaceAtMost(s, find, repl, if bound < 0 then Count(s, find) else bound)
  }

  // ---------- Every occurrence ----------

  function JoinWith(pieces: seq<string>, glue: string): string
    requires pieces != []
  {
    if |pieces| == 1 then pieces[0] else pieces[0] + glue + JoinWith(pieces[1..], glue)
  }

  lemma JoinCons(first: string, rest: seq<string>, glue: string)
    requires rest != []
    ensures JoinWith([first] + rest, glue) == first + glue + JoinWith(rest, glue)
  {
    assert ([first] + rest)[1..] == rest;
  }

  /** The text is its first piece, the needle, and the rest. */
  lemma FirstPiece(s: string, find: string, i: nat, rest: string)
    requires find != "" && Find(s, find) == Some(i) && rest == s[i + |find|..]
    ensures s == s[..i] + find + rest
  {
    FindIsLeftmost(s, find);
    assert s[i..i + |find|] == find;
  }

  lemma {:induction false} SplitRejoins(s: string, find: string)
    requires find != ""
    ensures JoinWith(Split(s, find), find) == s && |Split(s, find)| == CountOf(s, find) + 1
    decreases |s|
  {
    match Find(s, find)
    case None =>
    case Some(i) =>
      var rest := s[i + |find|..];
      FirstPiece(s, find, i, rest);
      SplitRejoins(rest, find);
      JoinCons(s[..i], Split(rest, find), find);
  }

  lemma {:induction false} SinglesRejoin(s: string)
    ensures JoinWith(Singles(s), "") == s && |Singles(s)| == |s| + 1
  {
    if s != "" {
      JoinCons([s[0]], Singles(s[1..]), "");
      SinglesRejoin(s[1..]);
    }
  }

  /** The pieces put back with what stood between them are the text, and there is one more of them. */
  lemma PiecesRejoin(s: string, find: string)
    ensures JoinWith(Pieces(s, find), find) == s && |Pieces(s, find)| == Count(s, find) + 1
  {
    if find == "" {
      JoinCons("", Singles(s), "");
      SinglesRejoin(s);
    } else {
      SplitRejoins(s, find);
    }
  }

  ghost predicate Free(piece: string, find: string) {
    forall at :: !OccursAt(piece, find, at)
  }

  lemma PrefixIsFree(s: string, find: string, i: nat)
    requires find != "" && i <= |s| && forall j | 0 <= j < i :: !OccursAt(s, find, j)
    ensures Free(s[..i], find)
  {
    forall at ensures !OccursAt(s[..i], find, at) {
      if 0 <= at && at + |find| <= i {
        assert s[..i][at..at + |find|] == s[at..at + |find|];
        assert !OccursAt(s, find, at);
      }
    }
  }

  /** No piece holds another occurrence: the split is at every one. */
  lemma {:induction false} PiecesAreFree(s: string, find: string)
    requires find != ""
    ensures forall piece | piece in Split(s, find) :: Free(piece, find)
    decreases |s|
  {
    FindIsLeftmost(s, find);
    match Find(s, find)
    case None =>
    case Some(i) =>
      PiecesAreFree(s[i + |find|..], find);
      PrefixIsFree(s, find, i);
  }

  lemma {:induction false} InterleaveJoins(s: string, repl: string, most: nat)
    requires most > |s|
    ensures Interleave(s, repl, most) == repl + JoinWith(Singles(s), repl)
  {
    if s != "" {
      var joined := JoinWith(Singles(s[1..]), repl);
      JoinCons([s[0]], Singles(s[1..]), repl);
      InterleaveJoins(s[1..], repl, most - 1);
      assert repl + [s[0]] + (repl + joined) == repl + ([s[0]] + repl + joined);
    } else {
      assert repl + "" == repl;
    }
  }

  lemma {:induction false} ReplaceJoins(s: string, find: string, repl: string, most: nat)
    requires find != "" && most >= CountOf(s, find)
    ensures ReplaceFirst(s, find, repl, most) == JoinWith(Split(s, find), repl)
    decreases |s|
  {
    match Find(s, find)
    case None =>
    case Some(i) =>
      ReplaceJoins(s[i + |find|..], find, repl, most - 1);
      JoinCons(s[..i], Split(s[i + |find|..], find), repl);
  }

  /** A bound no smaller than the count replaces every occurrence. */
  lemma BoundCoversAll(s: string, find: string, repl: string, most: nat)
    requires most >= Count(s, find)
    ensures ReplaceAtMost(s, find, repl, most) == JoinWith(Pieces(s, find), repl)
  {
    if find == "" {
      InterleaveJoins(s, repl, most);
      JoinCons("", Singles(s), repl);
      assert "" + repl + JoinWith(Singles(s), repl) == repl + JoinWith(Singles(s), repl);
    } else {
      ReplaceJoins(s, find, repl, most);
    }
  }

  function Least(a: nat, b: nat): nat {
    if a < b then a else b
  }

  lemma {:induction false} InterleaveLength(s: string, repl: string, most: nat)
    ensures |Interleave(s, repl, most)| == |s| + Least(most, |s| + 1) * |repl|
  {
    if most > 0 {
      if s != "" { InterleaveLength(s[1..], repl, most - 1); }
      OneMore(Least(most, |s| + 1), |repl|);
    }
  }

  lemma {:induction false} ReplaceFirstLength(s: string, find: string, repl: string, most: nat)
    requires find != ""
    ensures |ReplaceFirst(s, find, repl, most)| == |s| + Least(most, CountOf(s, find)) * (|repl| - |find|)
    decreases |s|
  {
    if most > 0 && Find(s, find).Some? {
      var i := Find(s, find).value;
      var rest := s[i + |find|..];
      ReplaceFirstLength(rest, find, repl, most - 1);
      var fewer := Least(most - 1, CountOf(rest, find));
      assert Least(most, CountOf(s, find)) == fewer + 1;
      assert |ReplaceFirst(s, find, repl, most)| == i + |repl| + |ReplaceFirst(rest, find, repl, most - 1)|;
      OneMore(fewer + 1, |repl| - |find|);
    }
  }

  /** Each replacement changes the length by the difference of the two texts. */
  lemma ReplacementLength(s: string, find: string, repl: string, most: nat)
    ensures |ReplaceAtMost(s, find, repl, most)| == |s| + Least(most, Count(s, find)) * (|repl| - |find|)
  {
    if find == "" {
      InterleaveLength(s, repl, most);
    } else {
      ReplaceFirstLength(s, find, repl, most);
    }
  }

  lemma OneMore(n: nat, step: int)
    requires n > 0
    ensures n * step == (n - 1) * step + step
  {
  }

  lemma TakeCons(first: string, rest: seq<string>, n: nat)
    requires n <= |rest|
    ensures ([first] + rest)[..n + 1] == [first] + rest[..n] && ([first] + rest)[n + 1..] == rest[n..]
  {
  }

  /** A bound under the count replaces the first so many, in order, and no other. */
  lemma {:induction false} FirstOnesReplaced(s: string, find: string, repl: string, most: nat)
    requires find != "" && 0 < most <= CountOf(s, find)
    ensures |Split(s, find)| == CountOf(s, find) + 1
    ensures var pieces := Split(s, find);
            ReplaceFirst(s, find, repl, most) == JoinWith(pieces[..most], repl) + repl + JoinWith(pieces[most..], find)
    decreases |s|
  {
    SplitRejoins(s, find);
    var i := Find(s, find).value;
    var rest := s[i + |find|..];
    var pieces := Split(rest, find);
    SplitRejoins(rest, find);
    TakeCons(s[..i], pieces, most - 1);
    if most == 1 {
      assert pieces[0..] == pieces && [s[..i]] + pieces[..0] == [s[..i]];
    } else {
      FirstOnesReplaced(rest, find, repl, most - 1);
      JoinCons(s[..i], pieces[..most - 1], repl);
      FourParts(s[..i], repl, JoinWith(pieces[..most - 1], repl), JoinWith(pieces[most - 1..], find));
    }
  }

  lemma FourParts(a: string, b: string, c: string, d: string)
    ensures a + b + (c + b + d) == (a + b + c) + b + d
  {
  }

  /** With nothing to find, before the first characters: so many of them are interleaved and the rest kept. */
  lemma {:induction false} FirstGapsFilled(s: string, repl: string, most: nat)
    requires 0 < most <= |s| + 1
    ensures Interleave(s, repl, most) == Interleave(s[..most - 1], repl, most) + s[most - 1..]
  {
    if most == 1 {
      assert s[..0] == "" && s[0..] == s;
      assert s != "" ==> [s[0]] + s[1..] == s;
    } else {
      var head, rest := s[..most - 1], s[1..];
      FirstGapsFilled(rest, repl, most - 1);
      assert head[1..] == rest[..most - 2] && rest[most - 2..] == s[most - 1..] && head[0] == s[0];
    }
  }

  /** A negative bound replaces every occurrence, a bound of zero none. */
  lemma BoundMeaning(s: string, find: string, repl: string, bound: int)
    ensures bound < 0 ==> Replace(s, find, repl, bound) == JoinWith(Pieces(s, find), repl)
    ensures bound == 0 ==> Replace(s, find, repl, bound) == s
    ensures bound >= 0 ==> Replace(s, find, repl, bound) == ReplaceAtMost(s, find, repl, bound)
  {
    BoundCoversAll(s, find, repl, Count(s, find));
  }
}
