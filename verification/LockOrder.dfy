/** `check-lock-order`: the streaming list of held guards, against liveness stated outright. */
module LockOrder {
  import opened Text

  // ---------- One line ----------

  /** What precedes a `//`, which is all the check reads of a line. */
  function CodeOf(line: string): string {
    match Find(line, "//")
    case None => line
    case Some(i) => line[..i]
  }

  predicate Acquires(code: string) {
    Contains(code, ".lock()") || Contains(code, ".read()") || Contains(code, ".write()")
  }

  function StripSuffix(s: string, suffix: string): Option<string> {
    if |suffix| <= |s| && s[|s| - |suffix|..] == suffix then Some(s[..|s| - |suffix|]) else None
  }

  function TrimStartMatches(s: string, prefix: string): string
    requires prefix != ""
    decreases |s|
  {
    if prefix <= s then TrimStartMatches(s[|prefix|..], prefix) else s
  }

  /** The name bound by the head of a `let` that ends at a lock call. */
  function BoundName(head: string, alphanumeric: char -> bool): Option<string> {
    var target := Trim(BeforeFirst(head, '='));
    if "let " <= target then
      var name := Trim(TrimStartMatches(target[4..], "mut "));
      if name != "" && forall c | c in name :: alphanumeric(c) || c == '_' then Some(name) else None
    else None
  }

  /** What a statement binds, its semicolon gone. */
  function BoundBy(stripped: string, alphanumeric: char -> bool): Option<string> {
    match StripSuffix(stripped, ".lock()")
    case Some(head) => BoundName(head, alphanumeric)
    case None =>
      match StripSuffix(stripped, ".read()")
      case Some(head) => BoundName(head, alphanumeric)
      case None =>
        match StripSuffix(stripped, ".write()")
        case Some(head) => BoundName(head, alphanumeric)
        case None => None
  }

  /** The guard a line binds: a statement that *ends* at the lock call. */
  function GuardBinding(code: string, alphanumeric: char -> bool): Option<string> {
    match StripSuffix(TrimEnd(code), ";")
    case None => None
    case Some(stripped) => BoundBy(stripped, alphanumeric)
  }

  ghost predicate IsLockCall(call: string) {
    call == ".lock()" || call == ".read()" || call == ".write()"
  }

  /** A line that ends, but for blanks, with a lock call and a semicolon. */
  ghost predicate EndsAtCall(code: string, head: string, call: string, blank: string) {
    IsLockCall(call) && IsBlank(blank) && code == head + call + ";" + blank
  }

  lemma StripSuffixMeaning(s: string, suffix: string, head: string)
    ensures StripSuffix(s, suffix) == Some(head) <==> s == head + suffix
  {
    if s == head + suffix {
      assert s[|s| - |suffix|..] == suffix && s[..|s| - |suffix|] == head;
    }
  }

  lemma OneCallEnds(head: string, call: string, other: string)
    requires IsLockCall(call) && IsLockCall(other) && StripSuffix(head + call, other).Some?
    ensures call == other
  {
    var s := head + call;
    var n := |s| - 3;
    StripSuffixMeaning(s, other, StripSuffix(s, other).value);
    assert s[n] == call[|call| - 3] && s[n] == other[|other| - 3];
  }

  lemma StripsCall(head: string, call: string, alphanumeric: char -> bool)
    requires IsLockCall(call)
    ensures BoundBy(head + call, alphanumeric) == BoundName(head, alphanumeric)
  {
    StripSuffixMeaning(head + call, call, head);
    if StripSuffix(head + call, ".lock()").Some? { OneCallEnds(head, call, ".lock()"); }
    if StripSuffix(head + call, ".read()").Some? { OneCallEnds(head, call, ".read()"); }
    if StripSuffix(head + call, ".write()").Some? { OneCallEnds(head, call, ".write()"); }
  }

  lemma CallStripped(stripped: string, alphanumeric: char -> bool) returns (head: string, call: string)
    requires BoundBy(stripped, alphanumeric).Some?
    ensures IsLockCall(call) && stripped == head + call
    ensures BoundName(head, alphanumeric) == BoundBy(stripped, alphanumeric)
  {
    call := if StripSuffix(stripped, ".lock()").Some? then ".lock()"
            else if StripSuffix(stripped, ".read()").Some? then ".read()" else ".write()";
    head := StripSuffix(stripped, call).value;
    StripSuffixMeaning(stripped, call, head);
  }

  lemma SemicolonStripped(code: string, stripped: string, blank: string)
    requires IsBlank(blank) && code == stripped + ";" + blank
    ensures StripSuffix(TrimEnd(code), ";") == Some(stripped)
  {
    var bare := stripped + ";";
    TrimEndIgnores(bare, blank);
    assert bare[|bare| - 1] == ';' && !IsWhitespace(';');
    StripSuffixMeaning(bare, ";", stripped);
  }

  lemma GuardEndsAtCall(code: string, alphanumeric: char -> bool) returns (head: string, call: string, blank: string)
    requires GuardBinding(code, alphanumeric).Some?
    ensures EndsAtCall(code, head, call, blank) && BoundName(head, alphanumeric) == GuardBinding(code, alphanumeric)
  {
    blank := TrimEndSplit(code);
    var stripped := StripSuffix(TrimEnd(code), ";").value;
    StripSuffixMeaning(TrimEnd(code), ";", stripped);
    head, call := CallStripped(stripped, alphanumeric);
  }

  /** A guard is bound just where a `let` ends at the lock call: a call with more after it binds nothing. */
  lemma BindsWhereItEndsAtTheCall(code: string, name: string, alphanumeric: char -> bool)
    ensures GuardBinding(code, alphanumeric) == Some(name)
            <==> exists head, call, blank ::
                   EndsAtCall(code, head, call, blank) && BoundName(head, alphanumeric) == Some(name)
  {
    if GuardBinding(code, alphanumeric) == Some(name) {
      var head, call, blank := GuardEndsAtCall(code, alphanumeric);
    }
    forall head, call, blank | EndsAtCall(code, head, call, blank)
      ensures GuardBinding(code, alphanumeric) == BoundName(head, alphanumeric)
    {
      SemicolonStripped(code, head + call, blank);
      StripsCall(head, call, alphanumeric);
    }
  }

  // ---------- Which `let` binds which name ----------

  /** `mut ` any number of times. */
  function Muts(n: nat): string {
    if n == 0 then "" else "mut " + Muts(n - 1)
  }

  ghost predicate IsName(name: string, alphanumeric: char -> bool) {
    name != "" && forall c | c in name :: alphanumeric(c) || c == '_'
  }

  /** The pieces of a `let` up to its `=`, or to its end: blanks, `let `, `mut `s, blanks, a name, blanks. */
  ghost predicate IsLet(target: string, lead: string, muts: nat, gap: string, name: string, trail: string) {
    && IsBlank(lead) && IsBlank(gap) && IsBlank(trail)
    && target == lead + ("let " + Muts(muts) + gap + name) + trail
  }

  /** No space is part of a name, as of Unicode's alphanumerics none is. */
  ghost predicate SpacesApart(alphanumeric: char -> bool) {
    forall c | IsWhitespace(c) :: !alphanumeric(c)
  }

  lemma NameHasNoSpace(name: string, alphanumeric: char -> bool)
    requires IsName(name, alphanumeric) && SpacesApart(alphanumeric)
    ensures forall c | c in name :: !IsWhitespace(c)
  {
  }

  lemma OneMoreMut(n: nat, rest: string)
    ensures Muts(n + 1) + rest == "mut " + (Muts(n) + rest)
  {
    Regroup("mut ", Muts(n), rest);
  }

  lemma {:induction false} MutsGone(n: nat, rest: string)
    requires !("mut " <= rest)
    ensures TrimStartMatches(Muts(n) + rest, "mut ") == rest
  {
    if n == 0 {
      assert "" + rest == rest;
    } else {
      var all := Muts(n) + rest;
      OneMoreMut(n - 1, rest);
      assert all[..4] == "mut " && all[4..] == Muts(n - 1) + rest;
      MutsGone(n - 1, rest);
    }
  }

  lemma {:induction false} MutsBefore(s: string) returns (n: nat, rest: string)
    ensures rest == TrimStartMatches(s, "mut ") && s == Muts(n) + rest
    decreases |s|
  {
    n, rest := 0, s;
    if "mut " <= s {
      var m, more := MutsBefore(s[4..]);
      n, rest := m + 1, more;
      MutFront(s, m, more);
    } else {
      assert "" + s == s;
    }
  }

  lemma MutFront(s: string, n: nat, rest: string)
    requires "mut " <= s && s[4..] == Muts(n) + rest
    ensures s == Muts(n + 1) + rest
  {
    Front(s, "mut ");
    OneMoreMut(n, rest);
  }

  lemma Unled(gap: string, name: string)
    requires name != "" && IsBlank(gap) && forall c | c in name :: !IsWhitespace(c)
    ensures !("mut " <= gap + name) && Trim(gap + name) == name
  {
    assert name[0] in name && name[|name| - 1] in name;
    TrimKeeps(name);
    TrimIgnores(gap, name, "");
    assert gap + name + "" == gap + name;
    StartsWithMut(gap + name);
    if gap != "" {
      assert gap[0] in gap;
    } else {
      assert gap + name == name;
      assert forall k | 0 <= k < |name| :: name[k] in name;
    }
  }

  lemma StartsWithMut(s: string)
    ensures "mut " <= s ==> |s| > 3 && s[0] == 'm' && s[3] == ' '
  {
  }

  /** What a `let` of those pieces binds. */
  lemma LetBinds(target: string, lead: string, muts: nat, gap: string, name: string, trail: string,
                 alphanumeric: char -> bool)
    requires SpacesApart(alphanumeric) && IsName(name, alphanumeric) && IsLet(target, lead, muts, gap, name, trail)
    ensures "let " <= Trim(target) && Trim(TrimStartMatches(Trim(target)[4..], "mut ")) == name
  {
    var core := "let " + Muts(muts) + gap + name;
    NameHasNoSpace(name, alphanumeric);
    assert core[|core| - 1] == name[|name| - 1] && name[|name| - 1] in name;
    assert core[0] == 'l';
    TrimKeeps(core);
    TrimIgnores(lead, core, trail);
    assert core[..4] == "let " && core[4..] == Muts(muts) + (gap + name);
    Unled(gap, name);
    MutsGone(muts, gap + name);
  }

  /** A core of the pieces, with blanks after the name, between more blanks. */
  lemma Reassemble(lead: string, muts: string, gap: string, name: string, more: string, after: string, rest: string)
    requires rest == gap + name + more
    ensures lead + ("let " + (muts + rest)) + after == lead + ("let " + muts + gap + name) + (more + after)
  {
  }

  lemma LetOfTrimmed(target: string, name: string) returns (lead: string, muts: nat, gap: string, trail: string)
    requires "let " <= Trim(target) && Trim(TrimStartMatches(Trim(target)[4..], "mut ")) == name
    ensures IsLet(target, lead, muts, gap, name, trail)
  {
    var after;
    lead, after := TrimSplit(target);
    var core := Trim(target);
    Front(core, "let ");
    var rest, more;
    muts, rest := MutsBefore(core[4..]);
    gap, more := TrimSplit(rest);
    trail := more + after;
    Reassemble(lead, Muts(muts), gap, name, more, after, rest);
  }

  lemma Front(s: string, prefix: string)
    requires prefix <= s
    ensures s == prefix + s[|prefix|..]
  {
  }

  /** The head of a statement that ends at a lock call, as text. */
  ghost predicate BindsName(head: string, name: string, alphanumeric: char -> bool) {
    IsName(name, alphanumeric) && exists target, value :: HeadSplits(head, name, target, value)
  }

  /** A `let` of the name, and after it nothing or the first `=` and anything. */
  ghost predicate HeadSplits(head: string, name: string, target: string, value: string) {
    && head == target + value && '=' !in target && (value != "" ==> value[0] == '=')
    && exists lead, muts, gap, trail :: IsLet(target, lead, muts, gap, name, trail)
  }

  lemma BeforeEquals(head: string, target: string, value: string)
    requires head == target + value && '=' !in target && (value != "" ==> value[0] == '=')
    ensures BeforeFirst(head, '=') == target
  {
    BeforeFirstIs(head, '=', target, value);
  }

  lemma BoundNameMeaning(head: string, name: string, alphanumeric: char -> bool)
    requires SpacesApart(alphanumeric)
    ensures BoundName(head, alphanumeric) == Some(name) <==> BindsName(head, name, alphanumeric)
  {
    if BoundName(head, alphanumeric) == Some(name) {
      var target, value := BeforeFirstSplit(head, '=');
      var lead, muts, gap, trail := LetOfTrimmed(target, name);
      assert HeadSplits(head, name, target, value);
    }
    if BindsName(head, name, alphanumeric) {
      var target, value :| HeadSplits(head, name, target, value);
      var lead, muts, gap, trail :| IsLet(target, lead, muts, gap, name, trail);
      BeforeEquals(head, target, value);
      LetBinds(target, lead, muts, gap, name, trail, alphanumeric);
    }
  }

  /**
   * A line binds a guard under a name exactly when it is blanks, `let `, `mut ` any number of times,
   * blanks, the name, blanks, then nothing or `=` and anything, then one of the three calls, a
   * semicolon and blanks.
   */
  lemma BindsExactlyTheLet(code: string, name: string, alphanumeric: char -> bool)
    requires SpacesApart(alphanumeric)
    ensures GuardBinding(code, alphanumeric) == Some(name)
            <==> exists head, call, blank ::
                   EndsAtCall(code, head, call, blank) && BindsName(head, name, alphanumeric)
  {
    BindsWhereItEndsAtTheCall(code, name, alphanumeric);
    forall head ensures BoundName(head, alphanumeric) == Some(name) <==> BindsName(head, name, alphanumeric) {
      BoundNameMeaning(head, name, alphanumeric);
    }
  }

  /** So a line that binds a guard is always one that acquires a lock. */
  lemma BindingAcquires(code: string, alphanumeric: char -> bool)
    ensures GuardBinding(code, alphanumeric).Some? ==> Acquires(code)
  {
    if GuardBinding(code, alphanumeric).Some? {
      var head, call, blank := GuardEndsAtCall(code, alphanumeric);
      assert code[|head|..|head| + |call|] == call;
      assert OccursAt(code, call, |head|);
      FindIsLeftmost(code, call);
    }
  }

  function CountChar(s: string, c: char): nat {
    if s == "" then 0 else (if s[0] == c then 1 else 0) + CountChar(s[1..], c)
  }

  // ---------- The specification ----------

  /** A source line as the check reads it. */
  datatype Line = Line(binds: Option<string>, acquires: bool, opens: nat, closes: nat)

  function Read(line: string, alphanumeric: char -> bool): Line {
    var code := CodeOf(line);
    Line(GuardBinding(code, alphanumeric), Acquires(code), CountChar(code, '{'), CountChar(code, '}'))
  }

  function ReadAll(text: seq<string>, read: string -> Line): (lines: seq<Line>)
    ensures |lines| == |text|
  {
    seq(|text|, k requires 0 <= k < |text| => read(text[k]))
  }

  /** The brace depth before line `k`. */
  function Depth(lines: seq<Line>, k: nat): int
    requires k <= |lines|
  {
    if k == 0 then 0 else Depth(lines, k - 1) + lines[k - 1].opens - lines[k - 1].closes
  }

  /** Line `i` binds a guard, and up to line `j` the depth never falls below the one it was bound at. */
  ghost predicate Live(lines: seq<Line>, i: nat, j: nat)
    requires j <= |lines|
  {
    && i < j
    && lines[i].binds.Some?
    && forall k | i < k <= j :: Depth(lines, i) <= Depth(lines, k)
  }

  datatype Guard = Guard(name: string, at: int)

  function GuardAt(lines: seq<Line>, i: nat): Guard
    requires i < |lines| && lines[i].binds.Some?
  {
    Guard(lines[i].binds.value, Depth(lines, i))
  }

  ghost function LiveGuard(lines: seq<Line>, i: nat, j: nat): seq<Guard>
    requires j <= |lines|
  {
    if Live(lines, i, j) then [GuardAt(lines, i)] else []
  }

  /** The guards bound before line `upto` and live before line `j`, in the order they were bound. */
  ghost function Held(lines: seq<Line>, upto: nat, j: nat): seq<Guard>
    requires j <= |lines|
  {
    if upto == 0 then [] else Held(lines, upto - 1, j) + LiveGuard(lines, upto - 1, j)
  }

  lemma {:induction false} HeldBounds(lines: seq<Line>, upto: nat, j: nat)
    requires upto <= j <= |lines|
    ensures forall guard, k | guard in Held(lines, upto, j) && upto <= k <= j :: guard.at <= Depth(lines, k)
  {
    if upto > 0 {
      HeldBounds(lines, upto - 1, j);
      assert Live(lines, upto - 1, j) ==> forall k | upto <= k <= j :: Depth(lines, upto - 1) <= Depth(lines, k);
    }
  }

  ghost predicate Deepening(held: seq<Guard>) {
    forall k, l | 0 <= k < l < |held| :: held[k].at <= held[l].at
  }

  /** Guards are held in order of depth, innermost last. */
  lemma {:induction false} HeldDeepens(lines: seq<Line>, upto: nat, j: nat)
    requires upto <= j <= |lines|
    ensures Deepening(Held(lines, upto, j))
  {
    if upto > 0 {
      var inner, held := Held(lines, upto - 1, j), Held(lines, upto, j);
      HeldDeepens(lines, upto - 1, j);
      HeldBounds(lines, upto - 1, j);
      forall k, l | 0 <= k < l < |held| ensures held[k].at <= held[l].at {
        assert held[k] == inner[k] && inner[k] in inner;
        if l < |inner| {
          assert held[l] == inner[l] && inner[k].at <= inner[l].at;
        } else {
          assert held[l] == GuardAt(lines, upto - 1);
          assert inner[k].at <= Depth(lines, upto - 1);
        }
      }
    }
  }

  lemma HeldUnfolds(lines: seq<Line>, i: nat, j: nat)
    requires j <= |lines|
    ensures Held(lines, i + 1, j) == Held(lines, i, j) + LiveGuard(lines, i, j)
  {
  }

  lemma BothEmpty(a: seq<Guard>, b: seq<Guard>)
    ensures a + b == [] <==> a == [] && b == []
  {
    assert |a + b| == |a| + |b|;
  }

  ghost predicate NoneHeld(lines: seq<Line>, upto: nat, j: nat)
    requires j <= |lines|
  {
    upto == 0 || (NoneHeld(lines, upto - 1, j) && LiveGuard(lines, upto - 1, j) == [])
  }

  lemma {:induction false} HeldIsNone(lines: seq<Line>, upto: nat, j: nat)
    requires j <= |lines|
    ensures Held(lines, upto, j) == [] <==> NoneHeld(lines, upto, j)
  {
    if upto > 0 {
      HeldIsNone(lines, upto - 1, j);
      BothEmpty(Held(lines, upto - 1, j), LiveGuard(lines, upto - 1, j));
    }
  }

  lemma LiveIsGuard(lines: seq<Line>, i: nat, j: nat)
    requires j <= |lines|
    ensures LiveGuard(lines, i, j) == [] <==> !Live(lines, i, j)
  {
  }

  lemma {:induction false} NoneHeldMeaning(lines: seq<Line>, upto: nat, j: nat)
    requires j <= |lines|
    ensures NoneHeld(lines, upto, j) <==> forall i: nat | i < upto :: !Live(lines, i, j)
  {
    if upto > 0 {
      NoneHeldMeaning(lines, upto - 1, j);
      LiveIsGuard(lines, upto - 1, j);
    }
  }

  lemma HeldIsEmpty(lines: seq<Line>, upto: nat, j: nat)
    requires j <= |lines|
    ensures Held(lines, upto, j) == [] <==> forall i: nat | i < upto :: !Live(lines, i, j)
  {
    HeldIsNone(lines, upto, j);
    NoneHeldMeaning(lines, upto, j);
  }

  // ---------- The loop ----------

  function Retain(held: seq<Guard>, depth: int): seq<Guard> {
    if held == [] then []
    else
      var last := held[|held| - 1];
      Retain(held[..|held| - 1], depth) + if last.at <= depth then [last] else []
  }

  lemma RetainLast(held: seq<Guard>, last: Guard, depth: int)
    ensures Retain(held + [last], depth) == Retain(held, depth) + if last.at <= depth then [last] else []
  {
    assert (held + [last])[..|held + [last]| - 1] == held;
  }

  lemma LiveOn(lines: seq<Line>, i: nat, j: nat)
    requires j < |lines| && i <= j
    ensures Live(lines, i, j + 1)
            <==> (i < j ==> Live(lines, i, j)) && lines[i].binds.Some? && Depth(lines, i) <= Depth(lines, j + 1)
  {
  }

  /** Retaining after one more guard, live or not: it stays if it is live on the next line. */
  lemma RetainOne(lines: seq<Line>, i: nat, j: nat, held: seq<Guard>)
    requires i < j < |lines|
    ensures Retain(held + LiveGuard(lines, i, j), Depth(lines, j + 1))
            == Retain(held, Depth(lines, j + 1)) + LiveGuard(lines, i, j + 1)
  {
    LiveOn(lines, i, j);
    if Live(lines, i, j) {
      RetainLast(held, GuardAt(lines, i), Depth(lines, j + 1));
    } else {
      assert held + [] == held;
    }
  }

  lemma {:induction false} RetainHeld(lines: seq<Line>, upto: nat, j: nat)
    requires upto <= j < |lines|
    ensures Retain(Held(lines, upto, j), Depth(lines, j + 1)) == Held(lines, upto, j + 1)
  {
    if upto > 0 {
      var i := upto - 1;
      HeldUnfolds(lines, i, j);
      HeldUnfolds(lines, i, j + 1);
      RetainHeld(lines, i, j);
      RetainOne(lines, i, j, Held(lines, i, j));
    }
  }

  /** One turn of the loop: push what the line binds, move the depth, drop what it undercuts. */
  lemma HeldStep(lines: seq<Line>, j: nat)
    requires j < |lines|
    ensures var held := Held(lines, j, j);
            var pushed := if lines[j].binds.Some? then held + [GuardAt(lines, j)] else held;
            Retain(pushed, Depth(lines, j + 1)) == Held(lines, j + 1, j + 1)
  {
    RetainHeld(lines, j, j);
    LiveOn(lines, j, j);
    if lines[j].binds.Some? {
      RetainLast(Held(lines, j, j), GuardAt(lines, j), Depth(lines, j + 1));
    }
  }

  /** A line takes a lock while an earlier guard is live, and nothing declares the place. */
  ghost predicate Nested(lines: seq<Line>, j: nat, rel: string, declared: seq<(string, string)>)
    requires j < |lines|
  {
    && lines[j].acquires
    && (exists i: nat :: Live(lines, i, j))
    && !Declared(Site(rel, j), declared)
  }

  function Site(rel: string, j: nat): string {
    rel + ":" + Decimal(j + 1)
  }

  predicate Declared(site: string, declared: seq<(string, string)>) {
    exists d | d in declared :: d.0 == site
  }

  ghost predicate FileClean(rel: string, text: seq<string>, declared: seq<(string, string)>, read: string -> Line)
  {
    var lines := ReadAll(text, read);
    forall j | 0 <= j < |lines| :: !Nested(lines, j, rel, declared)
  }

  method CheckFile(rel: string, text: seq<string>, declared: seq<(string, string)>, read: string -> Line)
    returns (ok: bool)
    ensures ok <==> FileClean(rel, text, declared, read)
  {
    ok := true;
    var depth := 0;
    var held: seq<Guard> := [];
    ghost var lines := ReadAll(text, read);
    for j := 0 to |text|
      invariant depth == Depth(lines, j)
      invariant held == Held(lines, j, j)
      invariant ok <==> forall k | 0 <= k < j :: !Nested(lines, k, rel, declared)
    {
      var line := read(text[j]);
      ghost var nested := Nested(lines, j, rel, declared);
      assert nested <==> line.acquires && held != [] && !Declared(Site(rel, j), declared) by {
        HeldIsEmpty(lines, j, j);
      }
      if line.acquires && held != [] {
        if !Declared(Site(rel, j), declared) {
          ok := false;
        }
      }
      HeldStep(lines, j);
      if line.binds.Some? {
        held := held + [Guard(line.binds.value, depth)];
      }
      depth := depth + line.opens;
      depth := depth - line.closes;
      held := Retain(held, depth);
    }
  }

  /** A file the walk found: its path, and its lines unless it could not be read. */
  datatype File = File(rel: string, text: Option<seq<string>>)

  predicate Scanned(file: File) {
    !Contains(file.rel, "/tests/") && !Contains(file.rel, "/benches/") && file.text.Some?
  }

  ghost predicate Clean(file: File, declared: seq<(string, string)>, read: string -> Line) {
    Scanned(file) ==> FileClean(file.rel, file.text.value, declared, read)
  }

  /**
   * The gate passes exactly when no scanned line takes a lock under a live guard undeclared. It
   * is stated for any way of reading a line; the check's own is `Reader`.
   */
  method Check(files: seq<File>, declared: seq<(string, string)>, read: string -> Line) returns (ok: bool)
    ensures ok <==> forall k | 0 <= k < |files| :: Clean(files[k], declared, read)
  {
    ok := true;
    for k := 0 to |files|
      invariant ok <==> forall i | 0 <= i < k :: Clean(files[i], declared, read)
    {
      if Scanned(files[k]) {
        var clean := CheckFile(files[k].rel, files[k].text.value, declared, read);
        ok := ok && clean;
      }
    }
  }

  function Reader(alphanumeric: char -> bool): string -> Line {
    line => Read(line, alphanumeric)
  }

  // ---------- The gate on the text of a file ----------

  /** The code of a line is what precedes its first `//`, or all of it. */
  lemma CodeOfMeaning(line: string)
    ensures var code := CodeOf(line);
            && code <= line && (code != line ==> OccursAt(line, "//", |code|))
            && forall j | 0 <= j < |code| :: !OccursAt(line, "//", j)
  {
    FindIsLeftmost(line, "//");
  }

  lemma AcquiresExactlyAtACall(code: string)
    ensures Acquires(code) <==> exists call, p :: IsLockCall(call) && OccursAt(code, call, p)
  {
    FindIsLeftmost(code, ".lock()");
    FindIsLeftmost(code, ".read()");
    FindIsLeftmost(code, ".write()");
    assert IsLockCall(".lock()") && IsLockCall(".read()") && IsLockCall(".write()");
  }

  lemma {:induction false} CountsEvery(s: string, c: char)
    ensures CountChar(s, c) == multiset(s)[c]
  {
    if s != "" {
      CountsEvery(s[1..], c);
      assert s == [s[0]] + s[1..];
    }
  }

  /** How many more braces the code of a line opens than it closes. */
  function Opens(line: string): int {
    CountChar(CodeOf(line), '{') - CountChar(CodeOf(line), '}')
  }

  lemma OpensExactly(line: string)
    ensures Opens(line) + multiset(CodeOf(line))['}'] == multiset(CodeOf(line))['{']
  {
    CountsEvery(CodeOf(line), '{');
    CountsEvery(CodeOf(line), '}');
  }

  /** The same of the lines from `i` to before `k`. */
  function Sum(deltas: seq<int>, i: nat, k: nat): int
    requires i <= k <= |deltas|
  {
    if i == k then 0 else Sum(deltas, i, k - 1) + deltas[k - 1]
  }

  function AllOpens(text: seq<string>): (deltas: seq<int>)
    ensures |deltas| == |text|
  {
    seq(|text|, k requires 0 <= k < |text| => Opens(text[k]))
  }

  lemma {:induction false} DepthMovesBy(lines: seq<Line>, deltas: seq<int>, i: nat, k: nat)
    requires |lines| == |deltas| && i <= k <= |lines|
    requires forall m | 0 <= m < |lines| :: deltas[m] == lines[m].opens - lines[m].closes
    ensures Depth(lines, k) == Depth(lines, i) + Sum(deltas, i, k)
  {
    if i < k {
      DepthMovesBy(lines, deltas, i, k - 1);
    }
  }

  lemma ReaderCountsBraces(text: seq<string>, alphanumeric: char -> bool)
    ensures var lines, deltas := ReadAll(text, Reader(alphanumeric)), AllOpens(text);
            forall m | 0 <= m < |lines| :: deltas[m] == lines[m].opens - lines[m].closes
  {
  }

  /** The depth moves by what the code of the lines between opens and closes. */
  lemma DepthCountsBraces(text: seq<string>, i: nat, k: nat, alphanumeric: char -> bool)
    requires i <= k <= |text|
    ensures var lines := ReadAll(text, Reader(alphanumeric));
            Depth(lines, k) == Depth(lines, i) + Sum(AllOpens(text), i, k)
  {
    ReaderCountsBraces(text, alphanumeric);
    DepthMovesBy(ReadAll(text, Reader(alphanumeric)), AllOpens(text), i, k);
  }

  /** Line `i` binds a guard, and no line from there to `j` brings the braces under where they were before it. */
  ghost predicate StillHeld(text: seq<string>, i: nat, j: nat, alphanumeric: char -> bool)
    requires j <= |text|
  {
    && i < j && (exists name :: GuardBinding(CodeOf(text[i]), alphanumeric) == Some(name))
    && forall k | i < k <= j :: Sum(AllOpens(text), i, k) >= 0
  }

  /** The line holds a lock call, some guard is still held, and no declared entry names the place. */
  ghost predicate TakesNested(rel: string, text: seq<string>, j: nat, declared: seq<(string, string)>,
                              alphanumeric: char -> bool)
    requires j < |text|
  {
    && (exists call, p :: IsLockCall(call) && OccursAt(CodeOf(text[j]), call, p))
    && (exists i: nat :: StillHeld(text, i, j, alphanumeric))
    && (forall d | d in declared :: d.0 != rel + ":" + Decimal(j + 1))
  }

  lemma LiveIsStillHeld(text: seq<string>, i: nat, j: nat, alphanumeric: char -> bool)
    requires j <= |text|
    ensures Live(ReadAll(text, Reader(alphanumeric)), i, j) <==> StillHeld(text, i, j, alphanumeric)
  {
    var lines := ReadAll(text, Reader(alphanumeric));
    if i < j {
      forall k | i < k <= j
        ensures Depth(lines, i) <= Depth(lines, k) <==> Sum(AllOpens(text), i, k) >= 0
      {
        DepthCountsBraces(text, i, k, alphanumeric);
      }
    }
  }

  /** What the gate asks of a file it scans, with its own reading of a line, on the file's text. */
  lemma CleanExactlyWhenNothingNests(rel: string, text: seq<string>, declared: seq<(string, string)>,
                                     alphanumeric: char -> bool)
    ensures FileClean(rel, text, declared, Reader(alphanumeric))
            <==> forall j | 0 <= j < |text| :: !TakesNested(rel, text, j, declared, alphanumeric)
  {
    var lines := ReadAll(text, Reader(alphanumeric));
    forall j | 0 <= j < |text|
      ensures Nested(lines, j, rel, declared) <==> TakesNested(rel, text, j, declared, alphanumeric)
    {
      AcquiresExactlyAtACall(CodeOf(text[j]));
      forall i: nat ensures Live(lines, i, j) <==> StillHeld(text, i, j, alphanumeric) {
        LiveIsStillHeld(text, i, j, alphanumeric);
      }
    }
  }

  /** The number in a declared place is the line's, counted from one. */
  lemma SiteNumbersFromOne(rel: string, j: nat)
    ensures exists digits :: Site(rel, j) == rel + ":" + digits && (forall c | c in digits :: IsDigit(c))
                             && Value(digits) == j + 1
  {
    DecimalValue(j + 1);
    var digits := Decimal(j + 1);
    assert Site(rel, j) == rel + ":" + digits && Value(digits) == j + 1;
  }

  /** What is scanned: what can be read and has neither directory in its path. */
  lemma ScannedExactlyWhen(file: File)
    ensures Scanned(file)
            <==> && file.text.Some?
                 && forall at :: !OccursAt(file.rel, "/tests/", at) && !OccursAt(file.rel, "/benches/", at)
  {
    FindIsLeftmost(file.rel, "/tests/");
    FindIsLeftmost(file.rel, "/benches/");
  }
}
