/** The build-tree sweep: group artefacts by identity, keep the newest of each, delete the rest. */
module BuildTree {
  import opened Text

  // ---------- Artefact names ----------

  /** What an artefact is, apart from its hash: the stem before it and the extension after. */
  datatype Identity = Identity(stem: string, ext: string)

  predicate IsHex(c: char) {
    IsDigit(c) || 'a' <= c <= 'f' || 'A' <= c <= 'F'
  }

  predicate IsHash(hash: string) {
    |hash| >= 8 && forall c | c in hash :: IsHex(c)
  }

  /** At least eight hexadecimal digits, in either case. */
  lemma IsHashExactlyWhen(hash: string)
    ensures IsHash(hash) <==> |hash| >= 8 && forall c | c in hash :: c in "0123456789abcdefABCDEF"
  {
    forall c ensures IsHex(c) <==> c in "0123456789abcdefABCDEF" {
      HexDigits(c);
    }
  }

  lemma HexDigits(c: char)
    ensures IsHex(c) <==> c in "0123456789abcdefABCDEF"
  {
    var digits := "0123456789abcdefABCDEF";
    if '0' <= c <= '9' { assert digits[c as int - '0' as int] == c; }
    if 'a' <= c <= 'f' { assert digits[10 + (c as int - 'a' as int)] == c; }
    if 'A' <= c <= 'F' { assert digits[16 + (c as int - 'A' as int)] == c; }
  }

  /** `str::rfind` of one character. */
  function FindLast(s: string, c: char): (r: Option<nat>)
    ensures match r
            case None => c !in s
            case Some(i) => i < |s| && s[i] == c && c !in s[i + 1..]
  {
    if s == "" then None
    else if s[|s| - 1] == c then Some(|s| - 1)
    else
      var i := FindLast(s[..|s| - 1], c);
      assert s == s[..|s| - 1] + [s[|s| - 1]];
      if i.Some? then
        assert s[i.value + 1..] == s[..|s| - 1][i.value + 1..] + [s[|s| - 1]];
        i
      else i
  }

  function SplitArtefact(name: string): Option<Identity> {
    var cutAt := match Find(name, ".") case Some(i) => i case None => |name|;
    var beforeExt, ext := name[..cutAt], name[cutAt..];
    match FindLast(beforeExt, '-')
    case None => None
    case Some(cut) =>
      if IsHash(beforeExt[cut + 1..]) then Some(Identity(beforeExt[..cut], ext)) else None
  }

  ghost predicate IsExtension(ext: string) {
    ext == "" || ext[0] == '.'
  }

  /** A name is an artefact exactly when it is a stem, a dash, a hash and an extension, in one way. */
  lemma SplitRejoins(name: string, id: Identity)
    ensures SplitArtefact(name) == Some(id)
            <==> '.' !in id.stem && IsExtension(id.ext)
                 && exists hash :: IsHash(hash) && name == id.stem + "-" + hash + id.ext
  {
    if SplitArtefact(name) == Some(id) {
      SplitGivesParts(name, id);
    }
    if '.' !in id.stem && IsExtension(id.ext)
       && exists hash :: IsHash(hash) && name == id.stem + "-" + hash + id.ext
    {
      var hash :| IsHash(hash) && name == id.stem + "-" + hash + id.ext;
      PartsSplit(id, hash);
    }
  }

  lemma ExtensionCut(name: string) returns (cutAt: nat)
    ensures cutAt == (match Find(name, ".") case Some(i) => i case None => |name|)
    ensures cutAt <= |name| && '.' !in name[..cutAt] && IsExtension(name[cutAt..])
  {
    cutAt := match Find(name, ".") case Some(i) => i case None => |name|;
    FindIsLeftmost(name, ".");
    AbsentBefore(name, '.', cutAt);
    if cutAt < |name| {
      assert name[cutAt..cutAt + 1] == ".";
    }
  }

  lemma SplitGivesParts(name: string, id: Identity)
    requires SplitArtefact(name) == Some(id)
    ensures '.' !in id.stem && IsExtension(id.ext)
    ensures exists hash :: IsHash(hash) && name == id.stem + "-" + hash + id.ext
  {
    var cutAt := ExtensionCut(name);
    var beforeExt := name[..cutAt];
    assert name == beforeExt + id.ext;
    var hash := DashSplits(beforeExt, id.stem);
    assert name == id.stem + "-" + hash + id.ext;
  }

  lemma DashSplits(beforeExt: string, stem: string) returns (hash: string)
    requires match FindLast(beforeExt, '-')
             case None => false
             case Some(cut) => IsHash(beforeExt[cut + 1..]) && stem == beforeExt[..cut]
    ensures IsHash(hash) && beforeExt == stem + "-" + hash
    ensures forall c | c in stem :: c in beforeExt
  {
    var cut := FindLast(beforeExt, '-').value;
    hash := beforeExt[cut + 1..];
    assert beforeExt == beforeExt[..cut] + [beforeExt[cut]] + hash;
  }

  lemma {:induction false} LastIsUnique(s: string, c: char, i: nat)
    requires i < |s| && s[i] == c && c !in s[i + 1..]
    ensures FindLast(s, c) == Some(i)
  {
    var last := |s| - 1;
    if i < last {
      assert s[i + 1..][last - i - 1] == s[last];
      assert forall k | i < k < last :: s[..last][k] == s[i + 1..][k - i - 1];
      LastIsUnique(s[..last], c, i);
    }
  }

  lemma {:induction false} FirstDot(beforeExt: string, ext: string)
    requires '.' !in beforeExt && IsExtension(ext)
    ensures Find(beforeExt + ext, ".") == if ext == "" then None else Some(|beforeExt|)
  {
    var name := beforeExt + ext;
    FindStep(name, ".");
    if beforeExt == "" {
      assert name == ext;
    } else {
      assert name[0] == beforeExt[0] && beforeExt[0] in beforeExt;
      assert name[1..] == beforeExt[1..] + ext;
      FirstDot(beforeExt[1..], ext);
    }
  }

  lemma PartsSplit(id: Identity, hash: string)
    requires '.' !in id.stem && IsExtension(id.ext) && IsHash(hash)
    ensures SplitArtefact(id.stem + "-" + hash + id.ext) == Some(id)
  {
    var beforeExt := id.stem + "-" + hash;
    var name := beforeExt + id.ext;
    FirstDot(beforeExt, id.ext);
    assert name[..|beforeExt|] == beforeExt && name[|beforeExt|..] == id.ext;
    assert beforeExt[|id.stem| + 1..] == hash && beforeExt[..|id.stem|] == id.stem;
    LastIsUnique(beforeExt, '-', |id.stem|);
  }

  // ---------- Generations ----------

  /** A directory entry's metadata. */
  datatype Meta = Meta(isFile: bool, modified: int, len: nat)

  datatype Generation = Generation(when: int, name: string, len: nat)

  type Files = map<string, Meta>

  /** How names are grouped; the sweep's own is `SplitArtefact`. */
  type Grouping = string -> Option<Identity>

  predicate Grouped(files: Files, identify: Grouping, name: string, id: Identity) {
    name in files && files[name].isFile && identify(name) == Some(id)
  }

  function GenerationOf(files: Files, name: string): Generation
    requires name in files
  {
    Generation(files[name].modified, name, files[name].len)
  }

  /** The generations of one artefact, in the order the directory lists them. */
  function Generations(files: Files, identify: Grouping, listing: seq<string>, id: Identity): seq<Generation> {
    if listing == [] then []
    else
      var last := listing[|listing| - 1];
      Generations(files, identify, listing[..|listing| - 1], id)
      + if Grouped(files, identify, last, id) then [GenerationOf(files, last)] else []
  }

  /** A directory listing: every entry once. */
  ghost predicate Lists(listing: seq<string>, files: Files) {
    && (forall n :: n in listing <==> n in files)
    && (forall i, j | 0 <= i < j < |listing| :: listing[i] != listing[j])
  }

  ghost predicate DistinctNames(gens: seq<Generation>) {
    forall i, j | 0 <= i < j < |gens| :: gens[i].name != gens[j].name
  }

  ghost function NamesOf(gens: seq<Generation>): set<string> {
    set g | g in gens :: g.name
  }

  ghost predicate ListsGroup(gens: seq<Generation>, files: Files, identify: Grouping, listing: seq<string>,
                             id: Identity)
  {
    && (forall g | g in gens ::
          g.name in listing && Grouped(files, identify, g.name, id) && g == GenerationOf(files, g.name))
    && (forall n | n in listing && Grouped(files, identify, n, id) :: GenerationOf(files, n) in gens)
  }

  lemma {:induction false} GenerationsMeaning(files: Files, identify: Grouping, listing: seq<string>, id: Identity)
    requires forall i, j | 0 <= i < j < |listing| :: listing[i] != listing[j]
    ensures DistinctNames(Generations(files, identify, listing, id))
    ensures ListsGroup(Generations(files, identify, listing, id), files, identify, listing, id)
  {
    if listing != [] {
      var before, last := listing[..|listing| - 1], listing[|listing| - 1];
      GenerationsMeaning(files, identify, before, id);
      assert listing == before + [last];
      assert last !in before;
    }
  }

  // ---------- Newest first ----------

  /** A stable sort, newest first: `last` goes after everything at least as new. */
  function Insert(sorted: seq<Generation>, last: Generation): (all: seq<Generation>)
    ensures |all| == |sorted| + 1
  {
    if sorted == [] || sorted[|sorted| - 1].when >= last.when then sorted + [last]
    else Insert(sorted[..|sorted| - 1], last) + [sorted[|sorted| - 1]]
  }

  function NewestFirst(gens: seq<Generation>): (sorted: seq<Generation>)
    ensures |sorted| == |gens|
  {
    if gens == [] then [] else Insert(NewestFirst(gens[..|gens| - 1]), gens[|gens| - 1])
  }

  ghost predicate Descending(gens: seq<Generation>) {
    forall i, j | 0 <= i < j < |gens| :: gens[i].when >= gens[j].when
  }

  ghost predicate Ordered(gens: seq<Generation>) {
    Descending(gens) && DistinctNames(gens)
  }

  lemma AppendOldest(gens: seq<Generation>, last: Generation)
    requires Ordered(gens) && forall g | g in gens :: g.when >= last.when && g.name != last.name
    ensures Ordered(gens + [last])
  {
    assert forall k | 0 <= k < |gens| :: gens[k] in gens;
  }

  lemma LastIsOldest(gens: seq<Generation>)
    requires gens != [] && Ordered(gens)
    ensures var before, end := gens[..|gens| - 1], gens[|gens| - 1];
            && Ordered(before)
            && forall g | g in before :: g in gens && g.when >= end.when && g.name != end.name
  {
  }

  lemma InsertMembers(sorted: seq<Generation>, last: Generation)
    ensures forall g :: g in Insert(sorted, last) <==> g in sorted || g == last
  {
    if sorted != [] && sorted[|sorted| - 1].when < last.when {
      assert sorted == sorted[..|sorted| - 1] + [sorted[|sorted| - 1]];
      InsertMembers(sorted[..|sorted| - 1], last);
    }
  }

  lemma {:induction false} InsertMeaning(sorted: seq<Generation>, last: Generation)
    requires Ordered(sorted) && forall g | g in sorted :: g.name != last.name
    ensures Ordered(Insert(sorted, last))
  {
    if sorted != [] {
      LastIsOldest(sorted);
    }
    if sorted != [] && sorted[|sorted| - 1].when < last.when {
      var before, end := sorted[..|sorted| - 1], sorted[|sorted| - 1];
      assert end in sorted;
      InsertMembers(before, last);
      InsertMeaning(before, last);
      AppendOldest(Insert(before, last), end);
    } else {
      AppendOldest(sorted, last);
    }
  }

  /** The generations of one moment, in their order. */
  function OfMoment(gens: seq<Generation>, when: int): seq<Generation> {
    if gens == [] then []
    else
      var last := gens[|gens| - 1];
      OfMoment(gens[..|gens| - 1], when) + if last.when == when then [last] else []
  }

  lemma OfMomentNext(gens: seq<Generation>, last: Generation, when: int)
    ensures OfMoment(gens + [last], when) == OfMoment(gens, when) + if last.when == when then [last] else []
  {
    assert (gens + [last])[..|gens|] == gens;
  }

  lemma {:induction false} InsertIsStable(sorted: seq<Generation>, last: Generation, when: int)
    ensures OfMoment(Insert(sorted, last), when) == OfMoment(sorted + [last], when)
  {
    if sorted != [] && sorted[|sorted| - 1].when < last.when {
      var before, end := sorted[..|sorted| - 1], sorted[|sorted| - 1];
      InsertIsStable(before, last, when);
      OfMomentNext(Insert(before, last), end, when);
      assert sorted == before + [end];
      OtherMoment(before, last, end, when);
    }
  }

  /** Which of two moments is put first does not show within either. */
  lemma OtherMoment(before: seq<Generation>, last: Generation, end: Generation, when: int)
    requires end.when != last.when
    ensures OfMoment(before + [end] + [last], when)
            == OfMoment(before + [last], when) + if end.when == when then [end] else []
  {
    OfMomentNext(before + [end], last, when);
    OfMomentNext(before, end, when);
    OfMomentNext(before, last, when);
  }

  /** Generations of the same moment keep the order they are listed in. */
  lemma {:induction false} NewestFirstIsStable(gens: seq<Generation>, when: int)
    ensures OfMoment(NewestFirst(gens), when) == OfMoment(gens, when)
  {
    if gens != [] {
      var before, last := gens[..|gens| - 1], gens[|gens| - 1];
      assert gens == before + [last];
      NewestFirstIsStable(before, when);
      InsertIsStable(NewestFirst(before), last, when);
      OfMomentNext(NewestFirst(before), last, when);
      OfMomentNext(before, last, when);
    }
  }

  lemma {:induction false} NewestFirstMeaning(gens: seq<Generation>)
    requires DistinctNames(gens)
    ensures var sorted := NewestFirst(gens);
            && Ordered(sorted)
            && forall g :: g in sorted <==> g in gens
  {
    if gens != [] {
      var before, last := gens[..|gens| - 1], gens[|gens| - 1];
      assert gens == before + [last];
      NewestFirstMeaning(before);
      forall g | g in before ensures g.name != last.name {
        var i :| 0 <= i < |before| && gens[i] == g;
      }
      InsertMembers(NewestFirst(before), last);
      InsertMeaning(NewestFirst(before), last);
    }
  }

  // ---------- What a sweep chooses ----------

  const SWEEP_KEEP := 2

  /** The generations of one artefact a sweep is done with. */
  function Tail(gens: seq<Generation>): seq<Generation> {
    if |gens| <= SWEEP_KEEP then [] else NewestFirst(gens)[SWEEP_KEEP..]
  }

  ghost predicate Superseded(files: Files, identify: Grouping, listing: seq<string>, name: string) {
    && name in files && files[name].isFile && identify(name).Some?
    && name in NamesOf(Tail(Generations(files, identify, listing, identify(name).value)))
  }

  ghost function Chosen(files: Files, identify: Grouping, listing: seq<string>): set<string> {
    set name | name in files && Superseded(files, identify, listing, name)
  }

  ghost function Group(files: Files, identify: Grouping, id: Identity): set<string> {
    set name | name in files && Grouped(files, identify, name, id)
  }

  ghost function Kept(files: Files, identify: Grouping, id: Identity, removed: set<string>): set<string> {
    Group(files, identify, id) - removed
  }

  ghost function AtMost(n: nat, most: nat): nat {
    if n < most then n else most
  }

  lemma {:induction false} NamesCount(gens: seq<Generation>)
    requires DistinctNames(gens)
    ensures |NamesOf(gens)| == |gens|
  {
    if gens != [] {
      var before, last := gens[..|gens| - 1], gens[|gens| - 1];
      assert gens == before + [last];
      NamesCount(before);
      assert last.name !in NamesOf(before) by {
        forall g | g in before ensures g.name != last.name {
          var i :| 0 <= i < |before| && gens[i] == g;
        }
      }
      assert NamesOf(gens) == NamesOf(before) + {last.name};
    }
  }

  /** The two parts hold the generations of one artefact and nothing else. */
  ghost predicate Covers(files: Files, identify: Grouping, id: Identity, kept: seq<Generation>, tail: seq<Generation>) {
    && (forall g | g in kept || g in tail :: Grouped(files, identify, g.name, id) && g == GenerationOf(files, g.name))
    && (forall n | Grouped(files, identify, n, id) :: GenerationOf(files, n) in kept || GenerationOf(files, n) in tail)
  }

  /** One group: the newest two stay, the rest are chosen. */
  lemma GroupSplits(files: Files, identify: Grouping, listing: seq<string>, id: Identity)
      returns (kept: seq<Generation>, tail: seq<Generation>)
    requires Lists(listing, files)
    ensures tail == Tail(Generations(files, identify, listing, id))
    ensures Ordered(kept + tail)
    ensures |kept| == AtMost(|kept + tail|, SWEEP_KEEP)
    ensures Covers(files, identify, id, kept, tail)
  {
    var gens := Generations(files, identify, listing, id);
    GenerationsMeaning(files, identify, listing, id);
    NewestFirstMeaning(gens);
    var sorted := NewestFirst(gens);
    tail := Tail(gens);
    kept := sorted[..|sorted| - |tail|];
    assert kept + tail == sorted;
    SortedCovers(files, identify, listing, id, gens, kept, tail);
  }

  lemma SortedCovers(files: Files, identify: Grouping, listing: seq<string>, id: Identity,
                     gens: seq<Generation>, kept: seq<Generation>, tail: seq<Generation>)
    requires Lists(listing, files) && ListsGroup(gens, files, identify, listing, id)
    requires forall g :: g in kept + tail <==> g in gens
    ensures Covers(files, identify, id, kept, tail)
  {
    assert forall g :: g in kept + tail <==> g in kept || g in tail;
  }

  /** Nothing but parsed artefacts is chosen, and of each artefact all but the newest two. */
  lemma SweepKeepsNewest(files: Files, identify: Grouping, listing: seq<string>, id: Identity)
    requires Lists(listing, files)
    ensures var chosen := Chosen(files, identify, listing);
            var kept := Kept(files, identify, id, chosen);
            && |kept| == AtMost(|Group(files, identify, id)|, 2)
            && (forall n | n in chosen :: n in files && files[n].isFile && identify(n).Some?)
            && forall a, b | a in kept && b in Group(files, identify, id) && b in chosen ::
                 files[a].modified >= files[b].modified
  {
    var kept, tail := GroupSplits(files, identify, listing, id);
    var all := kept + tail;
    GroupIsNames(files, identify, listing, id, kept, tail);
    NamesCount(all);
    assert DistinctNames(kept) by {
      forall i, j | 0 <= i < j < |kept| ensures kept[i].name != kept[j].name {
        assert all[i] == kept[i] && all[j] == kept[j];
      }
    }
    NamesCount(kept);
    KeptAreNewer(files, kept, tail, NamesOf(kept), NamesOf(tail));
  }

  lemma KeptAreNewer(files: Files, kept: seq<Generation>, tail: seq<Generation>, keptNames: set<string>,
                     tailNames: set<string>)
    requires Descending(kept + tail) && keptNames == NamesOf(kept) && tailNames == NamesOf(tail)
    requires forall g | g in kept || g in tail :: g.name in files && g == GenerationOf(files, g.name)
    ensures forall a, b | a in keptNames && b in tailNames :: files[a].modified >= files[b].modified
  {
    var all := kept + tail;
    forall a, b | a in keptNames && b in tailNames ensures files[a].modified >= files[b].modified {
      var g :| g in kept && g.name == a;
      var h :| h in tail && h.name == b;
      var i :| 0 <= i < |kept| && kept[i] == g;
      var j :| 0 <= j < |tail| && tail[j] == h;
      assert all[i] == g && all[|kept| + j] == h;
    }
  }

  lemma GroupIsNames(files: Files, identify: Grouping, listing: seq<string>, id: Identity,
                     kept: seq<Generation>, tail: seq<Generation>)
    requires tail == Tail(Generations(files, identify, listing, id)) && Ordered(kept + tail)
    requires Covers(files, identify, id, kept, tail)
    ensures Group(files, identify, id) == NamesOf(kept + tail)
    ensures Kept(files, identify, id, Chosen(files, identify, listing)) == NamesOf(kept)
    ensures forall n | n in Group(files, identify, id) ::
              n in Chosen(files, identify, listing) <==> n in NamesOf(tail)
  {
    assert forall g :: g in kept + tail <==> g in kept || g in tail;
    forall n | Grouped(files, identify, n, id) ensures n in NamesOf(kept) || n in NamesOf(tail) {
      assert GenerationOf(files, n).name == n;
    }
    KeptAreNotTail(kept, tail);
  }

  lemma KeptAreNotTail(kept: seq<Generation>, tail: seq<Generation>)
    requires DistinctNames(kept + tail)
    ensures NamesOf(kept) !! NamesOf(tail)
  {
    forall g, h | g in kept && h in tail ensures g.name != h.name {
      var i :| 0 <= i < |kept| && kept[i] == g;
      var j :| 0 <= j < |tail| && tail[j] == h;
      assert (kept + tail)[i] == g && (kept + tail)[|kept| + j] == h;
    }
  }

  lemma SmallGroupHasNoTail(files: Files, identify: Grouping, listing: seq<string>, id: Identity)
    requires Lists(listing, files) && |Group(files, identify, id)| <= SWEEP_KEEP
    ensures NamesOf(Tail(Generations(files, identify, listing, id))) == {}
  {
    var kept, tail := GroupSplits(files, identify, listing, id);
    GroupIsNames(files, identify, listing, id, kept, tail);
    NamesCount(kept + tail);
  }

  /** After a sweep that could delete, another finds nothing to do, whatever order it lists in. */
  lemma SecondSweepRemovesNothing(files: Files, identify: Grouping, listing: seq<string>, again: seq<string>)
    requires Lists(listing, files) && Lists(again, files - Chosen(files, identify, listing))
    ensures Chosen(files - Chosen(files, identify, listing), identify, again) == {}
  {
    var chosen := Chosen(files, identify, listing);
    var left := files - chosen;
    forall name | name in left ensures !Superseded(left, identify, again, name) {
      if left[name].isFile && identify(name).Some? {
        var id := identify(name).value;
        SweepKeepsNewest(files, identify, listing, id);
        assert Group(left, identify, id) == Kept(files, identify, id, chosen);
        SmallGroupHasNoTail(left, identify, again, id);
      }
    }
  }

  // ---------- Totals ----------

  ghost function Bytes(files: Files, names: set<string>): nat
    requires names <= files.Keys
  {
    if names == {} then 0
    else
      var n :| n in names;
      files[n].len + Bytes(files, names - {n})
  }

  lemma {:induction false} BytesWithout(files: Files, names: set<string>, n: string)
    requires names <= files.Keys && n in names
    ensures Bytes(files, names) == files[n].len + Bytes(files, names - {n})
  {
    var m :| m in names && Bytes(files, names) == files[m].len + Bytes(files, names - {m});
    if m != n {
      BytesWithout(files, names - {m}, n);
      BytesWithout(files, names - {n}, m);
      assert names - {m} - {n} == names - {n} - {m};
    }
  }

  lemma {:induction false} BytesSplit(files: Files, a: set<string>, b: set<string>)
    requires a !! b && a + b <= files.Keys
    ensures Bytes(files, a + b) == Bytes(files, a) + Bytes(files, b)
    decreases a
  {
    if a == {} {
      assert a + b == b;
    } else {
      var n :| n in a;
      BytesSplit(files, a - {n}, b);
      BytesWithout(files, a, n);
      BytesWithout(files, a + b, n);
      assert a + b - {n} == (a - {n}) + b;
    }
  }

  lemma {:induction false} BytesOfSubmap(files: Files, some: Files, names: set<string>)
    requires names <= some.Keys && forall n | n in some :: n in files && some[n] == files[n]
    ensures Bytes(some, names) == Bytes(files, names)
  {
    if names != {} {
      var n :| n in names;
      BytesWithout(some, names, n);
      BytesWithout(files, names, n);
      BytesOfSubmap(files, some, names - {n});
    }
  }

  lemma SweepConserves(files: Files, removed: set<string>)
    requires removed <= files.Keys
    ensures var left := files - removed;
            && |left| + |removed| == |files|
            && Bytes(left, left.Keys) + Bytes(files, removed) == Bytes(files, files.Keys)
  {
    var left := files - removed;
    assert left.Keys == files.Keys - removed && files.Keys == left.Keys + removed;
    BytesSplit(files, left.Keys, removed);
    BytesOfSubmap(files, left, left.Keys);
    assert |files.Keys| == |left.Keys| + |removed|;
  }

  // ---------- The sweep ----------

  type Groups = map<Identity, seq<Generation>>

  ghost predicate GroupsListed(groups: Groups, files: Files, identify: Grouping, listing: seq<string>) {
    && (forall id | id in groups :: groups[id] == Generations(files, identify, listing, id))
    && (forall id | id !in groups :: Generations(files, identify, listing, id) == [])
  }

  class BuildDir {
    var files: Files

    constructor (entries: Files)
      ensures files == entries
    {
      files := entries;
    }

    /** `read_dir` and the grouping loop. */
    method GroupArtefacts(identify: Grouping, listing: seq<string>) returns (groups: Groups)
      requires Lists(listing, files)
      ensures GroupsListed(groups, files, identify, listing)
    {
      groups := map[];
      for k := 0 to |listing|
        invariant GroupsListed(groups, files, identify, listing[..k])
      {
        var name := listing[k];
        assert listing[..k + 1][..k] == listing[..k];
        var meta := files[name];
        if !meta.isFile { continue; }
        match identify(name) {
          case None => continue;
          case Some(id) =>
            var generation := Generation(meta.modified, name, meta.len);
            groups := groups[id := (if id in groups then groups[id] else []) + [generation]];
        }
      }
      assert listing[..|listing|] == listing;
    }

    /** `remove_file`, which fails for the names in `stuck`. */
    method RemoveFile(name: string, stuck: set<string>) returns (ok: bool)
      modifies this
      ensures ok <==> name !in stuck
      ensures files == if ok then old(files) - {name} else old(files)
    {
      ok := name !in stuck;
      if ok {
        files := files - {name};
      }
    }

    /** Delete the `k`th file of a tail, or pretend to, and count it if it went. */
    method RemoveNext(ghost before: Files, tail: seq<Generation>, k: nat, dryRun: bool, stuck: set<string>,
                      count0: nat, bytes0: nat)
      returns (count: nat, bytes: nat)
      requires k < |tail| && IsTailOf(tail, before)
      requires TailSwept(before, files, tail[..k], dryRun, stuck, count0, bytes0)
      modifies this
      ensures TailSwept(before, files, tail[..k + 1], dryRun, stuck, count, bytes)
    {
      var g := tail[k];
      NextSwept(before, files, tail, k, dryRun, stuck, count0, bytes0);
      count, bytes := count0, bytes0;
      var ok := dryRun;
      if !dryRun {
        ok := RemoveFile(g.name, stuck);
      }
      if ok {
        count := count + 1;
        bytes := bytes + g.len;
      }
    }

    /** One artefact's tail. */
    method RemoveTail(tail: seq<Generation>, dryRun: bool, stuck: set<string>)
      returns (count: nat, bytes: nat)
      requires IsTailOf(tail, files)
      modifies this
      ensures TailSwept(old(files), files, tail, dryRun, stuck, count, bytes)
    {
      count, bytes := 0, 0;
      ghost var before := files;
      assert tail[..0] == [];
      NothingToSweep(files, dryRun, stuck);
      for k := 0 to |tail|
        invariant TailSwept(before, files, tail[..k], dryRun, stuck, count, bytes)
      {
        count, bytes := RemoveNext(before, tail, k, dryRun, stuck, count, bytes);
      }
      assert tail[..|tail|] == tail;
    }

    /** One turn of the outer loop, over the generations of `id`. */
    method SweepGroup(ghost before: Files, identify: Grouping, ghost listing: seq<string>, ghost done: set<Identity>,
                      ghost id: Identity, generation: seq<Generation>, dryRun: bool, stuck: set<string>,
                      count0: nat, bytes0: nat)
      returns (count: nat, bytes: nat)
      requires Lists(listing, before) && id !in done && generation == Generations(before, identify, listing, id)
      requires Swept(before, files, dryRun, stuck, identify, listing, done, count0, bytes0)
      modifies this
      ensures Swept(before, files, dryRun, stuck, identify, listing, done + {id}, count, bytes)
    {
      ghost var mid := files;
      var n, b := 0, 0;
      TailIsListed(before, files, dryRun, stuck, identify, listing, done, count0, bytes0, id);
      if |generation| <= SWEEP_KEEP {
        NothingToSweep(files, dryRun, stuck);
      } else {
        n, b := RemoveTail(NewestFirst(generation)[SWEEP_KEEP..], dryRun, stuck);
      }
      count, bytes := count0 + n, bytes0 + b;
      SweepStep(before, mid, files, dryRun, stuck, identify, listing, done, id, count0, bytes0, n, b);
    }

    /** The outer loop: group after group, in any order. */
    method SweepGroups(ghost before: Files, identify: Grouping, ghost listing: seq<string>, groups: Groups,
                       dryRun: bool, stuck: set<string>)
      returns (count: nat, bytes: nat)
      requires files == before && Lists(listing, before) && GroupsListed(groups, before, identify, listing)
      modifies this
      ensures Swept(before, files, dryRun, stuck, identify, listing, groups.Keys, count, bytes)
    {
      count, bytes := 0, 0;
      var ids := groups.Keys;
      ghost var done: set<Identity> := {};
      NothingSwept(before, dryRun, stuck, identify, listing);
      while ids != {}
        invariant ids !! done && ids + done == groups.Keys
        invariant Swept(before, files, dryRun, stuck, identify, listing, done, count, bytes)
        decreases |ids|
      {
        var id :| id in ids;
        count, bytes := SweepGroup(before, identify, listing, done, id, groups[id], dryRun, stuck, count, bytes);
        ids := ids - {id};
        done := done + {id};
      }
      assert done == groups.Keys;
    }

    /**
     * Sweep the directory. `listing` is the order `read_dir` happens to give and `stuck` the
     * names whose deletion fails: those stay and are not counted. A dry run counts every name
     * chosen and changes nothing.
     */
    method SweepDir(identify: Grouping, listing: seq<string>, dryRun: bool, stuck: set<string>)
      returns (count: nat, bytes: nat)
      requires Lists(listing, files)
      modifies this
      ensures Accounted(old(files), files, dryRun, Chosen(old(files), identify, listing) - Spared(dryRun, stuck),
                        count, bytes)
      ensures Conserved(old(files), files, dryRun, count, bytes)
    {
      ghost var before := files;
      var groups := GroupArtefacts(identify, listing);
      count, bytes := SweepGroups(before, identify, listing, groups, dryRun, stuck);
      AllChosen(before, identify, listing, groups);
      ghost var counted := Chosen(before, identify, listing) - Spared(dryRun, stuck);
      AccountedConserves(before, files, dryRun, counted, count, bytes);
    }
  }

  /** A tail whose files are still there. */
  ghost predicate IsTailOf(tail: seq<Generation>, files: Files) {
    DistinctNames(tail) && forall g | g in tail :: g.name in files && g == GenerationOf(files, g.name)
  }

  /** Where the deletion of a tail stands. */
  ghost predicate TailSwept(before: Files, now: Files, tail: seq<Generation>, dryRun: bool, stuck: set<string>,
                            count: nat, bytes: nat)
  {
    Accounted(before, now, dryRun, NamesOf(tail) - Spared(dryRun, stuck), count, bytes)
  }

  lemma NextSwept(before: Files, now: Files, tail: seq<Generation>, k: nat, dryRun: bool, stuck: set<string>,
                  count: nat, bytes: nat)
    requires k < |tail| && IsTailOf(tail, before)
    requires TailSwept(before, now, tail[..k], dryRun, stuck, count, bytes)
    ensures var g := tail[k];
            if dryRun || g.name !in stuck then
              TailSwept(before, if dryRun then now else now - {g.name}, tail[..k + 1], dryRun, stuck,
                        count + 1, bytes + g.len)
            else
              TailSwept(before, now, tail[..k + 1], dryRun, stuck, count, bytes)
  {
    var g := tail[k];
    var sofar, spared := NamesOf(tail[..k]), Spared(dryRun, stuck);
    NamesOfNext(tail, k);
    assert g in tail;
    if g.name in spared {
      assert sofar + {g.name} - spared == sofar - spared;
    } else {
      AccountOne(before, now, dryRun, sofar - spared, count, bytes, g.name);
      assert sofar + {g.name} - spared == (sofar - spared) + {g.name};
    }
  }

  lemma NothingToSweep(files: Files, dryRun: bool, stuck: set<string>)
    ensures TailSwept(files, files, [], dryRun, stuck, 0, 0)
  {
    assert NamesOf([]) - Spared(dryRun, stuck) == {};
    NothingAccounted(files, dryRun);
  }

  /** Where a sweep stands once the groups in `done` are dealt with. */
  ghost predicate Swept(before: Files, now: Files, dryRun: bool, stuck: set<string>, identify: Grouping,
                        listing: seq<string>, done: set<Identity>, count: nat, bytes: nat)
  {
    Accounted(before, now, dryRun, ChosenIn(before, identify, listing, done) - Spared(dryRun, stuck), count, bytes)
  }

  lemma NothingSwept(files: Files, dryRun: bool, stuck: set<string>, identify: Grouping, listing: seq<string>)
    ensures Swept(files, files, dryRun, stuck, identify, listing, {}, 0, 0)
  {
    NothingAccounted(files, dryRun);
    assert ChosenIn(files, identify, listing, {}) - Spared(dryRun, stuck) == {};
  }

  lemma SweepStep(before: Files, mid: Files, after: Files, dryRun: bool, stuck: set<string>, identify: Grouping,
                  listing: seq<string>, done: set<Identity>, id: Identity, count: nat, bytes: nat, n: nat, b: nat)
    requires Lists(listing, before) && id !in done
    requires Swept(before, mid, dryRun, stuck, identify, listing, done, count, bytes)
    requires TailSwept(mid, after, Tail(Generations(before, identify, listing, id)), dryRun, stuck, n, b)
    ensures Swept(before, after, dryRun, stuck, identify, listing, done + {id}, count + n, bytes + b)
  {
    var spared := Spared(dryRun, stuck);
    var sofar := ChosenIn(before, identify, listing, done);
    var more := NamesOf(Tail(Generations(before, identify, listing, id)));
    ChosenInGroup(before, identify, listing, done, id);
    AccountMoreLess(before, mid, after, dryRun, sofar, more, spared, count, n, bytes, b);
  }

  lemma AccountMoreLess(before: Files, mid: Files, after: Files, dryRun: bool, a: set<string>, b: set<string>,
                        spared: set<string>, countA: nat, countB: nat, bytesA: nat, bytesB: nat)
    requires Accounted(before, mid, dryRun, a - spared, countA, bytesA)
    requires Accounted(mid, after, dryRun, b - spared, countB, bytesB)
    requires a !! b
    ensures Accounted(before, after, dryRun, a + b - spared, countA + countB, bytesA + bytesB)
  {
    AccountMore(before, mid, after, dryRun, a - spared, b - spared, countA, countB, bytesA, bytesB);
    assert (a - spared) + (b - spared) == a + b - spared;
  }

  lemma NothingAccounted(files: Files, dryRun: bool)
    ensures Accounted(files, files, dryRun, {}, 0, 0)
  {
    assert files - {} == files;
  }

  /** What a real sweep fails to delete; a dry run has nothing to fail at. */
  function Spared(dryRun: bool, stuck: set<string>): set<string> {
    if dryRun then {} else stuck
  }

  /** `counted` names went from `before` (unless it was a dry run), and the totals are theirs. */
  ghost predicate Accounted(before: Files, after: Files, dryRun: bool, counted: set<string>, count: nat, bytes: nat) {
    && counted <= before.Keys
    && after == (if dryRun then before else before - counted)
    && count == |counted|
    && bytes == Bytes(before, counted)
  }

  /** A dry run leaves all; of a real sweep, files and bytes left and counted add up to what was there. */
  ghost predicate Conserved(before: Files, after: Files, dryRun: bool, count: nat, bytes: nat) {
    if dryRun then after == before
    else |after| + count == |before| && Bytes(after, after.Keys) + bytes == Bytes(before, before.Keys)
  }

  lemma AccountedConserves(before: Files, after: Files, dryRun: bool, counted: set<string>, count: nat, bytes: nat)
    requires Accounted(before, after, dryRun, counted, count, bytes)
    ensures Conserved(before, after, dryRun, count, bytes)
  {
    SweepConserves(before, counted);
  }

  lemma AccountOne(before: Files, after: Files, dryRun: bool, counted: set<string>, count: nat, bytes: nat,
                   name: string)
    requires Accounted(before, after, dryRun, counted, count, bytes) && name in before && name !in counted
    ensures Accounted(before, if dryRun then after else after - {name}, dryRun, counted + {name},
                      count + 1, bytes + before[name].len)
  {
    BytesWithout(before, counted + {name}, name);
    assert counted + {name} - {name} == counted;
    assert before - counted - {name} == before - (counted + {name});
  }

  lemma AccountMore(before: Files, mid: Files, after: Files, dryRun: bool, a: set<string>, b: set<string>,
                    countA: nat, countB: nat, bytesA: nat, bytesB: nat)
    requires Accounted(before, mid, dryRun, a, countA, bytesA) && Accounted(mid, after, dryRun, b, countB, bytesB)
    requires a !! b
    ensures Accounted(before, after, dryRun, a + b, countA + countB, bytesA + bytesB)
  {
    BytesSplit(before, a, b);
    BytesOfSubmap(before, mid, b);
    assert before - a - b == before - (a + b);
  }

  lemma NamesOfNext(tail: seq<Generation>, k: nat)
    requires k < |tail| && DistinctNames(tail)
    ensures NamesOf(tail[..k + 1]) == NamesOf(tail[..k]) + {tail[k].name} && tail[k].name !in NamesOf(tail[..k])
  {
    assert tail[..k + 1] == tail[..k] + [tail[k]];
    forall g | g in tail[..k] ensures g.name != tail[k].name {
      var i :| 0 <= i < k && tail[i] == g;
    }
  }

  ghost function ChosenIn(files: Files, identify: Grouping, listing: seq<string>, ids: set<Identity>): set<string> {
    set name | name in files && Superseded(files, identify, listing, name) && identify(name).value in ids
  }

  lemma ChosenInGroup(files: Files, identify: Grouping, listing: seq<string>, ids: set<Identity>, id: Identity)
    requires Lists(listing, files) && id !in ids
    ensures var tail := NamesOf(Tail(Generations(files, identify, listing, id)));
            && ChosenIn(files, identify, listing, ids + {id}) == ChosenIn(files, identify, listing, ids) + tail
            && ChosenIn(files, identify, listing, ids) !! tail
  {
    var kept, tail := GroupSplits(files, identify, listing, id);
    forall n | n in NamesOf(tail) ensures Superseded(files, identify, listing, n) && identify(n).value == id {
      var g :| g in tail && g.name == n;
    }
  }

  lemma TailIsListed(before: Files, now: Files, dryRun: bool, stuck: set<string>, identify: Grouping,
                     listing: seq<string>, done: set<Identity>, count: nat, bytes: nat, id: Identity)
    requires Lists(listing, before) && id !in done
    requires Swept(before, now, dryRun, stuck, identify, listing, done, count, bytes)
    ensures IsTailOf(Tail(Generations(before, identify, listing, id)), now)
  {
    var kept, tail := GroupSplits(before, identify, listing, id);
    ChosenInGroup(before, identify, listing, done, id);
    forall i, j | 0 <= i < j < |tail| ensures tail[i].name != tail[j].name {
      assert (kept + tail)[|kept| + i] == tail[i] && (kept + tail)[|kept| + j] == tail[j];
    }
    assert forall g | g in tail :: g.name in NamesOf(tail);
  }

  lemma AllChosen(files: Files, identify: Grouping, listing: seq<string>, groups: Groups)
    requires GroupsListed(groups, files, identify, listing)
    ensures ChosenIn(files, identify, listing, groups.Keys) == Chosen(files, identify, listing)
  {
    forall n | n in files && Superseded(files, identify, listing, n) ensures identify(n).value in groups {
      assert Generations(files, identify, listing, identify(n).value) != [];
    }
  }
}
