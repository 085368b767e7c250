/** Paths as text: how the prompt spells a directory, how a path is split into words, and where a walk by
    names ends. */
module Paths {
  import opened Words
  import opened FatLayout
  import opened FatShape

  const SLASH: u8 := 47

  // ---------- names ----------

  /** The characters of a name field before its first zero. */
  function NameText(n: Bytes): (r: Bytes)
    ensures |r| <= |n| && r == n[..|r|] && (forall k :: 0 <= k < |r| ==> r[k] != 0)
    ensures |r| < |n| ==> n[|r|] == 0
  {
    if n == [] || n[0] == 0 then [] else [n[0]] + NameText(n[1..])
  }

  /** Some text without a slash, padded with zeros. */
  predicate ValidName(n: Name) {
    NameText(n) != [] && SLASH !in NameText(n) && forall k :: |NameText(n)| <= k < 8 ==> n[k] == 0
  }

  /** The eight bytes a word is compared by. */
  function Field(word: Bytes): Name {
    seq(8, k requires 0 <= k => if k < |word| then word[k] else 0)
  }

  lemma FieldOfName(n: Name)
    requires ValidName(n)
    ensures Field(NameText(n)) == n
  {}

  // ---------- the prompt ----------

  function Parent(v: Volume, d: nat): nat
    requires Sized(v) && d < CLUSTER_MAP_SIZE
  {
    First(v.tables[d][1])
  }

  /** The parent pointer of a directory leads one step up the tree. */
  lemma ParentIsAbove(v: Volume, sh: Shape, d: nat)
    requires Sound(v, sh) && d in sh.depth && d != ROOT_CLUSTER
    ensures d < CLUSTER_MAP_SIZE && Parent(v, d) in sh.depth && Parent(v, d) < CLUSTER_MAP_SIZE
    ensures sh.depth[d] == sh.depth[Parent(v, d)] + 1
  {
    assert DirOk(v, sh, d);
  }

  /** The names met walking up from `d`, nearest first. */
  ghost function NamesUp(v: Volume, sh: Shape, d: nat): (r: seq<Name>)
    requires Sound(v, sh) && d in sh.depth
    ensures |r| == sh.depth[d]
    decreases sh.depth[d]
  {
    if d == ROOT_CLUSTER then []
    else
      ParentIsAbove(v, sh, d);
      [v.tables[d][0].name] + NamesUp(v, sh, Parent(v, d))
  }

  /** The directory just below the root on the way to `d`. */
  ghost function Topmost(v: Volume, sh: Shape, d: nat): (r: nat)
    requires Sound(v, sh) && d in sh.depth && d != ROOT_CLUSTER
    ensures r in sh.depth && r < CLUSTER_MAP_SIZE && sh.depth[r] == 1
    decreases sh.depth[d]
  {
    ParentIsAbove(v, sh, d);
    if Parent(v, d) == ROOT_CLUSTER then d else Topmost(v, sh, Parent(v, d))
  }

  lemma NothingUp(v: Volume, sh: Shape)
    requires Sound(v, sh)
    ensures ROOT_CLUSTER in sh.depth && sh.depth[ROOT_CLUSTER] == 0 && NamesUp(v, sh, ROOT_CLUSTER) == []
  {}

  lemma OneStepUp(v: Volume, sh: Shape, d: nat)
    requires Sound(v, sh) && d in sh.depth && d != ROOT_CLUSTER
    ensures d < CLUSTER_MAP_SIZE && Parent(v, d) in sh.depth && sh.depth[d] == sh.depth[Parent(v, d)] + 1
    ensures NamesUp(v, sh, d) == [v.tables[d][0].name] + NamesUp(v, sh, Parent(v, d))
    ensures Topmost(v, sh, d) == if Parent(v, d) == ROOT_CLUSTER then d else Topmost(v, sh, Parent(v, d))
  {
    ParentIsAbove(v, sh, d);
  }

  /** Names spelled from the last to the first, each after a slash except the first one spelled. */
  function Spell(names: seq<Name>): Bytes {
    if names == [] then []
    else if |names| == 1 then NameText(names[0])
    else Spell(names[1..]) + [SLASH] + NameText(names[0])
  }

  /** The path part of the prompt. */
  ghost function PathOf(v: Volume, sh: Shape, d: nat): Bytes
    requires Sound(v, sh) && d in sh.depth
  {
    [SLASH] + Spell(NamesUp(v, sh, d))
  }

  // ---------- splitting ----------

  predicate IsAbsolute(path: Bytes) { path != [] && path[0] == SLASH }

  /** The words of a text separated by slashes; there is always at least one. */
  function Pieces(s: Bytes): (r: seq<Bytes>)
    ensures |r| >= 1
  {
    if s == [] then [[]]
    else
      var r := Pieces(s[..|s| - 1]);
      if s[|s| - 1] == SLASH then r + [[]] else r[|r| - 1 := r[|r| - 1] + [s[|s| - 1]]]
  }

  /** The words of a path, one leading slash aside. */
  function Split(path: Bytes): (r: seq<Bytes>)
    ensures |r| >= 1
  {
    Pieces(if IsAbsolute(path) then path[1..] else path)
  }

  lemma NoPieces()
    ensures Pieces([]) == [[]]
  {}

  /** What the parser's buffer of 16 words of 10 characters can hold. */
  predicate Fits(words: seq<Bytes>) { |words| <= 16 && forall k :: 0 <= k < |words| ==> |words[k]| <= 10 }

  lemma {:induction false} PiecesGrow(s: Bytes, n: nat)
    requires n <= |s| && Fits(Pieces(s))
    ensures Fits(Pieces(s[..n]))
    decreases |s|
  {
    if n == |s| {
      assert s[..n] == s;
    } else {
      var before := s[..|s| - 1];
      var r, all := Pieces(before), Pieces(s);
      forall k | 0 <= k < |r|
        ensures |r[k]| <= 10
      {
        assert |all[k]| <= 10;
      }
      PiecesGrow(before, n);
      assert before[..n] == s[..n];
    }
  }

  /** One more character either opens an empty word or lengthens the last one. */
  lemma NextPiece(s: Bytes, n: nat)
    requires n < |s| && Fits(Pieces(s))
    ensures var r := Pieces(s[..n]);
      if s[n] == SLASH then Pieces(s[..n + 1]) == r + [[]] && |r| < 16
      else Pieces(s[..n + 1]) == r[|r| - 1 := r[|r| - 1] + [s[n]]] && |r| <= 16 && |r[|r| - 1]| < 10
  {
    PiecesGrow(s, n + 1);
    assert s[..n + 1][..n] == s[..n];
    var r, next := Pieces(s[..n]), Pieces(s[..n + 1]);
    assert |next[|next| - 1]| <= 10;
  }

  lemma {:induction false} PiecesOfWord(a: Bytes, w: Bytes)
    requires SLASH !in w
    ensures Pieces(a + w) == (var r := Pieces(a); r[|r| - 1 := r[|r| - 1] + w])
    decreases |w|
  {
    if w == [] {
      assert a + w == a;
      var r := Pieces(a);
      assert r[|r| - 1] + w == r[|r| - 1];
    } else {
      var w', c := w[..|w| - 1], w[|w| - 1];
      assert (a + w)[..|a + w| - 1] == a + w';
      assert c != SLASH by { assert c in w; }
      PiecesOfWord(a, w');
      var r := Pieces(a);
      assert r[|r| - 1] + w == r[|r| - 1] + w' + [c];
    }
  }

  function Texts(names: seq<Name>): seq<Bytes> {
    if names == [] then [] else Texts(names[1..]) + [NameText(names[0])]
  }

  /** Splitting what was spelled gives the names back, topmost first. */
  lemma {:induction false} SplitOfSpell(names: seq<Name>)
    requires names != [] && forall k :: 0 <= k < |names| ==> ValidName(names[k])
    ensures Pieces(Spell(names)) == Texts(names)
    decreases |names|
  {
    var w := NameText(names[0]);
    if |names| == 1 {
      PiecesOfWord([], w);
      assert [] + w == w;
      assert Texts(names[1..]) == [];
    } else {
      var s := Spell(names[1..]);
      SplitOfSpell(names[1..]);
      assert (s + [SLASH])[..|s + [SLASH]| - 1] == s;
      PiecesOfWord(s + [SLASH], w);
      assert [] + w == w;
    }
  }

  // ---------- walking by names ----------

  /** The first live slot of a table, the reserved ones included, with this name; or the table's size. */
  function NameSlot(t: Table, name: Name, i: nat): (s: nat)
    requires i <= TABLE_SLOTS
    ensures i <= s <= TABLE_SLOTS && (s < TABLE_SLOTS ==> Live(t[s]) && t[s].name == name)
    ensures forall k :: i <= k < s ==> !(Live(t[k]) && t[k].name == name)
    decreases TABLE_SLOTS - i
  {
    if i == TABLE_SLOTS || (Live(t[i]) && t[i].name == name) then i else NameSlot(t, name, i + 1)
  }

  datatype Arrival = Arrival(code: int, dir: nat)

  /** The walk of `cd`: code 0 and the directory reached, 2 for a missing name, 3 for a file; a walk that leaves
      the disk is cut off with code -1. */
  function Go(v: Volume, d: nat, words: seq<Bytes>): Arrival
    requires Sized(v)
    decreases |words|
  {
    if d >= DISK_CLUSTERS then Arrival(-1, d)
    else if words == [] then Arrival(0, d)
    else
      var s := NameSlot(v.tables[d], Field(words[0]), 0);
      if s == TABLE_SLOTS then Arrival(2, d)
      else if !IsDir(v.tables[d][s]) then Arrival(3, d)
      else Go(v, First(v.tables[d][s]), words[1..])
  }

  /** The walk a path asks for from directory `start`; without `isdir` its last word is left out. */
  function Destination(v: Volume, start: nat, path: Bytes, isdir: bool): Arrival
    requires Sized(v)
  {
    var words := Split(path);
    Go(v, if IsAbsolute(path) then ROOT_CLUSTER else start, if isdir then words else words[..|words| - 1])
  }

  lemma GoStep(v: Volume, d: nat, words: seq<Bytes>)
    requires Sized(v) && d < DISK_CLUSTERS
    ensures words == [] ==> Go(v, d, words) == Arrival(0, d)
    ensures words != [] ==>
      var s := NameSlot(v.tables[d], Field(words[0]), 0);
      && (s == TABLE_SLOTS ==> Go(v, d, words) == Arrival(2, d))
      && (s < TABLE_SLOTS && !IsDir(v.tables[d][s]) ==> Go(v, d, words) == Arrival(3, d))
      && (s < TABLE_SLOTS && IsDir(v.tables[d][s]) ==>
            && Go(v, d, words) == Go(v, First(v.tables[d][s]), words[1..])
            && (First(v.tables[d][s]) >= DISK_CLUSTERS ==> Go(v, d, words).code == -1))
  {}

  lemma {:induction false} GoSnoc(v: Volume, d: nat, words: seq<Bytes>, w: Bytes)
    requires Sized(v) && Go(v, d, words).code == 0
    ensures Go(v, d, words + [w]) == Go(v, Go(v, d, words).dir, [w])
    decreases |words|
  {
    if words == [] {
      assert words + [w] == [w];
    } else {
      assert (words + [w])[1..] == words[1..] + [w];
      GoSnoc(v, First(v.tables[d][NameSlot(v.tables[d], Field(words[0]), 0)]), words[1..], w);
    }
  }

  /** The directory is named as its parent can find it: a valid name that no lower live slot of the parent,
      the parent's own name and `..` included, carries too. */
  ghost predicate FoundByName(v: Volume, sh: Shape, d: nat)
    requires Sound(v, sh) && d in sh.depth && d != ROOT_CLUSTER
  {
    ParentIsAbove(v, sh, d);
    DirOk(v, sh, d) && d in sh.own && ValidName(v.tables[d][0].name)
    && forall s :: 0 <= s < sh.own[d].slot && s < TABLE_SLOTS && Live(v.tables[Parent(v, d)][s])
         ==> v.tables[Parent(v, d)][s].name != v.tables[d][0].name
  }

  /** So is every directory above it. */
  ghost predicate Addressable(v: Volume, sh: Shape, d: nat)
    requires Sound(v, sh) && d in sh.depth
    decreases sh.depth[d]
  {
    if d == ROOT_CLUSTER then true
    else
      ParentIsAbove(v, sh, d);
      FoundByName(v, sh, d) && Addressable(v, sh, Parent(v, d))
  }

  /** One step: the parent's table finds the name in the directory's own slot exactly when no lower live slot
      carries it, and that slot leads to the directory. */
  lemma NameLeadsTo(v: Volume, sh: Shape, d: nat)
    requires Sound(v, sh) && d in sh.depth && d != ROOT_CLUSTER
    ensures Parent(v, d) < CLUSTER_MAP_SIZE && d in sh.own && sh.own[d].slot < TABLE_SLOTS
    ensures var t := v.tables[Parent(v, d)]; var s := sh.own[d].slot; var name := v.tables[d][0].name;
      && First(t[s]) == d && IsDir(t[s]) && Live(t[s]) && t[s].name == name
      && (NameSlot(t, name, 0) == s <==> forall k :: 0 <= k < s && Live(t[k]) ==> t[k].name != name)
  {
    assert DirOk(v, sh, d);
    assert OwnerOk(v, sh, d);
    var t := v.tables[Parent(v, d)];
    var s, name := sh.own[d].slot, v.tables[d][0].name;
    var n := NameSlot(t, name, 0);
    if forall k :: 0 <= k < s && Live(t[k]) ==> t[k].name != name {
      assert !(n < s);
    }
  }

  lemma RootDepth(v: Volume, sh: Shape)
    requires Sound(v, sh)
    ensures ROOT_CLUSTER in sh.depth && sh.depth[ROOT_CLUSTER] == 0
  {}

  lemma StepDown(v: Volume, sh: Shape, d: nat)
    requires Sound(v, sh) && d in sh.depth && d != ROOT_CLUSTER && FoundByName(v, sh, d)
    ensures d < CLUSTER_MAP_SIZE && ValidName(v.tables[d][0].name)
    ensures Go(v, Parent(v, d), [NameText(v.tables[d][0].name)]) == Arrival(0, d)
  {
    hide ValidName, First;
    ParentIsAbove(v, sh, d);
    NameLeadsTo(v, sh, d);
    var name := v.tables[d][0].name;
    FieldOfName(name);
    var words := [NameText(name)];
    assert words[0] == NameText(name) && words[1..] == [];
  }

  lemma {:induction false} WalkBack(v: Volume, sh: Shape, d: nat)
    requires Sound(v, sh) && d in sh.depth && Addressable(v, sh, d)
    ensures Go(v, ROOT_CLUSTER, Texts(NamesUp(v, sh, d))) == Arrival(0, d)
    ensures forall k :: 0 <= k < sh.depth[d] ==> ValidName(NamesUp(v, sh, d)[k])
    decreases sh.depth[d]
  {
    hide FoundByName, DirOk, EntriesOk, OwnersOk;
    if d == ROOT_CLUSTER {
      RootDepth(v, sh);
    } else {
      ParentIsAbove(v, sh, d);
      var p := Parent(v, d);
      WalkBack(v, sh, p);
      var name := v.tables[d][0].name;
      var up := NamesUp(v, sh, p);
      assert NamesUp(v, sh, d)[1..] == up;
      StepDown(v, sh, d);
      GoSnoc(v, ROOT_CLUSTER, Texts(up), NameText(name));
    }
  }

  lemma TextsLength(names: seq<Name>)
    ensures |Texts(names)| == |names| && forall k :: 0 <= k < |Texts(names)| ==> |Texts(names)[k]| <= 8
  {}

  /** The path printed for a directory other than the root is absolute, fits the parser exactly when the
      directory is at most 16 deep, and followed from anywhere leads back to the same directory. */
  lemma PathRoundTrip(v: Volume, sh: Shape, d: nat, start: nat)
    requires Sound(v, sh) && d in sh.depth && d != ROOT_CLUSTER && Addressable(v, sh, d)
    ensures Destination(v, start, PathOf(v, sh, d), true) == Arrival(0, d)
    ensures IsAbsolute(PathOf(v, sh, d)) && |Split(PathOf(v, sh, d))| == sh.depth[d]
    ensures Fits(Split(PathOf(v, sh, d))) <==> sh.depth[d] <= 16
  {
    hide Sound, FoundByName, Addressable;
    var names := NamesUp(v, sh, d);
    WalkBack(v, sh, d);
    ParentIsAbove(v, sh, d);
    SplitOfSpell(names);
    assert PathOf(v, sh, d)[1..] == Spell(names);
    TextsLength(names);
  }

  lemma GoNowhere(v: Volume, d: nat)
    requires Sized(v)
    ensures Go(v, d, []) == if d < DISK_CLUSTERS then Arrival(0, d) else Arrival(-1, d)
  {}

  /** No entry of the root leads to the root. */
  lemma RootIsNoEntry(v: Volume, sh: Shape, s: nat)
    requires Sound(v, sh) && Slot(s) && Live(v.tables[ROOT_CLUSTER][s])
    ensures First(v.tables[ROOT_CLUSTER][s]) != ROOT_CLUSTER
  {
    assert EntryOk(v, sh, ROOT_CLUSTER, s);
    assert OwnerOk(v, sh, First(v.tables[ROOT_CLUSTER][s]));
  }

  /** The root's own path is the exception: "/" has one empty word.  The walk fails unless some live entry of
      the root has an all-zero name, and it leads back to the root exactly when the first such entry is the
      root's own and points at the root, or is the `..` entry. */
  lemma RootPathFails(v: Volume, sh: Shape)
    requires Sound(v, sh)
    ensures ROOT_CLUSTER in sh.depth && PathOf(v, sh, ROOT_CLUSTER) == [SLASH] && Split([SLASH]) == [[]]
    ensures var t := v.tables[ROOT_CLUSTER]; var a := Go(v, ROOT_CLUSTER, Split([SLASH]));
      && (a == Arrival(2, ROOT_CLUSTER) <==> forall s :: 0 <= s < TABLE_SLOTS && Live(t[s]) ==> t[s].name != Field([]))
      && (a == Arrival(0, ROOT_CLUSTER) <==>
           if t[0].name == Field([]) then First(t[0]) == ROOT_CLUSTER else t[1].name == Field([]))
  {
    hide First;
    RootDepth(v, sh);
    assert [SLASH][1..] == [];
    var words: seq<Bytes> := [[]];
    assert words[0] == [] && words[1..] == [];
    var t := v.tables[ROOT_CLUSTER];
    var s := NameSlot(t, Field([]), 0);
    assert DirOk(v, sh, ROOT_CLUSTER);
    if s < TABLE_SLOTS && IsDir(t[s]) {
      GoNowhere(v, First(t[s]));
      if 2 <= s { RootIsNoEntry(v, sh, s); }
    }
  }
}
