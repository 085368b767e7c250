/** The recursive search: which entries it reports, in which order, and the text it prints for them. */
module Find {
  import opened Words
  import opened FatLayout
  import opened FatShape
  import opened FatTree
  import opened Paths

  /** No directory lies deeper than `n` below the root. */
  ghost predicate Within(sh: Shape, n: nat) { forall d :: d in sh.depth ==> sh.depth[d] <= n }

  /** A live directory entry leads one level down. */
  lemma ChildIsBelow(v: Volume, sh: Shape, d: nat, i: nat)
    requires Sound(v, sh) && d in sh.depth && Slot(i)
    ensures d < CLUSTER_MAP_SIZE
    ensures Live(v.tables[d][i]) && IsDir(v.tables[d][i]) ==>
      First(v.tables[d][i]) in sh.depth && First(v.tables[d][i]) < CLUSTER_MAP_SIZE
      && sh.depth[First(v.tables[d][i])] == sh.depth[d] + 1
  {
    if Live(v.tables[d][i]) && IsDir(v.tables[d][i]) {
      assert EntryOk(v, sh, d, i);
      RootIsUnowned(v, sh);
      assert DirOk(v, sh, First(v.tables[d][i]));
    }
  }

  // ---------- depth is bounded ----------

  ghost function Ancestors(v: Volume, sh: Shape, d: nat): (r: seq<nat>)
    requires Sound(v, sh) && d in sh.depth
    ensures |r| == sh.depth[d] + 1
    ensures forall k :: 0 <= k < |r| ==> r[k] in sh.depth && sh.depth[r[k]] == sh.depth[d] - k
    decreases sh.depth[d]
  {
    if d == ROOT_CLUSTER then [d]
    else
      ParentIsAbove(v, sh, d);
      [d] + Ancestors(v, sh, Parent(v, d))
  }

  /** Whatever is on the disk, a sound tree is less than 510 directories deep, so both the walk up and the
      search down end. */
  lemma DepthIsBounded(v: Volume, sh: Shape)
    requires Sound(v, sh)
    ensures Within(sh, 509)
  {
    forall d | d in sh.depth
      ensures sh.depth[d] <= 509
    {
      var above := Ancestors(v, sh, d);
      var pool: seq<nat> := seq(510, k => k + 2);
      forall k | 0 <= k < |above|
        ensures above[k] in pool
      {
        assert pool[above[k] - 2] == above[k];
      }
      DistinctInPool(above, pool);
    }
  }

  // ---------- what is reported ----------

  /** From directory `d` the slots of `path` lead to a live entry named `item`. */
  ghost predicate Match(v: Volume, d: nat, path: seq<nat>, item: Name)
    requires Sized(v)
    decreases |path|
  {
    && path != [] && d < CLUSTER_MAP_SIZE && Slot(path[0]) && Live(v.tables[d][path[0]])
    && if |path| == 1 then v.tables[d][path[0]].name == item
       else IsDir(v.tables[d][path[0]]) && Match(v, First(v.tables[d][path[0]]), path[1..], item)
  }

  /** Every path of `hits`, entered through slot `i`. */
  function Under(i: nat, hits: seq<seq<nat>>): (r: seq<seq<nat>>)
    ensures |r| == |hits| && forall k :: 0 <= k < |r| ==> r[k] == [i] + hits[k]
  {
    seq(|hits|, k requires 0 <= k < |hits| => [i] + hits[k])
  }

  /** What the search reports below directory `d` from slot `i` on, as paths of slots. */
  ghost function Hits(v: Volume, sh: Shape, n: nat, d: nat, item: Name, i: nat): seq<seq<nat>>
    requires Sound(v, sh) && Within(sh, n) && d in sh.depth && 2 <= i <= TABLE_SLOTS
    decreases n - sh.depth[d], TABLE_SLOTS - i, 1
  {
    if i == TABLE_SLOTS then [] else SlotHits(v, sh, n, d, item, i) + Hits(v, sh, n, d, item, i + 1)
  }

  function Named(e: Entry, item: Name, i: nat): seq<seq<nat>> {
    if e.name == item then [[i]] else []
  }

  /** The reports of one slot: the entry itself first, then what lies below it. */
  ghost function SlotHits(v: Volume, sh: Shape, n: nat, d: nat, item: Name, i: nat): seq<seq<nat>>
    requires Sound(v, sh) && Within(sh, n) && d in sh.depth && Slot(i)
    decreases n - sh.depth[d], TABLE_SLOTS - i, 0
  {
    ChildIsBelow(v, sh, d, i);
    if !Live(v.tables[d][i]) then []
    else if !IsDir(v.tables[d][i]) then Named(v.tables[d][i], item, i)
    else Named(v.tables[d][i], item, i) + Under(i, Hits(v, sh, n, First(v.tables[d][i]), item, 2))
  }

  lemma InUnder(i: nat, hits: seq<seq<nat>>, path: seq<nat>)
    ensures path in Under(i, hits) <==> path != [] && path[0] == i && path[1..] in hits
  {
    var r := Under(i, hits);
    if path != [] && path[0] == i && path[1..] in hits {
      var k :| 0 <= k < |hits| && hits[k] == path[1..];
      assert r[k] == path;
    }
    if path in r {
      var k :| 0 <= k < |r| && r[k] == path;
      assert path[1..] == hits[k];
    }
  }

  /** A path is reported exactly when it leads to a live entry with the name: nothing is missed and nothing
      else is reported. */
  lemma {:induction false} HitsAreMatches(v: Volume, sh: Shape, n: nat, d: nat, item: Name, i: nat, path: seq<nat>)
    requires Sound(v, sh) && Within(sh, n) && d in sh.depth && 2 <= i <= TABLE_SLOTS
    ensures path in Hits(v, sh, n, d, item, i) <==> Match(v, d, path, item) && i <= path[0]
    decreases n - sh.depth[d], TABLE_SLOTS - i, 1
  {
    hide Sound, Within;
    if i < TABLE_SLOTS {
      HitsAreMatches(v, sh, n, d, item, i + 1, path);
      SlotHitsAreMatches(v, sh, n, d, item, i, path);
    }
  }

  lemma {:induction false} SlotHitsAreMatches(v: Volume, sh: Shape, n: nat, d: nat, item: Name, i: nat, path: seq<nat>)
    requires Sound(v, sh) && Within(sh, n) && d in sh.depth && Slot(i)
    ensures path in SlotHits(v, sh, n, d, item, i) <==> Match(v, d, path, item) && path[0] == i
    decreases n - sh.depth[d], TABLE_SLOTS - i, 0
  {
    ChildIsBelow(v, sh, d, i);
    var e := v.tables[d][i];
    assert |path| == 1 && path[0] == i ==> path == [i];
    if Live(e) && IsDir(e) && path != [] {
      HitsAreMatches(v, sh, n, First(e), item, 2, path[1..]);
      InUnder(i, Hits(v, sh, n, First(e), item, 2), path);
    }
  }

  lemma {:induction false} MatchIsNode(v: Volume, d: nat, path: seq<nat>, item: Name)
    requires Sized(v) && path != []
    ensures Match(v, d, path, item) <==>
      (var node := NodeAt(v, Walk(v, d, path[..|path| - 1]), path[|path| - 1]); node != Absent && node.name == item)
    decreases |path|
  {
    hide Contents;
    if |path| > 1 && d < CLUSTER_MAP_SIZE && Slot(path[0]) && Live(v.tables[d][path[0]]) && IsDir(v.tables[d][path[0]]) {
      assert path[1..][..|path| - 2] == path[..|path| - 1][1..];
      MatchIsNode(v, First(v.tables[d][path[0]]), path[1..], item);
    }
  }

  /** In terms of the tree: the reported paths are those at which a node with the name is found. */
  lemma MatchIsLook(v: Volume, path: seq<nat>, item: Name)
    requires Sized(v)
    ensures Match(v, ROOT_CLUSTER, path, item)
      <==> path != [] && Look(v, path) != Absent && Look(v, path).name == item
  {
    if path != [] {
      MatchIsNode(v, ROOT_CLUSTER, path, item);
    }
  }

  // ---------- in which order ----------

  /** Depth-first order of slot paths, a directory before what lies below it. */
  predicate Before(a: seq<nat>, b: seq<nat>)
    decreases |a|
  {
    b != [] && (a == [] || a[0] < b[0] || (a[0] == b[0] && Before(a[1..], b[1..])))
  }

  ghost predicate InOrder(hits: seq<seq<nat>>) {
    forall j, k :: 0 <= j < k < |hits| ==> Before(hits[j], hits[k])
  }

  lemma {:induction false} BeforeIsStrict(a: seq<nat>)
    ensures !Before(a, a)
    decreases |a|
  {
    if a != [] {
      BeforeIsStrict(a[1..]);
    }
  }

  lemma UnderInOrder(i: nat, hits: seq<seq<nat>>)
    requires InOrder(hits)
    ensures InOrder(Under(i, hits))
  {
    var r := Under(i, hits);
    forall j, k | 0 <= j < k < |r|
      ensures Before(r[j], r[k])
    {
      assert r[j][1..] == hits[j] && r[k][1..] == hits[k];
    }
  }

  ghost predicate AllBefore(a: seq<seq<nat>>, b: seq<seq<nat>>) {
    forall x, y :: x in a && y in b ==> Before(x, y)
  }

  lemma JoinInOrder(a: seq<seq<nat>>, b: seq<seq<nat>>)
    requires InOrder(a) && InOrder(b) && AllBefore(a, b)
    ensures InOrder(a + b)
  {
    hide Before;
    var r := a + b;
    forall j, k | 0 <= j < k < |r|
      ensures Before(r[j], r[k])
    {
      if j < |a| <= k {
        assert r[j] in a && r[k] in b;
      }
    }
  }

  lemma EmptyInOrder()
    ensures InOrder([])
  {}

  /** The reports come in strict depth-first order, so none comes twice. */
  lemma {:induction false} HitsInOrder(v: Volume, sh: Shape, n: nat, d: nat, item: Name, i: nat)
    requires Sound(v, sh) && Within(sh, n) && d in sh.depth && 2 <= i <= TABLE_SLOTS
    ensures InOrder(Hits(v, sh, n, d, item, i))
    decreases n - sh.depth[d], TABLE_SLOTS - i, 1
  {
    hide Sound, Within, InOrder;
    if i == TABLE_SLOTS {
      assert InOrder([]) by { EmptyInOrder(); }
    } else {
      HitsInOrder(v, sh, n, d, item, i + 1);
      SlotHitsInOrder(v, sh, n, d, item, i);
      var a, b := SlotHits(v, sh, n, d, item, i), Hits(v, sh, n, d, item, i + 1);
      forall x, y | x in a && y in b
        ensures Before(x, y)
      {
        SlotHitsAreMatches(v, sh, n, d, item, i, x);
        HitsAreMatches(v, sh, n, d, item, i + 1, y);
      }
      JoinInOrder(a, b);
    }
  }

  lemma {:induction false} SlotHitsInOrder(v: Volume, sh: Shape, n: nat, d: nat, item: Name, i: nat)
    requires Sound(v, sh) && Within(sh, n) && d in sh.depth && Slot(i)
    ensures InOrder(SlotHits(v, sh, n, d, item, i))
    decreases n - sh.depth[d], TABLE_SLOTS - i, 0
  {
    ChildIsBelow(v, sh, d, i);
    var e := v.tables[d][i];
    if Live(e) && IsDir(e) {
      var below := Hits(v, sh, n, First(e), item, 2);
      HitsInOrder(v, sh, n, First(e), item, 2);
      UnderInOrder(i, below);
      assert [] !in below by { HitsAreMatches(v, sh, n, First(e), item, 2, []); }
      forall x, y | x in Named(e, item, i) && y in Under(i, below)
        ensures Before(x, y)
      {
        InUnder(i, below, y);
        assert x[1..] == [];
      }
      JoinInOrder(Named(e, item, i), Under(i, below));
    }
  }

  lemma MatchStart(v: Volume, path: seq<nat>, item: Name)
    requires Sized(v)
    ensures Match(v, ROOT_CLUSTER, path, item) ==> path != [] && 2 <= path[0]
  {}

  /** The search from the root reports the paths at which the tree holds the name: each of them, only those,
      each once, and in depth-first order. */
  lemma SearchIsExact(v: Volume, sh: Shape, n: nat, item: Name)
    requires Sound(v, sh) && Within(sh, n)
    ensures ROOT_CLUSTER in sh.depth
    ensures var hits := Hits(v, sh, n, ROOT_CLUSTER, item, 2);
      && (forall path :: path in hits <==> path != [] && Look(v, path) != Absent && Look(v, path).name == item)
      && InOrder(hits) && forall j, k :: 0 <= j < k < |hits| ==> hits[j] != hits[k]
  {
    hide Within, Look, Match, Hits, Before;
    RootDepth(v, sh);
    var hits := Hits(v, sh, n, ROOT_CLUSTER, item, 2);
    forall path
      ensures path in hits <==> path != [] && Look(v, path) != Absent && Look(v, path).name == item
    {
      HitsAreMatches(v, sh, n, ROOT_CLUSTER, item, 2, path);
      MatchIsLook(v, path, item);
      MatchStart(v, path, item);
    }
    HitsInOrder(v, sh, n, ROOT_CLUSTER, item, 2);
    forall j, k | 0 <= j < k < |hits|
      ensures hits[j] != hits[k]
    {
      BeforeIsStrict(hits[j]);
    }
  }

  // ---------- what is printed ----------

  const NEWLINE: u8 := 10

  function Rows(names: seq<Bytes>): Bytes {
    if names == [] then [] else NameText(names[0]) + [SLASH] + Rows(names[1..])
  }

  /** Each directory on the way followed by a slash, the root's empty name first, and a line end. */
  function Line(names: seq<Name>): Bytes { [SLASH] + Rows(names) + [NEWLINE] }

  /** The text of one report; `prefix` names the directories above `d`, `d` included. */
  ghost function Report(v: Volume, d: nat, prefix: seq<Name>, path: seq<nat>): Bytes
    requires Sized(v)
    decreases |path|
  {
    if path == [] || d >= CLUSTER_MAP_SIZE || path[0] >= TABLE_SLOTS then []
    else
      var e := v.tables[d][path[0]];
      if |path| > 1 then Report(v, First(e), prefix + [e.name], path[1..])
      else if IsDir(e) then Line(prefix + [e.name])
      else Line(prefix) + NameText(e.name)
  }

  ghost function Transcript(v: Volume, d: nat, prefix: seq<Name>, hits: seq<seq<nat>>): Bytes
    requires Sized(v)
  {
    if hits == [] then [] else Report(v, d, prefix, hits[0]) + Transcript(v, d, prefix, hits[1..])
  }

  lemma {:induction false} TranscriptJoin(v: Volume, d: nat, prefix: seq<Name>, a: seq<seq<nat>>, b: seq<seq<nat>>)
    requires Sized(v)
    ensures Transcript(v, d, prefix, a + b) == Transcript(v, d, prefix, a) + Transcript(v, d, prefix, b)
    decreases |a|
  {
    hide Report;
    if a == [] {
      assert a + b == b;
    } else {
      assert (a + b)[1..] == a[1..] + b;
      TranscriptJoin(v, d, prefix, a[1..], b);
    }
  }

  /** What is printed below a subdirectory is what the search of it prints under the longer prefix. */
  lemma {:induction false} TranscriptUnder(v: Volume, d: nat, prefix: seq<Name>, i: nat, hits: seq<seq<nat>>)
    requires Sized(v) && d < CLUSTER_MAP_SIZE && i < TABLE_SLOTS && [] !in hits
    ensures Transcript(v, d, prefix, Under(i, hits))
      == Transcript(v, First(v.tables[d][i]), prefix + [v.tables[d][i].name], hits)
    decreases |hits|
  {
    if hits != [] {
      var r := Under(i, hits);
      assert r[0][1..] == hits[0];
      assert r[1..] == Under(i, hits[1..]);
      TranscriptUnder(v, d, prefix, i, hits[1..]);
    }
  }

  /** What the search prints for one slot: the entry itself, then what it finds below it. */
  ghost function SlotText(v: Volume, sh: Shape, n: nat, d: nat, item: Name, i: nat, prefix: seq<Name>): Bytes
    requires Sound(v, sh) && Within(sh, n) && d in sh.depth && Slot(i)
  {
    ChildIsBelow(v, sh, d, i);
    var e := v.tables[d][i];
    var itself := if e.name != item then [] else if IsDir(e) then Line(prefix + [e.name]) else Line(prefix) + NameText(e.name);
    if !Live(e) then []
    else if !IsDir(e) then itself
    else itself + Transcript(v, First(e), prefix + [e.name], Hits(v, sh, n, First(e), item, 2))
  }

  lemma SlotTranscript(v: Volume, sh: Shape, n: nat, d: nat, item: Name, i: nat, prefix: seq<Name>)
    requires Sound(v, sh) && Within(sh, n) && d in sh.depth && Slot(i)
    ensures Transcript(v, d, prefix, SlotHits(v, sh, n, d, item, i)) == SlotText(v, sh, n, d, item, i, prefix)
  {
    hide Line, NameText, First;
    ChildIsBelow(v, sh, d, i);
    var e := v.tables[d][i];
    var itself := Named(e, item, i);
    if Live(e) {
      assert itself != [] ==> itself[1..] == [];
      if IsDir(e) {
        var below := Hits(v, sh, n, First(e), item, 2);
        HitsAreMatches(v, sh, n, First(e), item, 2, []);
        TranscriptUnder(v, d, prefix, i, below);
        TranscriptJoin(v, d, prefix, itself, Under(i, below));
      }
    }
  }

  lemma OneSlotMore(v: Volume, sh: Shape, n: nat, d: nat, item: Name, i: nat, prefix: seq<Name>, before: Bytes)
    requires Sound(v, sh) && Within(sh, n) && d in sh.depth && Slot(i)
    ensures before + Transcript(v, d, prefix, Hits(v, sh, n, d, item, i))
      == before + Transcript(v, d, prefix, SlotHits(v, sh, n, d, item, i)) + Transcript(v, d, prefix, Hits(v, sh, n, d, item, i + 1))
    ensures Hits(v, sh, n, d, item, i) == [] <==> SlotHits(v, sh, n, d, item, i) == [] && Hits(v, sh, n, d, item, i + 1) == []
  {
    hide Within, Transcript;
    TranscriptJoin(v, d, prefix, SlotHits(v, sh, n, d, item, i), Hits(v, sh, n, d, item, i + 1));
  }

  lemma NothingMore(v: Volume, sh: Shape, n: nat, d: nat, item: Name, prefix: seq<Name>)
    requires Sound(v, sh) && Within(sh, n) && d in sh.depth
    ensures Hits(v, sh, n, d, item, TABLE_SLOTS) == [] && Transcript(v, d, prefix, []) == []
  {}

  lemma LineOfRows(names: seq<Name>)
    ensures Rows([[]] + names) + [NEWLINE] == Line(names)
  {
    var rows: seq<Bytes> := [[]] + names;
    assert rows[0] == [] && rows[1..] == names;
  }
}
