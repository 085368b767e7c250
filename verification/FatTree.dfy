/** The file system a disk image presents: what is found at every path of slot numbers from the root. */
module FatTree {
  import opened Words
  import opened FatLayout
  import opened FatShape

  datatype Node = Absent | Folder(name: Name) | File(name: Name, ext: Ext, size: u32, blocks: seq<Cluster>)

  /** The directory reached from `d` through the given slots, or -1. */
  ghost function Walk(v: Volume, d: int, path: seq<nat>): (r: int)
    requires Sized(v)
    decreases |path|
  {
    if path == [] then d
    else if 0 <= d < CLUSTER_MAP_SIZE && Slot(path[0]) && Live(v.tables[d][path[0]]) && IsDir(v.tables[d][path[0]]) then
      Walk(v, First(v.tables[d][path[0]]), path[1..])
    else -1
  }

  /** The clusters of data of an entry's chain. */
  ghost function Contents(v: Volume, e: Entry): seq<Cluster>
    requires Sized(v)
  {
    var r := Chain(v.fat, First(e), Length(e));
    seq(|r|, k requires 0 <= k < |r| => if r[k] < DISK_CLUSTERS then v.data[r[k]] else BLANK_CLUSTER)
  }

  ghost function NodeAt(v: Volume, d: int, s: nat): Node
    requires Sized(v)
  {
    if !(0 <= d < CLUSTER_MAP_SIZE && Slot(s) && Live(v.tables[d][s])) then Absent
    else
      var e := v.tables[d][s];
      if IsDir(e) then Folder(e.name) else File(e.name, e.ext, e.filesize, Contents(v, e))
  }

  /** What lies at the end of a path; the empty path is the root itself. */
  ghost function Look(v: Volume, path: seq<nat>): Node
    requires Sized(v)
  {
    if path == [] then Folder(v.tables[ROOT_CLUSTER][0].name)
    else NodeAt(v, Walk(v, ROOT_CLUSTER, path[..|path| - 1]), path[|path| - 1])
  }

  ghost predicate SameTree(v: Volume, w: Volume)
  {
    Sized(v) && Sized(w) && forall path :: Look(v, path) == Look(w, path)
  }

  ghost predicate LeadsTo(v: Volume, path: seq<nat>, p: nat, s: nat)
    requires Sized(v)
  {
    path != [] && path[|path| - 1] == s && Walk(v, ROOT_CLUSTER, path[..|path| - 1]) == p
  }

  /** `w` presents the tree of `v` with exactly one change: slot `s` of directory `p` holds `node`. */
  ghost predicate ChangedAt(v: Volume, w: Volume, p: nat, s: nat, node: Node)
  {
    Sized(v) && Sized(w) && forall path :: Look(w, path) == if LeadsTo(v, path, p, s) then node else Look(v, path)
  }

  // ---------- directories are exactly what can be walked to ----------

  lemma RootIsUnowned(v: Volume, sh: Shape)
    requires Sound(v, sh)
    ensures ROOT_CLUSTER !in sh.own
  {
    assert ROOT_CLUSTER in sh.own ==> OwnerOk(v, sh, ROOT_CLUSTER);
  }

  lemma {:induction false} WalkStays(v: Volume, sh: Shape, d: nat, path: seq<nat>)
    requires Sound(v, sh) && d in sh.depth
    ensures Walk(v, d, path) == -1 || (Walk(v, d, path) in sh.depth && sh.depth[Walk(v, d, path)] == sh.depth[d] + |path|)
    decreases |path|
  {
    if path != [] && Slot(path[0]) && Live(v.tables[d][path[0]]) && IsDir(v.tables[d][path[0]]) {
      assert EntryOk(v, sh, d, path[0]);
      var c := First(v.tables[d][path[0]]);
      RootIsUnowned(v, sh);
      assert DirOk(v, sh, c);
      WalkStays(v, sh, c, path[1..]);
    }
  }

  lemma {:induction false} WalkSnoc(v: Volume, d: int, path: seq<nat>, s: nat)
    requires Sized(v)
    ensures Walk(v, d, path + [s]) == Walk(v, Walk(v, d, path), [s])
    decreases |path|
  {
    if path == [] {
      assert path + [s] == [s];
    } else {
      assert (path + [s])[1..] == path[1..] + [s];
      if 0 <= d < CLUSTER_MAP_SIZE && Slot(path[0]) && Live(v.tables[d][path[0]]) && IsDir(v.tables[d][path[0]]) {
        WalkSnoc(v, First(v.tables[d][path[0]]), path[1..], s);
      }
    }
  }

  /** Every directory of the shape is reached from the root by some path, as long as it is deep. */
  lemma {:induction false} DirIsReached(v: Volume, sh: Shape, d: nat) returns (path: seq<nat>)
    requires Sound(v, sh) && d in sh.depth
    ensures Walk(v, ROOT_CLUSTER, path) == d && |path| == sh.depth[d]
    decreases sh.depth[d]
  {
    assert DirOk(v, sh, d);
    if d == ROOT_CLUSTER {
      path := [];
    } else {
      var l := sh.own[d];
      assert OwnerOk(v, sh, d);
      var above := DirIsReached(v, sh, l.dir);
      path := above + [l.slot];
      WalkSnoc(v, ROOT_CLUSTER, above, l.slot);
    }
  }

  /** A witness-free reading of "is a directory of the tree". */
  ghost predicate Reachable(v: Volume, d: nat) {
    Sized(v) && exists path :: Walk(v, ROOT_CLUSTER, path) == d
  }

  lemma ReachableIsDir(v: Volume, sh: Shape, d: nat)
    requires Sound(v, sh)
    ensures Reachable(v, d) <==> d in sh.depth
  {
    if d in sh.depth {
      var path := DirIsReached(v, sh, d);
    }
    forall path | Walk(v, ROOT_CLUSTER, path) == d
      ensures d in sh.depth
    {
      WalkStays(v, sh, ROOT_CLUSTER, path);
    }
  }

  // ---------- frames ----------

  ghost predicate SameData(v: Volume, w: Volume, sh: Shape) {
    Sized(v) && Sized(w) && forall c :: c in sh.own && c !in sh.depth && c < CLUSTER_MAP_SIZE ==> w.data[c] == v.data[c]
  }

  lemma {:induction false} ChainFrame(f: Fat, g: Fat, c: nat, n: nat, r: seq<nat>)
    requires r == Chain(f, c, n)
    requires forall k :: 0 <= k < |r| - 1 && r[k] < CLUSTER_MAP_SIZE ==> g[r[k]] == f[r[k]]
    ensures Chain(g, c, n) == r
    decreases n
  {
    if n > 1 && c < CLUSTER_MAP_SIZE {
      var q: seq<nat> := Chain(f, f[c], n - 1);
      assert r == [c] + q && |q| > 0;
      assert g[r[0]] == f[r[0]];
      forall k | 0 <= k < |q| - 1 && q[k] < CLUSTER_MAP_SIZE
        ensures g[q[k]] == f[q[k]]
      {
        assert q[k] == r[k + 1];
      }
      ChainFrame(f, g, f[c], n - 1, q);
    }
  }

  lemma ContentsFrame(v: Volume, w: Volume, sh: Shape, d: nat, s: nat)
    requires Sound(v, sh) && SameData(v, w, sh) && d in sh.depth && Slot(s) && Live(v.tables[d][s]) && !IsDir(v.tables[d][s])
    requires forall c :: c in sh.own && c < CLUSTER_MAP_SIZE && sh.own[c].dir == d && sh.own[c].slot == s ==> w.fat[c] == v.fat[c]
    ensures Contents(w, v.tables[d][s]) == Contents(v, v.tables[d][s])
  {
    hide Length, First;
    ChainsAreProper(v, sh, d, s);
    var e := v.tables[d][s];
    var r: seq<nat> := EntryChain(v, d, s);
    forall k | 0 <= k < |r|
      ensures r[k] in sh.own && r[k] < CLUSTER_MAP_SIZE && r[k] !in sh.depth
    {
      assert sh.own[r[k]] == Loc(d, s, k);
      RootIsUnowned(v, sh);
      assert r[k] in sh.depth ==> DirOk(v, sh, r[k]);
    }
    ChainFrame(v.fat, w.fat, First(e), Length(e), r);
    assert Contents(w, e) == Contents(v, e);
  }

  lemma {:induction false} WalkFrame(v: Volume, w: Volume, sh: Shape, d: nat, path: seq<nat>)
    requires Sound(v, sh) && SameMeta(v, w, sh) && d in sh.depth
    ensures Walk(w, d, path) == Walk(v, d, path)
    decreases |path|
  {
    if path != [] && Slot(path[0]) && Live(v.tables[d][path[0]]) && IsDir(v.tables[d][path[0]]) {
      assert EntryOk(v, sh, d, path[0]);
      WalkFrame(v, w, sh, First(v.tables[d][path[0]]), path[1..]);
    }
  }

  /** A change confined to unreachable clusters and free FAT cells does not show. */
  lemma UnreachableChange(v: Volume, w: Volume, sh: Shape)
    requires Sound(v, sh) && SameMeta(v, w, sh) && SameData(v, w, sh)
    ensures SameTree(v, w)
  {
    forall path
      ensures Look(v, path) == Look(w, path)
    {
      if path != [] {
        var up := path[..|path| - 1];
        WalkFrame(v, w, sh, ROOT_CLUSTER, up);
        WalkStays(v, sh, ROOT_CLUSTER, up);
        var d, s := Walk(v, ROOT_CLUSTER, up), path[|path| - 1];
        if d != -1 && Slot(s) && Live(v.tables[d][s]) && !IsDir(v.tables[d][s]) {
          ContentsFrame(v, w, sh, d, s);
        }
      }
    }
  }

  // ---------- one entry more ----------

  lemma WalkFresh(w: Volume, d: nat, name: Name, parent: nat, path: seq<nat>)
    requires Sized(w) && d < CLUSTER_MAP_SIZE && FreshTable(w.tables[d], name, parent)
    ensures Walk(w, d, path) == if path == [] then d else -1
  {}

  /** Where walks of the grown volume end: as before, except that a path into the new slot now reaches
      the new directory, if a directory it is. */
  lemma {:induction false} WalkGrown(v: Volume, w: Volume, sh: Shape, p: nat, s: nat, e: Entry, cs: seq<nat>, d: nat, path: seq<nat>)
    requires Sound(v, sh) && Grown(v, w, sh, p, s, e, cs) && d in sh.depth
    ensures Walk(v, d, path) != -1 ==> Walk(w, d, path) == Walk(v, d, path)
    ensures Walk(v, d, path) == -1 ==> Walk(w, d, path) == -1 || (IsDir(e) && Walk(w, d, path) == cs[0])
    decreases |path|
  {
    hide Length, FreshTable;
    if path != [] && Slot(path[0]) {
      if d == p && path[0] == s {
        if IsDir(e) { WalkFresh(w, cs[0], e.name, p, path[1..]); }
      } else if Live(v.tables[d][path[0]]) && IsDir(v.tables[d][path[0]]) {
        assert EntryOk(v, sh, d, path[0]);
        WalkGrown(v, w, sh, p, s, e, cs, First(v.tables[d][path[0]]), path[1..]);
      }
    }
  }

  lemma NothingInFresh(w: Volume, d: nat, name: Name, parent: nat, i: nat)
    requires Sized(w) && d < CLUSTER_MAP_SIZE && FreshTable(w.tables[d], name, parent)
    ensures NodeAt(w, d, i) == Absent
  {}

  lemma GrownNode(v: Volume, w: Volume, sh: Shape, p: nat, s: nat, e: Entry, cs: seq<nat>, d: nat, i: nat)
    requires Sound(v, sh) && Grown(v, w, sh, p, s, e, cs) && SameData(v, w, sh) && d in sh.depth && (d, i) != (p, s)
    ensures NodeAt(w, d, i) == NodeAt(v, d, i)
  {
    hide Length, First, FreshTable, Contents;
    FreeIsUnowned(v, sh, cs);
    if Slot(i) && Live(v.tables[d][i]) && !IsDir(v.tables[d][i]) {
      ContentsFrame(v, w, sh, d, i);
    }
  }

  lemma GrownLook(v: Volume, w: Volume, sh: Shape, p: nat, s: nat, e: Entry, cs: seq<nat>, path: seq<nat>)
    requires Sound(v, sh) && Grown(v, w, sh, p, s, e, cs) && SameData(v, w, sh)
    ensures Look(w, path) == if LeadsTo(v, path, p, s) then NodeAt(w, p, s) else Look(v, path)
  {
    hide Length, Contents, FreshTable;
    if path == [] {
      assert ROOT_CLUSTER in sh.depth;
    } else {
      var up := path[..|path| - 1];
      WalkGrown(v, w, sh, p, s, e, cs, ROOT_CLUSTER, up);
      WalkStays(v, sh, ROOT_CLUSTER, up);
      var d, i := Walk(v, ROOT_CLUSTER, up), path[|path| - 1];
      if d == -1 {
        if IsDir(e) { NothingInFresh(w, cs[0], e.name, p, i); }
      } else if (d, i) != (p, s) {
        GrownNode(v, w, sh, p, s, e, cs, d, i);
      }
    }
  }

  lemma GrownTree(v: Volume, w: Volume, sh: Shape, p: nat, s: nat, e: Entry, cs: seq<nat>)
    requires Sound(v, sh) && Grown(v, w, sh, p, s, e, cs) && SameData(v, w, sh)
    ensures ChangedAt(v, w, p, s, NodeAt(w, p, s))
  {
    hide Grown, Contents;
    forall path
      ensures Look(w, path) == if LeadsTo(v, path, p, s) then NodeAt(w, p, s) else Look(v, path)
    {
      GrownLook(v, w, sh, p, s, e, cs, path);
    }
  }

  // ---------- one file less ----------

  lemma {:induction false} WalkShrunk(v: Volume, w: Volume, sh: Shape, p: nat, s: nat, d: nat, path: seq<nat>)
    requires Sound(v, sh) && Sized(w) && p in sh.depth && Slot(s) && Live(v.tables[p][s]) && !IsDir(v.tables[p][s])
    requires w.tables[p] == v.tables[p][s := Cleared(v.tables[p][s])]
    requires forall b :: b in sh.depth && b != p ==> w.tables[b] == v.tables[b]
    requires d in sh.depth
    ensures Walk(w, d, path) == Walk(v, d, path)
    decreases |path|
  {
    if path != [] && Slot(path[0]) && Live(v.tables[d][path[0]]) && IsDir(v.tables[d][path[0]]) {
      assert EntryOk(v, sh, d, path[0]);
      WalkShrunk(v, w, sh, p, s, First(v.tables[d][path[0]]), path[1..]);
    }
  }

  /** Clearing a file's entry removes that file from the tree and changes nothing else. */
  lemma ShrunkTree(v: Volume, w: Volume, sh: Shape, p: nat, s: nat)
    requires Sound(v, sh) && Sized(w) && p in sh.depth && Slot(s) && Live(v.tables[p][s]) && !IsDir(v.tables[p][s])
    requires w.tables[p] == v.tables[p][s := Cleared(v.tables[p][s])]
    requires forall b :: b in sh.depth && b != p ==> w.tables[b] == v.tables[b]
    requires w.fat == v.fat && SameData(v, w, sh)
    ensures ChangedAt(v, w, p, s, Absent)
  {
    forall path
      ensures Look(w, path) == if LeadsTo(v, path, p, s) then Absent else Look(v, path)
    {
      if path != [] {
        var up := path[..|path| - 1];
        WalkShrunk(v, w, sh, p, s, ROOT_CLUSTER, up);
        WalkStays(v, sh, ROOT_CLUSTER, up);
        var d, i := Walk(v, ROOT_CLUSTER, up), path[|path| - 1];
        if d != -1 && Slot(i) && Live(w.tables[d][i]) && !IsDir(v.tables[d][i]) {
          ContentsFrame(v, w, sh, d, i);
        }
      }
    }
  }
}
