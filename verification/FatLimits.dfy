/** What an accepted `write` does when clusters are short, exactly when it keeps the volume sound, and exactly
    when deleting the new file restores the FAT. */
module FatLimits {
  import opened Words
  import opened FatLayout
  import opened FatShape
  import opened FatOps
  import opened FatTree
  import opened FatAtomic

  /** Walks that succeeded still do when live directory entries of reachable tables stay put. */
  lemma {:induction false} WalkKept(v: Volume, w: Volume, sh: Shape, d: nat, path: seq<nat>)
    requires Sound(v, sh) && Sized(w) && d in sh.depth
    requires forall b, s :: b in sh.depth && b < CLUSTER_MAP_SIZE && Slot(s) && Live(v.tables[b][s]) ==> w.tables[b][s] == v.tables[b][s]
    ensures Walk(v, d, path) != -1 ==> Walk(w, d, path) == Walk(v, d, path)
    decreases |path|
  {
    if path != [] && Slot(path[0]) && Live(v.tables[d][path[0]]) && IsDir(v.tables[d][path[0]]) {
      assert EntryOk(v, sh, d, path[0]);
      WalkKept(v, w, sh, First(v.tables[d][path[0]]), path[1..]);
    }
  }

  /** Following links that were stored for `cs`, however often its clusters repeat, never leaves `cs`. */
  lemma {:induction false} ChainStaysIn(f: Fat, g: Fat, cs: seq<nat>, c: nat, n: nat)
    requires Mapped(cs) && g == Link(f, cs, |cs|) && c in cs
    ensures forall k :: 0 <= k < |Chain(g, c, n)| ==> Chain(g, c, n)[k] in cs || Chain(g, c, n)[k] == END_OF_FILE
    decreases n
  {
    LinkValues(f, cs, |cs|);
    assert cs[..|cs|] == cs;
    if n > 1 && c < CLUSTER_MAP_SIZE && g[c] in cs {
      ChainStaysIn(f, g, cs, g[c], n - 1);
    }
  }

  lemma {:induction false} Untouched(img: Image, t: seq<ClusterWrite>)
    requires OnDisk(t)
    ensures forall c :: 0 <= c < DISK_CLUSTERS && (forall k :: 0 <= k < |t| ==> t[k].cluster != c) ==> Apply(img, t)[c] == img[c]
  {
    if t != [] {
      Untouched(img, t[..|t| - 1]);
    }
  }

  /** An accepted write with too few free clusters: its last two writes. */
  lemma LastWrites(img: Image, req: Request, data: Bytes, garbage: Table)
    requires Buffered(req, data) && WriteOp(img, req, data, garbage).code == 0
    requires 2 <= req.parent < CLUSTER_MAP_SIZE && req.parent !in Chosen(img, req).clusters
    ensures var t := WriteOp(img, req, data, garbage).trace; var a := Chosen(img, req); var v := Mount(img);
      && OnDisk(t) && Slot(a.slot) && !Live(v.tables[req.parent][a.slot]) && Mapped(a.clusters) && |a.clusters| == Required(req.size)
      && (forall k :: 0 <= k < |a.clusters| ==> v.fat[a.clusters[k]] == EMPTY_ENTRY)
      && var w := Mount(Apply(img, t));
      && w.fat == Link(v.fat, a.clusters, |a.clusters|)
      && w.tables[req.parent] == v.tables[req.parent][a.slot := Created(img, req)]
      && (forall c :: 2 <= c < CLUSTER_MAP_SIZE && c != req.parent && c !in a.clusters ==> w.tables[c] == v.tables[c])
  {
    hide EncodeFat, EncodeTable, DecodeFat, DecodeTable, NewEntry, Required, Allocate, Link;
    var v := Mount(img);
    var a := Chosen(img, req);
    var t := WriteOp(img, req, data, garbage).trace;
    var n := |a.clusters|;
    var f, u := Link(v.fat, a.clusters, n), v.tables[req.parent][a.slot := Created(img, req)];
    var dw := DataWrites(req, data, garbage, a.clusters);
    assert t[..n] == dw && t[..n + 1][..n] == dw && t[..n + 2] == t;
    assert t[..n + 1][n] == ClusterWrite(FAT_CLUSTER, EncodeFat(f));
    assert t[n + 1] == ClusterWrite(req.parent, EncodeTable(u));
    FatRoundTrip(f);
    TableRoundTrip(u);
    Untouched(img, dw);
  }

  lemma RootIsDir(v: Volume, sh: Shape)
    requires Sound(v, sh)
    ensures ROOT_CLUSTER in sh.depth
  {}

  /** Clusters repeat when too few are free, and then the new entry has no chain of the length its size
      demands, whatever shape one might try to give the volume. */
  lemma RepeatsAreNotSound(v: Volume, w: Volume, sh: Shape, sh': Shape, p: nat, s: nat, e: Entry, cs: seq<nat>)
    requires Sound(v, sh) && Sized(w) && p in sh.depth && 2 <= p < CLUSTER_MAP_SIZE && Slot(s) && !Live(v.tables[p][s])
    requires Mapped(cs) && |cs| > 0 && forall k :: 0 <= k < |cs| ==> v.fat[cs[k]] == EMPTY_ENTRY
    requires Live(e) && First(e) == cs[0] && Length(e) == |cs|
    requires w.fat == Link(v.fat, cs, |cs|) && w.tables[p] == v.tables[p][s := e]
    requires forall c :: 2 <= c < CLUSTER_MAP_SIZE && c != p && c !in cs ==> w.tables[c] == v.tables[c]
    requires |FreeList(v.fat)| < |cs|
    ensures !Sound(w, sh')
  {
    hide Length, First, Link, DirsOk, EntriesOk, OwnersOk;
    if Sound(w, sh') {
      OwnedInData(v, sh);
      FreeIsUnowned(v, sh, cs);
      var path := DirIsReached(v, sh, p);
      assert ROOT_CLUSTER in sh.depth by { RootIsDir(v, sh); }
      WalkKept(v, w, sh, ROOT_CLUSTER, path);
      assert Reachable(w, p);
      ReachableIsDir(w, sh', p);
      ChainsAreProper(w, sh', p, s);
      var r: seq<nat> := EntryChain(w, p, s);
      ChainStaysIn(v.fat, w.fat, cs, cs[0], Length(e));
      forall k | 0 <= k < |r|
        ensures r[k] in FreeList(v.fat)
      {
        assert r[k] in cs;
      }
      DistinctInPool(r, FreeList(v.fat));
      assert false;
    }
  }

  lemma ChoiceIsUnowned(img: Image, sh: Shape, req: Request, data: Bytes, garbage: Table)
    requires Buffered(req, data) && Sound(Mount(img), sh) && req.parent in sh.depth
    requires WriteOp(img, req, data, garbage).code == 0
    ensures 2 <= req.parent < CLUSTER_MAP_SIZE && req.parent !in Chosen(img, req).clusters && Chosen(img, req).slot != -1
  {
    hide DecodeFat, DecodeTable, Allocate, Sound, Required, WriteTrace;
    OwnedInData(Mount(img), sh);
    FreeIsUnowned(Mount(img), sh, Chosen(img, req).clusters);
  }

  /** An accepted write keeps the volume sound if and only if there are enough free clusters, which the
      code does not check. */
  lemma WriteKeepsSoundIff(img: Image, sh: Shape, req: Request, data: Bytes, garbage: Table)
    requires Buffered(req, data) && Sound(Mount(img), sh) && req.parent in sh.depth
    requires WriteOp(img, req, data, garbage).code == 0
    ensures OnDisk(WriteOp(img, req, data, garbage).trace)
    ensures (exists sh' :: Sound(Mount(Apply(img, WriteOp(img, req, data, garbage).trace)), sh'))
      <==> |FreeList(Mount(img).fat)| >= Required(req.size)
  {
    hide WriteOp, Created, Chosen, Sound, Apply, DecodeFat, DecodeTable, Mount, Required, ChangedAt;
    var t := WriteOp(img, req, data, garbage).trace;
    if |FreeList(Mount(img).fat)| >= Required(req.size) {
      WriteIsAtomic(img, sh, req, data, garbage, |t|);
      assert t[..|t|] == t;
    } else {
      ChoiceIsUnowned(img, sh, req, data, garbage);
      LastWrites(img, req, data, garbage);
      CreatedFacts(img, req);
      var v, w, a := Mount(img), Mount(Apply(img, t)), Chosen(img, req);
      forall sh'
        ensures !Sound(w, sh')
      {
        RepeatsAreNotSound(v, w, sh, sh', req.parent, a.slot, Created(img, req), a.clusters);
      }
    }
  }

  lemma ApplyFatWrite(img: Image, dw: seq<ClusterWrite>, t: seq<ClusterWrite>, f: Fat)
    requires t == dw + [ClusterWrite(FAT_CLUSTER, EncodeFat(f))]
    ensures Apply(img, t) == Apply(img, dw)[FAT_CLUSTER := EncodeFat(f)]
  {
    assert t[..|t| - 1] == dw;
  }

  /** The image after a prefix of data writes into `cs` followed by the FAT. */
  lemma PrefixImage(img: Image, t: seq<ClusterWrite>, cs: seq<nat>, f: Fat, j: nat)
    requires Mapped(cs) && |cs| < |t| && j <= |cs| + 1 && (forall k :: 0 <= k < |cs| ==> t[k].cluster == cs[k])
    requires t[|cs|] == ClusterWrite(FAT_CLUSTER, EncodeFat(f))
    ensures OnDisk(t[..j])
    ensures Apply(img, t[..j])[FAT_CLUSTER] == if j > |cs| then EncodeFat(f) else img[FAT_CLUSTER]
    ensures forall c :: 0 <= c < DISK_CLUSTERS && c != FAT_CLUSTER && c !in cs ==> Apply(img, t[..j])[c] == img[c]
  {
    hide EncodeFat, Apply;
    var i := if j > |cs| then |cs| else j;
    var s := t[..i];
    Untouched(img, s);
    forall c | 0 <= c < DISK_CLUSTERS && c !in cs
      ensures Apply(img, s)[c] == img[c]
    {
      assert forall k :: 0 <= k < |s| ==> s[k].cluster == cs[k] && cs[k] in cs;
    }
    if j > |cs| {
      assert t[..j] == s + [ClusterWrite(FAT_CLUSTER, EncodeFat(f))];
      ApplyFatWrite(img, s, t[..j], f);
    }
  }

  /** The writes of an accepted call: one for each chosen cluster, the FAT, the parent's table. */
  lemma AcceptedWrites(img: Image, req: Request, data: Bytes, garbage: Table)
    requires Buffered(req, data) && WriteOp(img, req, data, garbage).code == 0
    ensures var t := WriteOp(img, req, data, garbage).trace; var v := Mount(img); var cs := Chosen(img, req).clusters;
      && Mapped(cs) && (forall k :: 0 <= k < |cs| ==> v.fat[cs[k]] == EMPTY_ENTRY) && |t| == |cs| + 2
      && (forall k :: 0 <= k < |cs| ==> t[k].cluster == cs[k])
      && t[|cs|] == ClusterWrite(FAT_CLUSTER, EncodeFat(Link(v.fat, cs, |cs|)))
  {
    hide EncodeFat, EncodeTable, DecodeFat, DecodeTable, NewEntry, Required, Allocate, Link;
    var cs := Chosen(img, req).clusters;
    var dw := DataWrites(req, data, garbage, cs);
    assert forall k :: 0 <= k < |cs| ==> WriteOp(img, req, data, garbage).trace[k] == dw[k];
  }

  /** However few clusters are free, no prefix of the writes short of the last one changes anything reachable. */
  lemma PrefixOfAccepted(img: Image, sh: Shape, req: Request, data: Bytes, garbage: Table, j: nat)
    requires Buffered(req, data) && Sound(Mount(img), sh) && req.parent in sh.depth
    requires WriteOp(img, req, data, garbage).code == 0 && j < |WriteOp(img, req, data, garbage).trace|
    ensures OnDisk(WriteOp(img, req, data, garbage).trace[..j])
    ensures var v, w := Mount(img), Mount(Apply(img, WriteOp(img, req, data, garbage).trace[..j]));
      SameMeta(v, w, sh) && SameData(v, w, sh)
      && forall c :: 0 <= c < CLUSTER_MAP_SIZE && c !in Chosen(img, req).clusters ==> w.fat[c] == v.fat[c]
  {
    hide WriteOp, Chosen, EncodeFat, DecodeFat, DecodeTable, Required, Link, Sound, SameMeta, SameData, Apply;
    ChoiceIsUnowned(img, sh, req, data, garbage);
    var v, t, cs := Mount(img), WriteOp(img, req, data, garbage).trace, Chosen(img, req).clusters;
    AcceptedWrites(img, req, data, garbage);
    OwnedInData(v, sh);
    FreeIsUnowned(v, sh, cs);
    assert cs[..|cs|] == cs;
    LinkValues(v.fat, cs, |cs|);
    FatRoundTrip(Link(v.fat, cs, |cs|));
    PrefixImage(img, t, cs, Link(v.fat, cs, |cs|), j);
    Unowned(v, Mount(Apply(img, t[..j])), sh, cs, req.parent);
  }

  lemma LeaksInside(v: Volume, w: Volume, sh: Shape, cs: seq<nat>)
    requires forall c :: 0 <= c < CLUSTER_MAP_SIZE && c !in cs ==> w.fat[c] == v.fat[c]
    ensures Leaked(w, sh) <= Leaked(v, sh) + (set c | c in cs)
  {}

  /** Every accepted write, however few clusters are free: each proper prefix of its disk writes leaves a
      sound volume presenting exactly the old tree, with at most the chosen clusters leaked; the complete
      write presents the old tree with the requested node when enough clusters were free, and otherwise
      leaves a disk no shape makes sense of. */
  lemma AcceptedWrite(img: Image, sh: Shape, req: Request, data: Bytes, garbage: Table, j: nat)
    requires Buffered(req, data) && Sound(Mount(img), sh) && req.parent in sh.depth
    requires WriteOp(img, req, data, garbage).code == 0 && j <= |WriteOp(img, req, data, garbage).trace|
    ensures OnDisk(WriteOp(img, req, data, garbage).trace[..j])
    ensures var t := WriteOp(img, req, data, garbage).trace; var v, w := Mount(img), Mount(Apply(img, t[..j]));
      && (j < |t| ==> Sound(w, sh) && SameTree(v, w) && Leaked(w, sh) <= Leaked(v, sh) + (set c | c in Chosen(img, req).clusters))
      && (j == |t| && |FreeList(v.fat)| >= Required(req.size) ==>
            ChangedAt(v, w, req.parent, Chosen(img, req).slot, Requested(req, data)))
      && (j == |t| ==> ((exists sh' :: Sound(w, sh')) <==> |FreeList(v.fat)| >= Required(req.size)))
  {
    hide WriteOp, Chosen, Sound, Apply, DecodeFat, DecodeTable, Mount, Required, ChangedAt, SameTree, SameMeta, SameData, Requested;
    var t := WriteOp(img, req, data, garbage).trace;
    var v, w := Mount(img), Mount(Apply(img, t[..j]));
    if j < |t| {
      PrefixOfAccepted(img, sh, req, data, garbage, j);
      SoundFrame(v, w, sh);
      UnreachableChange(v, w, sh);
      LeaksInside(v, w, sh, Chosen(img, req).clusters);
    } else {
      assert t[..j] == t;
      WriteKeepsSoundIff(img, sh, req, data, garbage);
      if |FreeList(v.fat)| >= Required(req.size) { WriteIsAtomic(img, sh, req, data, garbage, j); }
    }
  }

  // ---------- a concrete disk on which an accepted write does damage ----------

  /** One file fills clusters 3 to 510; only cluster 511 is free. */
  function CrowdedFat(): Fat {
    seq(CLUSTER_MAP_SIZE, i requires 0 <= i < CLUSTER_MAP_SIZE =>
      if i == 0 then CLUSTER_0_VALUE else if i == 1 then CLUSTER_1_VALUE
      else if i == 2 || i == 510 then END_OF_FILE
      else if i == 511 then EMPTY_ENTRY else i + 1)
  }

  const BIG_FILE: Entry := BLANK_ENTRY.(userAttribute := UATTR_NOT_EMPTY, clusterLow := 3, filesize := 508 * CLUSTER_SIZE)

  /** A root directory whose slots 2 and 3 are empty and whose slot 4 is the file. */
  function CrowdedTable(): Table {
    InitTable(seq(TABLE_SLOTS, _ => BLANK_ENTRY), BLANK_ENTRY.name, ROOT_CLUSTER)[4 := BIG_FILE]
  }

  ghost function CrowdedLoc(c: nat): Loc
    requires c >= 3
  {
    Loc(ROOT_CLUSTER, 4, c - 3)
  }

  ghost function CrowdedShape(): Shape {
    Shape(map c: nat | 3 <= c < 511 :: CrowdedLoc(c), map[ROOT_CLUSTER := 0])
  }

  lemma {:induction false} OnlyLastIsFree(f: Fat, j: nat)
    requires f == CrowdedFat() && 3 <= j <= 511
    ensures FreeFrom(f, j) == [511]
    decreases 511 - j
  {
    if j < 511 { OnlyLastIsFree(f, j + 1); } else { assert FreeFrom(f, 512) == []; }
  }

  lemma CrowdedIsSound(v: Volume)
    requires Sized(v) && v.fat == CrowdedFat() && v.tables[ROOT_CLUSTER] == CrowdedTable()
    ensures Sound(v, CrowdedShape()) && FreeList(v.fat) == [511]
  {
    hide FreeFrom;
    assert Length(BIG_FILE) == 508 && First(BIG_FILE) == 3;
    OnlyLastIsFree(v.fat, 3);
  }

  lemma NameIsNew(name: Name)
    requires name[0] == 65
    ensures forall s :: 2 <= s < TABLE_SLOTS ==> CrowdedTable()[s].name != name
  {}

  lemma {:induction false} ScanIsDone(t: Table, free: seq<nat>, need: nat, i: nat, j: nat)
    requires 2 <= i <= j <= TABLE_SLOTS && need > 0 && ScanTo(t, free, need, i).slot != -1
    ensures ScanTo(t, free, need, j) == ScanTo(t, free, need, i)
    decreases j
  {
    if i < j { ScanIsDone(t, free, need, i, j - 1); }
  }

  /** One free cluster is collected twice: once for slot 2, once for slot 3. */
  lemma CrowdedAllocation(t: Table, f: Fat, c: nat)
    requires FreeList(f) == [c] && !Live(t[2]) && !Live(t[3])
    ensures var a := Allocate(t, f, 2 * CLUSTER_SIZE); a.slot == 3 && a.clusters == [c, c]
  {
    var free := FreeList(f);
    assert ScanTo(t, free, 2, 3) == Alloc(-1, [c]);
    assert ScanTo(t, free, 2, 4) == Alloc(3, [c, c]);
    ScanIsDone(t, free, 2, 4, TABLE_SLOTS);
  }

  /** Deleting a file just written restores the FAT cell for cell, in the cache and on disk, and with it the
      free list. */
  ghost predicate DeleteRestores(img: Image, req: Request, data: Bytes, garbage: Table)
    requires Buffered(req, data)
  {
    var o := WriteOp(img, req, data, garbage);
    var img' := Apply(img, o.trace);
    && DeleteSafe(img', o.cache, req)
    && var o' := DeleteOp(img', o.cache, req);
    && o'.code == 0 && o'.cache == Mount(img).fat && OnDisk(o'.trace)
    && Mount(Apply(img', o'.trace)).fat == Mount(img).fat
  }

  /** A live directory below slot `s`, the `..` entry included, has the name. */
  predicate DirectoryBelow(t: Table, s: int, name: Name) {
    exists i :: 1 <= i < s && i < TABLE_SLOTS && Live(t[i]) && IsDir(t[i]) && t[i].name == name
  }

  lemma WriteCache(img: Image, sh: Shape, req: Request, data: Bytes, garbage: Table)
    requires GoodWrite(img, sh, req, data, garbage)
    ensures OnDisk(WriteOp(img, req, data, garbage).trace)
    ensures var o := WriteOp(img, req, data, garbage); o.cache == Mount(Apply(img, o.trace)).fat
  {
    hide DecodeFat, DecodeTable, Created, Required, Allocate, Link, Apply, WriteTrace, Sound;
    ChoiceIsUnowned(img, sh, req, data, garbage);
    LastWrites(img, req, data, garbage);
  }

  lemma GrownDirStays(v: Volume, w: Volume, sh: Shape, p: nat, s: nat, e: Entry, cs: seq<nat>)
    requires Sound(v, sh) && Grown(v, w, sh, p, s, e, cs)
    ensures p in GrownShape(sh, p, s, e, cs).depth && Mapped(cs) && |cs| > 0 && p < CLUSTER_MAP_SIZE && w.tables[p] == v.tables[p][s := e]
  {}

  lemma NewSlotIsFound(img: Image, req: Request, w: Volume, s: nat, e: Entry, data: Bytes, garbage: Table)
    requires req.parent < CLUSTER_MAP_SIZE && Slot(s) && Sized(w) && Buffered(req, data)
    requires WriteOp(img, req, data, garbage).code == 0
    requires w.tables[req.parent] == Mount(img).tables[req.parent][s := e]
    requires Live(e) && !IsDir(e) && SameKey(e, req.name, req.ext)
    requires Live(Mount(img).tables[req.parent][1]) && IsDir(Mount(img).tables[req.parent][1])
    ensures var i := DeleteSlot(w.tables[req.parent], req.name, req.ext, 1);
      if DirectoryBelow(Mount(img).tables[req.parent], s, req.name) then i < s && IsDir(w.tables[req.parent][i]) else i == s
  {
    hide DecodeFat, DecodeTable, Allocate, WriteTrace, Link;
    var t, u := Mount(img).tables[req.parent], w.tables[req.parent];
    assert !Duplicate(t, req.name, req.ext);
    assert DeleteStops(u[s], req.name, req.ext);
    assert forall k :: 0 <= k < TABLE_SLOTS && k != s ==> u[k] == t[k];
    if DirectoryBelow(t, s, req.name) {
      var k :| 1 <= k < s && Live(t[k]) && IsDir(t[k]) && t[k].name == req.name;
      assert DeleteStops(u[k], req.name, req.ext);
    }
  }

  lemma ErasedFat(f: Fat, g: Fat, cs: seq<nat>)
    requires Mapped(cs) && (forall k :: 0 <= k < |cs| ==> f[cs[k]] == EMPTY_ENTRY)
    requires forall c :: 0 <= c < CLUSTER_MAP_SIZE && c !in cs ==> g[c] == f[c]
    ensures Erase(g, cs, |cs|) == f
  {
    EraseValues(g, cs, |cs|);
    assert cs[..|cs|] == cs;
    var h := Erase(g, cs, |cs|);
    forall c | 0 <= c < CLUSTER_MAP_SIZE
      ensures h[c] == f[c]
    {}
  }

  lemma ErasedLink(v: Volume, w: Volume, sh: Shape, p: nat, s: nat, e: Entry, cs: seq<nat>)
    requires Grown(v, w, sh, p, s, e, cs)
    ensures EntryChain(w, p, s) == cs && Erase(w.fat, cs, |cs|) == v.fat
  {
    hide Length, First, FreshTable;
    LinkedChain(w.fat, cs, 0);
    assert cs[0..] == cs;
    ErasedFat(v.fat, w.fat, cs);
  }

  lemma RoomyDeleteRestores(img: Image, sh: Shape, req: Request, data: Bytes, garbage: Table)
    requires GoodWrite(img, sh, req, data, garbage) && req.size > 0
    requires req.parent < DISK_CLUSTERS && !DirectoryBelow(Mount(img).tables[req.parent], Chosen(img, req).slot, req.name)
    ensures DeleteRestores(img, req, data, garbage)
  {
    hide DirectoryBelow, WriteOp, Created, Sound, Apply, DecodeFat, DecodeTable, Mount, Required, Link, Allocate, Grown, GrownShape, Phased, Chosen;
    Commit(img, sh, req, data, garbage);
    AcceptedChoice(img, sh, req, data, garbage);
    CreatedFacts(img, req);
    var a, e, p := Chosen(img, req), Created(img, req), req.parent;
    var v, w := Mount(img), Mount(Apply(img, WriteOp(img, req, data, garbage).trace));
    var img' := Apply(img, WriteOp(img, req, data, garbage).trace);
    GrowKeepsSound(v, w, sh, p, a.slot, e, a.clusters);
    var sh' := GrownShape(sh, p, a.slot, e, a.clusters);
    GrownDirStays(v, w, sh, p, a.slot, e, a.clusters);
    TableOfDir(v, sh, p);
    NewSlotIsFound(img, req, w, a.slot, e, data, garbage);
    WriteCache(img, sh, req, data, garbage);
    DeleteOpTrace(img', sh', req);
    ErasedLink(v, w, sh, p, a.slot, e, a.clusters);
    DeleteVolumes(img', p, a.slot);
    var t := DeleteTrace(w, p, a.slot);
    assert t[..2] == t;
  }

  /** The table and the FAT a delete finds after an accepted file write. */
  lemma AfterWrite(img: Image, sh: Shape, req: Request, data: Bytes, garbage: Table)
    requires Buffered(req, data) && Sound(Mount(img), sh) && req.parent in sh.depth && req.size > 0
    requires WriteOp(img, req, data, garbage).code == 0
    ensures OnDisk(WriteOp(img, req, data, garbage).trace) && req.parent < CLUSTER_MAP_SIZE && Slot(Chosen(img, req).slot)
    ensures var o := WriteOp(img, req, data, garbage); var a := Chosen(img, req); var e := Created(img, req);
      var v, w := Mount(img), Mount(Apply(img, o.trace));
      && o.cache == Link(v.fat, a.clusters, |a.clusters|) && w.tables[req.parent] == v.tables[req.parent][a.slot := e]
      && var i := DeleteSlot(w.tables[req.parent], req.name, req.ext, 1);
      if DirectoryBelow(v.tables[req.parent], a.slot, req.name) then i < a.slot && IsDir(w.tables[req.parent][i])
      else i == a.slot && w.tables[req.parent][i] == e
  {
    hide DecodeFat, DecodeTable, Created, Required, Allocate, Link, Apply, WriteTrace, Sound, DirectoryBelow;
    ChoiceIsUnowned(img, sh, req, data, garbage);
    LastWrites(img, req, data, garbage);
    CreatedFacts(img, req);
    var a, e := Chosen(img, req), Created(img, req);
    TableOfDir(Mount(img), sh, req.parent);
    NewSlotIsFound(img, req, Mount(Apply(img, WriteOp(img, req, data, garbage).trace)), a.slot, e, data, garbage);
  }

  /** A directory of the same name in a lower slot stops the delete. */
  lemma DirectoryStopsDelete(img: Image, sh: Shape, req: Request, data: Bytes, garbage: Table)
    requires Buffered(req, data) && Sound(Mount(img), sh) && req.parent in sh.depth && req.size > 0
    requires WriteOp(img, req, data, garbage).code == 0 && req.parent < CLUSTER_MAP_SIZE
    requires DirectoryBelow(Mount(img).tables[req.parent], Chosen(img, req).slot, req.name)
    ensures var o := WriteOp(img, req, data, garbage); var img' := Apply(img, o.trace);
      DeleteSafe(img', o.cache, req) && DeleteOp(img', o.cache, req).code == DIRECTORY_BRANCH
  {
    hide WriteOp, Chosen, Created, Sound, Apply, DecodeFat, DecodeTable, DirectoryBelow;
    AfterWrite(img, sh, req, data, garbage);
  }

  lemma {:induction false} FreeIsBounded(f: Fat, j: nat)
    requires 3 <= j <= CLUSTER_MAP_SIZE
    ensures |FreeFrom(f, j)| <= CLUSTER_MAP_SIZE - j
    decreases CLUSTER_MAP_SIZE - j
  {
    if j < CLUSTER_MAP_SIZE { FreeIsBounded(f, j + 1); }
  }

  /** The collected clusters end with the start of the free list, from `base` on, and start with its first
      cluster. */
  lemma {:induction false} ScanTail(t: Table, free: seq<nat>, need: nat, i: nat) returns (base: nat)
    requires 2 <= i <= TABLE_SLOTS && need > 0
    ensures var cs := ScanTo(t, free, need, i).clusters;
      && base <= |cs| <= base + |free| && cs[base..] == free[..|cs| - base] && |cs| <= |free| * (i - 2)
      && (cs != [] ==> base < |cs| && cs[0] == free[0])
    decreases i
  {
    if i == 2 {
      base := 0;
    } else {
      base := ScanTail(t, free, need, i - 1);
      var got := ScanTo(t, free, need, i - 1).clusters;
      assert |free| * (i - 2) == |free| * (i - 3) + |free|;
      if !Live(t[i - 1]) && |got| < need {
        base := |got|;
      }
    }
  }

  lemma CrowdedSize(t: Table, f: Fat, size: u32)
    requires Allocate(t, f, size).slot != -1
    ensures 1 <= |Allocate(t, f, size).clusters| == Required(size) <= 62 * |FreeList(f)| < 0x1_0000
  {
    hide FreeFrom, ScanTo;
    var base := ScanTail(t, FreeList(f), Required(size), TABLE_SLOTS);
    FreeIsBounded(f, 3);
  }

  ghost predicate LeavesFat(chain: seq<nat>) { exists i :: 0 <= i < |chain| && chain[i] >= CLUSTER_MAP_SIZE }

  /** Following a list that ends outside the FAT for longer than the list leaves the FAT. */
  lemma {:induction false} ChainRunsOff(f: Fat, r: seq<nat>, k: nat, n: nat)
    requires Mapped(r) && k < |r| && |r| - k < n
    requires forall i {:trigger r[i]} :: 0 <= i < |r| ==> if i + 1 < |r| then f[r[i]] == r[i + 1] else f[r[i]] >= CLUSTER_MAP_SIZE
    ensures LeavesFat(Chain(f, r[k], n))
    decreases |r| - k
  {
    var chain: seq<nat> := Chain(f, r[k], n);
    var rest: seq<nat> := Chain(f, f[r[k]], n - 1);
    assert chain == [r[k]] + rest;
    if k + 1 < |r| {
      ChainRunsOff(f, r, k + 1, n - 1);
      var i :| 0 <= i < |rest| && rest[i] >= CLUSTER_MAP_SIZE;
      assert chain[i + 1] == rest[i];
    } else {
      assert chain[1] == rest[0];
    }
  }

  /** The last link stored for a cluster is the one that stays. */
  lemma {:induction false} LastLinkStays(f: Fat, cs: seq<nat>, n: nat, k: nat)
    requires k < n <= |cs| && Mapped(cs) && forall j :: k < j < n ==> cs[j] != cs[k]
    ensures Link(f, cs, n)[cs[k]] == Next(cs, k)
    decreases n
  {
    if k < n - 1 { LastLinkStays(f, cs, n - 1, k); }
  }

  /** The links of the last pass over the free clusters are the ones that stay. */
  lemma LastPassLinks(f: Fat, cs: seq<nat>, free: seq<nat>, base: nat, i: nat)
    requires Mapped(cs) && base <= |cs| <= base + |free| && cs[base..] == free[..|cs| - base] && i < |cs| - base
    requires forall a, b :: 0 <= a < b < |free| ==> free[a] < free[b]
    ensures var r := cs[base..]; var g := Low(Link(f, cs, |cs|));
      if i + 1 < |r| then g[r[i]] == r[i + 1] else g[r[i]] >= CLUSTER_MAP_SIZE
  {
    hide Link;
    var r := cs[base..];
    assert r[i] == cs[base + i] == free[i];
    forall j | base + i < j < |cs|
      ensures cs[j] != cs[base + i]
    {
      assert cs[j] == r[j - base] == free[j - base];
    }
    LastLinkStays(f, cs, |cs|, base + i);
    assert i + 1 < |r| ==> r[i + 1] == cs[base + i + 1];
  }

  /** With too few free clusters the links of the new file lead out of the FAT before its size is reached. */
  lemma CrowdedChain(t: Table, f: Fat, size: u32)
    requires var a := Allocate(t, f, size); a.slot != -1 && |FreeList(f)| < Required(size)
    ensures var cs := Allocate(t, f, size).clusters;
      |cs| == Required(size) && |cs| >= 1 && LeavesFat(Chain(Low(Link(f, cs, |cs|)), cs[0], |cs|))
  {
    hide Chain, FreeFrom, Required, ScanTo, Link, Low, LeavesFat;
    var free := FreeList(f);
    var cs: seq<nat> := Allocate(t, f, size).clusters;
    CrowdedSize(t, f, size);
    var base := ScanTail(t, free, Required(size), TABLE_SLOTS);
    var r: seq<nat> := cs[base..];
    var g := Low(Link(f, cs, |cs|));
    forall i {:trigger r[i]} | 0 <= i < |r|
      ensures if i + 1 < |r| then g[r[i]] == r[i + 1] else g[r[i]] >= CLUSTER_MAP_SIZE
    {
      LastPassLinks(f, cs, free, base, i);
    }
    assert r[0] == cs[0];
    ChainRunsOff(g, r, 0, |cs|);
  }

  lemma CreatedCounts(img: Image, req: Request)
    requires req.parent < DISK_CLUSTERS && Chosen(img, req).slot != -1 && 0 < req.size && Required(req.size) < 0x1_0000
    ensures var e := Created(img, req); var cs := Chosen(img, req).clusters;
      DeleteCount(e) == Required(req.size) == |cs| && e.clusterLow == cs[0] && !IsDir(e)
  {
    hide Allocate, DecodeTable, DecodeFat;
  }

  /** With too few free clusters the delete follows the new file's chain out of the FAT. */
  lemma CrowdedDeleteEscapes(img: Image, sh: Shape, req: Request, data: Bytes, garbage: Table)
    requires Buffered(req, data) && Sound(Mount(img), sh) && req.parent in sh.depth && req.size > 0
    requires WriteOp(img, req, data, garbage).code == 0 && req.parent < CLUSTER_MAP_SIZE
    requires |FreeList(Mount(img).fat)| < Required(req.size)
    requires !DirectoryBelow(Mount(img).tables[req.parent], Chosen(img, req).slot, req.name)
    ensures var o := WriteOp(img, req, data, garbage); !DeleteSafe(Apply(img, o.trace), o.cache, req)
  {
    hide WriteOp, Sound, Apply, DecodeFat, DecodeTable, DirectoryBelow, Allocate, Link, Created, Low, Chain;
    AfterWrite(img, sh, req, data, garbage);
    CreatedFacts(img, req);
    CrowdedChain(Mount(img).tables[req.parent], Mount(img).fat, req.size);
    CrowdedSize(Mount(img).tables[req.parent], Mount(img).fat, req.size);
    CreatedCounts(img, req);
  }

  /** Over all accepted file writes: deleting the file at once restores the FAT if and only if enough clusters
      were free and no live directory of the same name lies in a lower slot. */
  lemma WriteThenDelete(img: Image, sh: Shape, req: Request, data: Bytes, garbage: Table)
    requires Buffered(req, data) && Sound(Mount(img), sh) && req.parent in sh.depth && req.size > 0
    requires WriteOp(img, req, data, garbage).code == 0
    ensures req.parent < CLUSTER_MAP_SIZE && OnDisk(WriteOp(img, req, data, garbage).trace)
    ensures DeleteRestores(img, req, data, garbage) <==>
      |FreeList(Mount(img).fat)| >= Required(req.size)
      && !DirectoryBelow(Mount(img).tables[req.parent], Chosen(img, req).slot, req.name)
  {
    hide WriteOp, DeleteOp, DeleteSafe, Chosen, Sound, Apply, Mount, DirectoryBelow, Required;
    AfterWrite(img, sh, req, data, garbage);
    if DirectoryBelow(Mount(img).tables[req.parent], Chosen(img, req).slot, req.name) {
      DirectoryStopsDelete(img, sh, req, data, garbage);
    } else if |FreeList(Mount(img).fat)| < Required(req.size) {
      CrowdedDeleteEscapes(img, sh, req, data, garbage);
    } else {
      RoomyDeleteRestores(img, sh, req, data, garbage);
    }
  }

  /** The input: a sound disk with one free cluster, and a request for a two-cluster file in the root.  The
      write is accepted, no shape makes sense of the disk afterwards, and deleting the file does not restore it. */
  lemma CrowdedWriteDoesDamage() returns (img: Image, req: Request, data: Bytes, garbage: Table)
    ensures Sound(Mount(img), CrowdedShape()) && FreeList(Mount(img).fat) == [511]
    ensures Buffered(req, data) && req.parent == ROOT_CLUSTER && req.size == 2 * CLUSTER_SIZE
    ensures WriteOp(img, req, data, garbage).code == 0
    ensures !exists sh :: Sound(Mount(Apply(img, WriteOp(img, req, data, garbage).trace)), sh)
    ensures !DeleteRestores(img, req, data, garbage)
  {
    hide EncodeFat, EncodeTable, DecodeFat, DecodeTable, CrowdedFat, Sound, WriteTrace, Link, FreeFrom, Apply, DeleteRestores;
    img := BLANK_IMAGE[FAT_CLUSTER := EncodeFat(CrowdedFat())][ROOT_CLUSTER := EncodeTable(CrowdedTable())];
    FatRoundTrip(CrowdedFat());
    TableRoundTrip(CrowdedTable());
    CrowdedIsSound(Mount(img));
    var name: Name := seq(8, _ => 65);
    req := Request(name, BLANK_ENTRY.ext, ROOT_CLUSTER, 2 * CLUSTER_SIZE);
    data := BLANK_CLUSTER + BLANK_CLUSTER;
    garbage := CrowdedTable();
    CrowdedAllocation(CrowdedTable(), CrowdedFat(), 511);
    assert !Duplicate(CrowdedTable(), name, BLANK_ENTRY.ext) by { NameIsNew(name); }
    assert WriteOp(img, req, data, garbage).code == 0;
    RootIsDir(Mount(img), CrowdedShape());
    WriteKeepsSoundIff(img, CrowdedShape(), req, data, garbage);
    WriteThenDelete(img, CrowdedShape(), req, data, garbage);
  }

  // ---------- write, then delete ----------

  // ---------- write, then delete, when clusters are short ----------
}
