/** Crash behaviour of `write` and `delete`, each cluster write being atomic: after every prefix of the
    disk writes of one call, the file system on disk is sound and is exactly the old or exactly the new one. */
module FatAtomic {
  import opened Words
  import opened FatLayout
  import opened FatShape
  import opened FatOps
  import opened FatTree

  lemma PrefixValues(img: Image, t: seq<ClusterWrite>, j: nat)
    requires OnDisk(t) && OneWriteEach(t) && j <= |t|
    ensures forall k :: 0 <= k < j ==> Apply(img, t[..j])[t[k].cluster] == t[k].bytes
    ensures forall c :: 0 <= c < DISK_CLUSTERS && (forall k :: 0 <= k < j ==> t[k].cluster != c) ==>
      Apply(img, t[..j])[c] == img[c]
  {
    var s := t[..j];
    ApplyValues(img, s);
    assert forall k :: 0 <= k < j ==> s[k] == t[k];
  }

  // ---------- write ----------

  /** An accepted write on a sound volume, into one of its directories, with enough free clusters. */
  ghost predicate GoodWrite(img: Image, sh: Shape, req: Request, data: Bytes, garbage: Table) {
    && Buffered(req, data) && Sound(Mount(img), sh) && req.parent in sh.depth
    && WriteOp(img, req, data, garbage).code == 0
    && |FreeList(Mount(img).fat)| >= Required(req.size)
  }

  ghost function Chosen(img: Image, req: Request): Alloc
    requires req.parent < DISK_CLUSTERS
  {
    Allocate(DecodeTable(img[req.parent]), DecodeFat(img[FAT_CLUSTER]), req.size)
  }

  ghost function Created(img: Image, req: Request): Entry
    requires req.parent < DISK_CLUSTERS && Chosen(img, req).slot != -1
  {
    NewEntry(DecodeTable(img[req.parent])[Chosen(img, req).slot], req, Chosen(img, req).clusters[0])
  }

  /** Data clusters, then the FAT, then the table of directory `p`. */
  ghost predicate Phased(t: seq<ClusterWrite>, cs: seq<nat>, f: Fat, p: nat, table: Table) {
    && |t| == |cs| + 2
    && (forall k :: 0 <= k < |cs| ==> t[k].cluster == cs[k])
    && t[|cs|] == ClusterWrite(FAT_CLUSTER, EncodeFat(f))
    && t[|cs| + 1] == ClusterWrite(p, EncodeTable(table))
    && Mapped(cs) && Distinct(cs) && p !in cs && 2 <= p < CLUSTER_MAP_SIZE
  }

  lemma PhasedOnDisk(t: seq<ClusterWrite>, cs: seq<nat>, f: Fat, p: nat, table: Table)
    requires Phased(t, cs, f, p, table)
    ensures OnDisk(t) && OneWriteEach(t)
  {
    forall a, b | 0 <= a < b < |t|
      ensures t[a].cluster != t[b].cluster
    {
      if b < |cs| { assert cs[a] != cs[b]; }
      else if a < |cs| { assert cs[a] in cs; }
    }
  }

  /** The volume after the first `j` writes of a phased trace. */
  lemma PhasedPrefix(img: Image, t: seq<ClusterWrite>, cs: seq<nat>, f: Fat, p: nat, table: Table, j: nat)
    requires Phased(t, cs, f, p, table) && j <= |t|
    ensures OnDisk(t[..j])
    ensures var v, w := Mount(img), Mount(Apply(img, t[..j]));
      && w.fat == (if j > |cs| then f else v.fat)
      && w.tables[p] == (if j > |cs| + 1 then table else v.tables[p])
      && (forall c :: 2 <= c < DISK_CLUSTERS && c !in cs && c != p ==> w.tables[c] == v.tables[c] && w.data[c] == v.data[c])
      && (forall k :: 0 <= k < |cs| && k < j ==> w.data[cs[k]] == t[k].bytes && w.tables[cs[k]] == DecodeTable(t[k].bytes))
  {
    hide EncodeFat, EncodeTable, DecodeFat, DecodeTable;
    PhasedOnDisk(t, cs, f, p, table);
    PrefixValues(img, t, j);
    var img' := Apply(img, t[..j]);
    FatRoundTrip(f);
    TableRoundTrip(table);
    var n := |cs|;
    assert t[n].cluster == FAT_CLUSTER && t[n + 1].cluster == p;
    forall k | 0 <= k < j
      ensures t[k].cluster == if k < n then cs[k] else if k == n then FAT_CLUSTER else p
    {}
    assert j <= n ==> img'[FAT_CLUSTER] == img[FAT_CLUSTER];
    assert j <= n + 1 ==> img'[p] == img[p] by {
      assert forall k :: 0 <= k < n ==> cs[k] in cs;
    }
    forall c | 2 <= c < DISK_CLUSTERS && c !in cs && c != p
      ensures img'[c] == img[c]
    {
      assert forall k :: 0 <= k < n ==> cs[k] in cs;
    }
  }

  lemma WriteTracePhased(t: Table, f: Fat, req: Request, data: Bytes, garbage: Table, a: Alloc)
    requires Buffered(req, data) && |a.clusters| == Required(req.size) && Slot(a.slot)
    requires Mapped(a.clusters) && Distinct(a.clusters)
    requires req.parent !in a.clusters && 2 <= req.parent < CLUSTER_MAP_SIZE
    ensures var tr := WriteTrace(t, f, req, data, garbage, a); var cs := a.clusters;
      && Phased(tr, cs, Link(f, cs, |cs|), req.parent, t[a.slot := NewEntry(t[a.slot], req, cs[0])])
      && tr[..|cs|] == DataWrites(req, data, garbage, cs)
  {
    hide EncodeFat, EncodeTable, NewEntry, Link, Required;
    var tr := WriteTrace(t, f, req, data, garbage, a);
    var w := DataWrites(req, data, garbage, a.clusters);
    assert forall k :: 0 <= k < |w| ==> tr[k] == w[k];
  }

  /** What an accepted write chose. */
  ghost predicate ChosenFrom(v: Volume, req: Request, a: Alloc) {
    var cs := a.clusters;
    && Sized(v) && 2 <= req.parent < CLUSTER_MAP_SIZE
    && |cs| == Required(req.size) > 0 && Mapped(cs) && Distinct(cs)
    && |cs| <= |FreeList(v.fat)| && cs == FreeList(v.fat)[..|cs|]
    && (forall k :: 0 <= k < |cs| ==> v.fat[cs[k]] == EMPTY_ENTRY)
    && Slot(a.slot) && !Live(v.tables[req.parent][a.slot])
    && (forall s :: 2 <= s < a.slot ==> Live(v.tables[req.parent][s]))
  }

  lemma OwnedInData(v: Volume, sh: Shape)
    requires Sound(v, sh)
    ensures forall c :: c in sh.own ==> 3 <= c < CLUSTER_MAP_SIZE
    ensures forall d :: d in sh.depth ==> 2 <= d < CLUSTER_MAP_SIZE
  {
    forall c | c in sh.own
      ensures 3 <= c < CLUSTER_MAP_SIZE
    {
      assert OwnerOk(v, sh, c);
    }
  }

  lemma AcceptedChoice(img: Image, sh: Shape, req: Request, data: Bytes, garbage: Table)
    requires GoodWrite(img, sh, req, data, garbage)
    ensures ChosenFrom(Mount(img), req, Chosen(img, req))
    ensures forall c :: c in Chosen(img, req).clusters ==> c !in sh.own && c !in sh.depth
  {
    hide Sound, Allocate, DecodeFat, DecodeTable, Required, WriteTrace;
    var v := Mount(img);
    AllocateLowest(v.tables[req.parent], v.fat, req.size);
    OwnedInData(v, sh);
    FreeIsUnowned(v, sh, Chosen(img, req).clusters);
  }

  lemma AcceptedTrace(img: Image, sh: Shape, req: Request, data: Bytes, garbage: Table)
    requires GoodWrite(img, sh, req, data, garbage)
    ensures ChosenFrom(Mount(img), req, Chosen(img, req))
    ensures var t := WriteOp(img, req, data, garbage).trace; var a := Chosen(img, req); var v := Mount(img);
      && Phased(t, a.clusters, Link(v.fat, a.clusters, |a.clusters|), req.parent, v.tables[req.parent][a.slot := Created(img, req)])
      && t[..|a.clusters|] == DataWrites(req, data, garbage, a.clusters)
  {
    hide Sound, Allocate, DecodeFat, DecodeTable, Required, WriteTrace, Phased;
    AcceptedChoice(img, sh, req, data, garbage);
    var v := Mount(img);
    WriteTracePhased(v.tables[req.parent], v.fat, req, data, garbage, Chosen(img, req));
  }

  /** Two volumes that differ only in clusters outside the shape, and in free FAT cells. */
  lemma Unowned(v: Volume, w: Volume, sh: Shape, cs: seq<nat>, p: nat)
    requires Sound(v, sh) && Sized(w) && p in sh.depth && p < CLUSTER_MAP_SIZE && w.tables[p] == v.tables[p]
    requires Mapped(cs) && forall c :: c in cs ==> c !in sh.own && c !in sh.depth
    requires forall c :: 0 <= c < CLUSTER_MAP_SIZE && c !in cs ==> w.fat[c] == v.fat[c]
    requires forall c :: 2 <= c < CLUSTER_MAP_SIZE && c !in cs && c != p ==> w.tables[c] == v.tables[c] && w.data[c] == v.data[c]
    ensures SameMeta(v, w, sh) && SameData(v, w, sh)
  {
    OwnedInData(v, sh);
  }

  lemma PhasedBeforeCommit(img: Image, sh: Shape, t: seq<ClusterWrite>, cs: seq<nat>, p: nat, table: Table, j: nat)
    requires Sound(Mount(img), sh) && Mapped(cs) && forall c :: c in cs ==> c !in sh.own && c !in sh.depth
    requires p in sh.depth && Phased(t, cs, Link(Mount(img).fat, cs, |cs|), p, table) && j < |t|
    ensures OnDisk(t[..j])
    ensures var v, w := Mount(img), Mount(Apply(img, t[..j]));
      SameMeta(v, w, sh) && SameData(v, w, sh) && forall c :: 0 <= c < CLUSTER_MAP_SIZE && c !in cs ==> w.fat[c] == v.fat[c]
  {
    hide Sound, Apply, DecodeFat, DecodeTable, SameMeta, SameData;
    var v := Mount(img);
    var f := Link(v.fat, cs, |cs|);
    PhasedPrefix(img, t, cs, f, p, table, j);
    assert cs[..|cs|] == cs;
    LinkValues(v.fat, cs, |cs|);
    Unowned(v, Mount(Apply(img, t[..j])), sh, cs, p);
  }

  /** Before the parent's table is written nothing reachable has changed. */
  lemma BeforeCommit(img: Image, sh: Shape, req: Request, data: Bytes, garbage: Table, j: nat)
    requires GoodWrite(img, sh, req, data, garbage)
    requires j < |WriteOp(img, req, data, garbage).trace|
    ensures OnDisk(WriteOp(img, req, data, garbage).trace[..j])
    ensures var w := Mount(Apply(img, WriteOp(img, req, data, garbage).trace[..j]));
      && SameMeta(Mount(img), w, sh) && SameData(Mount(img), w, sh)
      && (forall c :: 0 <= c < CLUSTER_MAP_SIZE && c !in Chosen(img, req).clusters ==> w.fat[c] == Mount(img).fat[c])
  {
    hide WriteOp, Chosen, Created, Required, Sound, Apply, DecodeFat, DecodeTable, SameMeta, SameData, Mount, Phased;
    AcceptedChoice(img, sh, req, data, garbage);
    AcceptedTrace(img, sh, req, data, garbage);
    var t := WriteOp(img, req, data, garbage).trace;
    var a := Chosen(img, req);
    PhasedBeforeCommit(img, sh, t, a.clusters, req.parent, Mount(img).tables[req.parent][a.slot := Created(img, req)], j);
  }

  // ---------- the commit ----------

  /** The node an accepted write asks for: an empty directory, or the file with its data in whole clusters. */
  function Requested(req: Request, data: Bytes): Node
    requires Buffered(req, data)
  {
    if req.size == 0 then Folder(req.name)
    else File(req.name, req.ext, req.size, seq(Required(req.size), k requires 0 <= k < Required(req.size) => Block(data, k)))
  }

  lemma InitTableIsFresh(garbage: Table, name: Name, parent: u32)
    ensures FreshTable(InitTable(garbage, name, parent), name, parent)
  {}

  lemma CreatedFacts(img: Image, req: Request)
    requires req.parent < DISK_CLUSTERS && Chosen(img, req).slot != -1
    ensures var e := Created(img, req); var cs := Chosen(img, req).clusters;
      && Live(e) && First(e) == cs[0] && Length(e) == |cs| == Required(req.size) && e.name == req.name
      && (IsDir(e) <==> req.size == 0) && (req.size > 0 ==> e.ext == req.ext && e.filesize == req.size)
  {
    var c := Chosen(img, req).clusters[0];
    assert c / 0x1_0000 == 0 && c % 0x1_0000 == c;
  }

  /** A volume grown by a phased trace of a new entry `e`. */
  lemma PhasedCommit(img: Image, sh: Shape, t: seq<ClusterWrite>, cs: seq<nat>, p: nat, s: nat, e: Entry)
    requires Sound(Mount(img), sh) && p in sh.depth && p < CLUSTER_MAP_SIZE && Slot(s) && !Live(Mount(img).tables[p][s])
    requires Mapped(cs) && Distinct(cs) && |cs| > 0 && forall k :: 0 <= k < |cs| ==> Mount(img).fat[cs[k]] == EMPTY_ENTRY
    requires Live(e) && First(e) == cs[0] && Length(e) == |cs| && (!IsDir(e) ==> e.filesize > 0)
    requires Phased(t, cs, Link(Mount(img).fat, cs, |cs|), p, Mount(img).tables[p][s := e])
    requires IsDir(e) ==> FreshTable(DecodeTable(t[0].bytes), e.name, p)
    ensures OnDisk(t)
    ensures Grown(Mount(img), Mount(Apply(img, t)), sh, p, s, e, cs)
  {
    hide Apply, DecodeFat, DecodeTable, FreshTable, First, Length, Sound, Link;
    var v := Mount(img);
    var f := Link(v.fat, cs, |cs|);
    assert t[..|t|] == t;
    PhasedPrefix(img, t, cs, f, p, v.tables[p][s := e], |t|);
    assert && (forall k {:trigger Next(cs, k)} :: 0 <= k < |cs| ==> f[cs[k]] == Next(cs, k))
           && (forall c :: 0 <= c < CLUSTER_MAP_SIZE && c !in cs ==> f[c] == v.fat[c])
    by {
      assert cs[..|cs|] == cs;
      LinkValues(v.fat, cs, |cs|);
    }
    assert forall d :: d in sh.depth ==> d !in cs && 2 <= d < CLUSTER_MAP_SIZE by {
      OwnedInData(v, sh);
      FreeIsUnowned(v, sh, cs);
    }
  }

  lemma PhasedData(img: Image, sh: Shape, t: seq<ClusterWrite>, cs: seq<nat>, f: Fat, p: nat, table: Table)
    requires Sound(Mount(img), sh) && p in sh.depth && Phased(t, cs, f, p, table)
    requires Mapped(cs) && forall k :: 0 <= k < |cs| ==> Mount(img).fat[cs[k]] == EMPTY_ENTRY
    ensures OnDisk(t)
    ensures var w := Mount(Apply(img, t));
      SameData(Mount(img), w, sh) && forall k :: 0 <= k < |cs| ==> w.data[cs[k]] == t[k].bytes
  {
    hide Apply, DecodeFat, DecodeTable, Sound;
    assert t[..|t|] == t;
    PhasedPrefix(img, t, cs, f, p, table, |t|);
    OwnedInData(Mount(img), sh);
    FreeIsUnowned(Mount(img), sh, cs);
  }

  lemma {:induction false} LinkedChain(f: Fat, cs: seq<nat>, k: nat)
    requires Mapped(cs) && k < |cs| && forall i {:trigger Next(cs, i)} :: 0 <= i < |cs| ==> f[cs[i]] == Next(cs, i)
    ensures Chain(f, cs[k], |cs| - k) == cs[k..]
    decreases |cs| - k
  {
    assert f[cs[k]] == Next(cs, k);
    if k + 1 < |cs| {
      LinkedChain(f, cs, k + 1);
    }
  }

  /** The file found in the slot of a grown volume holds the blocks written to its chain. */
  lemma GrownNodeAt(v: Volume, w: Volume, sh: Shape, p: nat, s: nat, e: Entry, cs: seq<nat>)
    requires Grown(v, w, sh, p, s, e, cs)
    ensures NodeAt(w, p, s) == if IsDir(e) then Folder(e.name)
      else File(e.name, e.ext, e.filesize, seq(|cs|, k requires 0 <= k < |cs| => if cs[k] < DISK_CLUSTERS then w.data[cs[k]] else BLANK_CLUSTER))
  {
    hide Length, First, FreshTable;
    LinkedChain(w.fat, cs, 0);
    assert cs[0..] == cs;
  }

  /** After the last write the volume has grown by exactly the requested entry... */
  lemma Commit(img: Image, sh: Shape, req: Request, data: Bytes, garbage: Table)
    requires GoodWrite(img, sh, req, data, garbage)
    ensures OnDisk(WriteOp(img, req, data, garbage).trace) && Slot(Chosen(img, req).slot)
    ensures var w := Mount(Apply(img, WriteOp(img, req, data, garbage).trace)); var a := Chosen(img, req);
      Grown(Mount(img), w, sh, req.parent, a.slot, Created(img, req), a.clusters)
  {
    hide WriteOp, Created, Chosen, Sound, Apply, DecodeFat, DecodeTable, FreshTable, Grown, Mount, Required;
    AcceptedChoice(img, sh, req, data, garbage);
    AcceptedTrace(img, sh, req, data, garbage);
    CreatedFacts(img, req);
    var t := WriteOp(img, req, data, garbage).trace;
    var a := Chosen(img, req);
    if req.size == 0 {
      assert t[0] == t[..|a.clusters|][0];
      TableRoundTrip(InitTable(garbage, req.name, req.parent));
      InitTableIsFresh(garbage, req.name, req.parent);
    }
    PhasedCommit(img, sh, t, a.clusters, req.parent, a.slot, Created(img, req));
  }

  lemma WrittenBlocks(req: Request, data: Bytes, garbage: Table, t: seq<ClusterWrite>, cs: seq<nat>, w: Volume)
    requires Buffered(req, data) && |cs| == Required(req.size) && req.size > 0 && Mapped(cs) && Sized(w)
    requires |t| >= |cs| && t[..|cs|] == DataWrites(req, data, garbage, cs)
    requires forall k :: 0 <= k < |cs| ==> w.data[cs[k]] == t[k].bytes
    ensures seq(|cs|, k requires 0 <= k < |cs| => if cs[k] < DISK_CLUSTERS then w.data[cs[k]] else BLANK_CLUSTER)
      == seq(Required(req.size), k requires 0 <= k < Required(req.size) => Block(data, k))
  {
    hide Required, Block;
    forall k | 0 <= k < |cs|
      ensures w.data[cs[k]] == Block(data, k)
    {
      assert t[k] == t[..|cs|][k];
    }
  }

  /** ... and the new slot holds exactly what was asked for. */
  lemma CommitNode(img: Image, sh: Shape, req: Request, data: Bytes, garbage: Table)
    requires GoodWrite(img, sh, req, data, garbage)
    ensures OnDisk(WriteOp(img, req, data, garbage).trace)
    ensures var w := Mount(Apply(img, WriteOp(img, req, data, garbage).trace)); var a := Chosen(img, req);
      && SameData(Mount(img), w, sh)
      && NodeAt(w, req.parent, a.slot) == Requested(req, data)
  {
    hide WriteOp, Created, Chosen, Sound, Apply, DecodeFat, DecodeTable, Mount, Required, Link;
    hide SameData, NodeAt, Grown;
    Commit(img, sh, req, data, garbage);
    AcceptedChoice(img, sh, req, data, garbage);
    AcceptedTrace(img, sh, req, data, garbage);
    CreatedFacts(img, req);
    var t := WriteOp(img, req, data, garbage).trace;
    var a := Chosen(img, req);
    var cs := a.clusters;
    var e := Created(img, req);
    PhasedData(img, sh, t, cs, Link(Mount(img).fat, cs, |cs|), req.parent, Mount(img).tables[req.parent][a.slot := e]);
    GrownNodeAt(Mount(img), Mount(Apply(img, t)), sh, req.parent, a.slot, e, cs);
    if req.size > 0 {
      WrittenBlocks(req, data, garbage, t, cs, Mount(Apply(img, t)));
    }
  }

  // ---------- write: the theorem ----------

  /** Every prefix of the writes of an accepted `write` leaves a sound volume that presents exactly the old
      tree, or, once the last write is done, the old tree with the requested node in the chosen slot.  The
      only possible damage is that the chosen clusters are leaked, and a completed write leaks nothing. */
  lemma WriteIsAtomic(img: Image, sh: Shape, req: Request, data: Bytes, garbage: Table, j: nat)
    requires GoodWrite(img, sh, req, data, garbage)
    requires j <= |WriteOp(img, req, data, garbage).trace|
    ensures OnDisk(WriteOp(img, req, data, garbage).trace[..j]) && Slot(Chosen(img, req).slot)
    ensures var t := WriteOp(img, req, data, garbage).trace; var v, w := Mount(img), Mount(Apply(img, t[..j]));
      if j < |t| then
        Sound(w, sh) && SameTree(v, w) && Leaked(w, sh) <= Leaked(v, sh) + (set c | c in Chosen(img, req).clusters)
      else
        && ChangedAt(v, w, req.parent, Chosen(img, req).slot, Requested(req, data))
        && exists sh' :: Sound(w, sh') && Leaked(w, sh') == Leaked(v, sh)
  {
    hide WriteOp, Created, Chosen, Sound, Apply, DecodeFat, DecodeTable, Mount, Required, Link;
    hide SameData, NodeAt, Grown, Requested, SameTree, ChangedAt;
    var t := WriteOp(img, req, data, garbage).trace;
    var v, a := Mount(img), Chosen(img, req);
    AcceptedChoice(img, sh, req, data, garbage);
    if j < |t| {
      BeforeCommit(img, sh, req, data, garbage, j);
      var w := Mount(Apply(img, t[..j]));
      SoundFrame(v, w, sh);
      UnreachableChange(v, w, sh);
    } else {
      assert t[..j] == t;
      Commit(img, sh, req, data, garbage);
      CommitNode(img, sh, req, data, garbage);
      var w, e := Mount(Apply(img, t)), Created(img, req);
      CreatedFacts(img, req);
      GrowKeepsSound(v, w, sh, req.parent, a.slot, e, a.clusters);
      GrownTree(v, w, sh, req.parent, a.slot, e, a.clusters);
    }
  }

  // ---------- delete ----------

  /** A `delete` that takes the file branch, on a sound volume, with the cached FAT equal to the one on disk. */
  ghost predicate GoodDelete(img: Image, sh: Shape, req: Request) {
    && req.parent < DISK_CLUSTERS && Sound(Mount(img), sh) && req.parent in sh.depth
    && var t := Mount(img).tables[req.parent];
    && var s := DeleteSlot(t, req.name, req.ext, 1);
    && s < TABLE_SLOTS && !IsDir(t[s])
  }

  lemma ChainIsShort(r: seq<nat>)
    requires Distinct(r) && Mapped(r)
    ensures |r| <= CLUSTER_MAP_SIZE
  {
    var pool: seq<nat> := seq(CLUSTER_MAP_SIZE, i => i);
    forall k | 0 <= k < |r|
      ensures r[k] in pool
    {
      assert pool[r[k]] == r[k];
    }
    DistinctInPool(r, pool);
  }

  lemma CountOf(e: Entry)
    requires !IsDir(e) && e.filesize > 0 && Length(e) <= CLUSTER_MAP_SIZE
    ensures DeleteCount(e) == Length(e)
    ensures First(e) < CLUSTER_MAP_SIZE ==> e.clusterLow == First(e)
  {}

  lemma EntryFacts(v: Volume, sh: Shape, d: nat, s: nat)
    requires Sound(v, sh) && d in sh.depth && Slot(s) && Live(v.tables[d][s])
    ensures First(v.tables[d][s]) < CLUSTER_MAP_SIZE && (!IsDir(v.tables[d][s]) ==> v.tables[d][s].filesize > 0)
  {
    assert EntryOk(v, sh, d, s);
    assert OwnerOk(v, sh, First(v.tables[d][s]));
  }

  /** On a sound volume `delete` collects exactly the chain of the file's entry, 16-bit arithmetic and all. */
  lemma DoomedIsTheChain(v: Volume, sh: Shape, d: nat, s: nat)
    requires Sound(v, sh) && d in sh.depth && Slot(s) && Live(v.tables[d][s]) && !IsDir(v.tables[d][s])
    ensures var e := v.tables[d][s]; Doomed(v.fat, e) == EntryChain(v, d, s) && DeleteCount(e) == |EntryChain(v, d, s)|
  {
    hide EntriesOk, OwnersOk, DirOk, Required, DeleteCount, First;
    var e := v.tables[d][s];
    var r: seq<nat> := EntryChain(v, d, s);
    ChainsAreProper(v, sh, d, s);
    ChainIsShort(r);
    EntryFacts(v, sh, d, s);
    CountOf(e);
    forall k | 0 <= k < |r| - 1
      ensures Low(v.fat)[r[k]] == v.fat[r[k]]
    {
      assert v.fat[r[k]] == Next(r, k);
    }
    ChainFrame(v.fat, Low(v.fat), First(e), |r|, r);
  }

  lemma {:induction false} EraseValues(f: Fat, cs: seq<nat>, n: nat)
    requires n <= |cs| && forall k :: 0 <= k < |cs| ==> cs[k] < CLUSTER_MAP_SIZE
    ensures forall c :: 0 <= c < CLUSTER_MAP_SIZE ==> Erase(f, cs, n)[c] == if c in cs[..n] then EMPTY_ENTRY else f[c]
  {
    if n > 0 {
      EraseValues(f, cs, n - 1);
      assert cs[..n] == cs[..n - 1] + [cs[n - 1]];
    }
  }

  /** The slot a `delete` stops at is never one of the two reserved ones when it takes the file branch. */
  lemma DeleteTarget(img: Image, sh: Shape, req: Request)
    requires GoodDelete(img, sh, req)
    ensures var v := Mount(img); var p := req.parent; var s := DeleteSlot(v.tables[p], req.name, req.ext, 1);
      2 <= p < CLUSTER_MAP_SIZE && Slot(s) && Live(v.tables[p][s]) && !IsDir(v.tables[p][s])
  {
    hide EntriesOk, OwnersOk, DecodeTable, DecodeFat;
    assert DirOk(Mount(img), sh, req.parent);
  }

  /** A sound volume never leads `delete` out of the FAT. */
  lemma DeleteIsSafe(img: Image, sh: Shape, req: Request)
    requires req.parent < DISK_CLUSTERS && Sound(Mount(img), sh) && req.parent in sh.depth
    ensures DeleteSafe(img, Mount(img).fat, req)
  {
    hide Sound, DecodeTable, DecodeFat, Doomed, DeleteCount;
    var v := Mount(img);
    if GoodDelete(img, sh, req) {
      var s := DeleteSlot(v.tables[req.parent], req.name, req.ext, 1);
      DeleteTarget(img, sh, req);
      DoomedIsTheChain(v, sh, req.parent, s);
      ChainsAreProper(v, sh, req.parent, s);
    }
  }

  ghost function DeleteTrace(v: Volume, p: nat, s: nat): (t: seq<ClusterWrite>)
    requires Sized(v) && p < CLUSTER_MAP_SIZE && Slot(s)
    requires Mapped(EntryChain(v, p, s))
    ensures |t| == 2
  {
    var r := EntryChain(v, p, s);
    [ClusterWrite(p, EncodeTable(v.tables[p][s := Cleared(v.tables[p][s])])), ClusterWrite(FAT_CLUSTER, EncodeFat(Erase(v.fat, r, |r|)))]
  }

  lemma DeleteOpTrace(img: Image, sh: Shape, req: Request)
    requires GoodDelete(img, sh, req)
    ensures DeleteSafe(img, Mount(img).fat, req)
    ensures var v := Mount(img); var p := req.parent; var s := DeleteSlot(v.tables[p], req.name, req.ext, 1);
      Slot(s) && 2 <= p < CLUSTER_MAP_SIZE && var r := EntryChain(v, p, s); var o := DeleteOp(img, v.fat, req);
      Mapped(r) && o.code == 0 && o.trace == DeleteTrace(v, p, s) && o.cache == Erase(v.fat, r, |r|)
  {
    hide Sound, DecodeTable, DecodeFat, Doomed, DeleteCount;
    var v := Mount(img);
    var s := DeleteSlot(v.tables[req.parent], req.name, req.ext, 1);
    DeleteIsSafe(img, sh, req);
    DeleteTarget(img, sh, req);
    DoomedIsTheChain(v, sh, req.parent, s);
    ChainsAreProper(v, sh, req.parent, s);
  }

  /** The volumes after the first and after the second write of a delete. */
  lemma DeleteVolumes(img: Image, p: nat, s: nat)
    requires 2 <= p < CLUSTER_MAP_SIZE && Slot(s) && Mapped(EntryChain(Mount(img), p, s))
    ensures var v := Mount(img); var t := DeleteTrace(v, p, s); var r := EntryChain(v, p, s);
      && OnDisk(t) && OnDisk(t[..1]) && OnDisk(t[..2])
      && var w1, w2 := Mount(Apply(img, t[..1])), Mount(Apply(img, t[..2]));
      && w1.fat == v.fat && w2.fat == Erase(v.fat, r, |r|)
      && w1.tables[p] == w2.tables[p] == v.tables[p][s := Cleared(v.tables[p][s])]
      && (forall c :: 2 <= c < DISK_CLUSTERS && c != p ==>
          w1.tables[c] == w2.tables[c] == v.tables[c] && w1.data[c] == w2.data[c] == v.data[c])
      && (forall c :: 2 <= c < DISK_CLUSTERS ==> w1.data[c] == w2.data[c])
  {
    hide DecodeTable, DecodeFat, EncodeTable, EncodeFat, EntryChain, Erase;
    var v := Mount(img);
    var t := DeleteTrace(v, p, s);
    var r := EntryChain(v, p, s);
    PrefixValues(img, t, 1);
    PrefixValues(img, t, 2);
    TableRoundTrip(v.tables[p][s := Cleared(v.tables[p][s])]);
    FatRoundTrip(Erase(v.fat, r, |r|));
  }

  lemma DeleteStages(v: Volume, w1: Volume, w2: Volume, sh: Shape, p: nat, s: nat)
    requires Sound(v, sh) && Sized(w1) && Sized(w2) && p in sh.depth && p < CLUSTER_MAP_SIZE
    requires Slot(s) && Live(v.tables[p][s]) && !IsDir(v.tables[p][s])
    requires Mapped(EntryChain(v, p, s)) && w1.fat == v.fat && w2.fat == Erase(v.fat, EntryChain(v, p, s), |EntryChain(v, p, s)|)
    requires w1.tables[p] == w2.tables[p] == v.tables[p][s := Cleared(v.tables[p][s])]
    requires forall c :: 2 <= c < DISK_CLUSTERS && c != p ==>
      w1.tables[c] == w2.tables[c] == v.tables[c] && w1.data[c] == w2.data[c] == v.data[c]
    ensures var sh' := ShrunkShape(sh, p, s);
      && ChangedAt(v, w1, p, s, Absent) && Sound(w1, sh') && Leaked(w1, sh') == Leaked(v, sh) + (set c | c in EntryChain(v, p, s))
      && ChangedAt(v, w2, p, s, Absent) && Sound(w2, sh') && Leaked(w2, sh') == Leaked(v, sh)
  {
    hide DirsOk, EntriesOk, OwnersOk, LeadsTo, Look;
    var r: seq<nat> := EntryChain(v, p, s);
    var sh' := ShrunkShape(sh, p, s);
    OwnedInData(v, sh);
    ShrinkKeepsSound(v, w1, sh, p, s);
    ShrunkTree(v, w1, sh, p, s);
    ChainsAreProper(v, sh, p, s);
    EraseValues(v.fat, r, |r|);
    assert r[..|r|] == r;
    SoundFrame(w1, w2, sh');
    UnreachableChange(w1, w2, sh');
  }

  /** Every prefix of the writes of a successful file `delete` leaves a sound volume presenting exactly the
      old tree, or the old tree without that file; the file's clusters are leaked in between, and no
      others, and none once the FAT is written. */
  lemma DeleteIsAtomic(img: Image, sh: Shape, req: Request, j: nat)
    requires GoodDelete(img, sh, req) && j <= 2
    ensures DeleteSafe(img, Mount(img).fat, req) && OnDisk(DeleteOp(img, Mount(img).fat, req).trace[..j])
    ensures var v := Mount(img); var s := DeleteSlot(v.tables[req.parent], req.name, req.ext, 1);
      var w := Mount(Apply(img, DeleteOp(img, v.fat, req).trace[..j])); var sh' := ShrunkShape(sh, req.parent, s);
      if j == 0 then w == v
      else
        && Slot(s) && ChangedAt(v, w, req.parent, s, Absent) && Sound(w, sh')
        && Leaked(w, sh') == Leaked(v, sh) + (if j == 1 then set c | c in EntryChain(v, req.parent, s) else {})
  {
    hide DeleteOp, DeleteSafe, DecodeTable, DecodeFat, DeleteTrace, EntryChain, Sound, ChangedAt, Erase, Leaked, ShrunkShape, DeleteSlot;
    var v := Mount(img);
    var p := req.parent;
    var s := DeleteSlot(v.tables[p], req.name, req.ext, 1);
    DeleteTarget(img, sh, req);
    DeleteOpTrace(img, sh, req);
    DeleteVolumes(img, p, s);
    var t := DeleteTrace(v, p, s);
    assert t[..0] == [];
    if j > 0 {
      var w1, w2 := Mount(Apply(img, t[..1])), Mount(Apply(img, t[..2]));
      DeleteStages(v, w1, w2, sh, p, s);
    }
  }
}
