/** What one call of the driver does, as a function of the disk image it starts from: the return code,
    the cluster writes in the order they reach the disk, and the cached FAT left behind. */
module FatOps {
  import opened Words
  import opened FatLayout
  import opened FatShape

  /** A request; size 0 asks `write` for a directory. */
  datatype Request = Request(name: Name, ext: Ext, parent: nat, size: u32)

  datatype ClusterWrite = ClusterWrite(cluster: nat, bytes: Cluster)

  datatype Outcome = Outcome(code: int, trace: seq<ClusterWrite>, cache: Fat)

  /** Stands for the branch of `delete` that removes a directory, which is not part of this model. */
  const DIRECTORY_BRANCH := 100

  // ---------- images and traces ----------

  ghost function Mount(img: Image): (v: Volume)
    ensures Sized(v)
  {
    Volume(DecodeFat(img[FAT_CLUSTER]), seq(DISK_CLUSTERS, c requires 0 <= c < DISK_CLUSTERS => DecodeTable(img[c])), img)
  }

  ghost predicate OnDisk(t: seq<ClusterWrite>) { forall k :: 0 <= k < |t| ==> t[k].cluster < DISK_CLUSTERS }

  /** The image after the writes of `t` reached the disk in order; a write past the end is lost. */
  ghost function Apply(img: Image, t: seq<ClusterWrite>): Image {
    if t == [] then img
    else if t[|t| - 1].cluster >= DISK_CLUSTERS then Apply(img, t[..|t| - 1])
    else Apply(img, t[..|t| - 1])[t[|t| - 1].cluster := t[|t| - 1].bytes]
  }

  ghost predicate OneWriteEach(t: seq<ClusterWrite>) {
    forall a, b :: 0 <= a < b < |t| ==> t[a].cluster != t[b].cluster
  }

  lemma {:induction false} ApplyValues(img: Image, t: seq<ClusterWrite>)
    requires OnDisk(t) && OneWriteEach(t)
    ensures forall k :: 0 <= k < |t| ==> Apply(img, t)[t[k].cluster] == t[k].bytes
    ensures forall c :: 0 <= c < DISK_CLUSTERS && (forall k :: 0 <= k < |t| ==> t[k].cluster != c) ==>
      Apply(img, t)[c] == img[c]
  {
    if t != [] {
      var s := t[..|t| - 1];
      ApplyValues(img, s);
      assert forall k :: 0 <= k < |s| ==> s[k] == t[k];
    }
  }

  // ---------- write ----------

  /** Free clusters found by one more pass over the FAT, which does not forget the earlier passes. */
  function TakeFree(free: seq<nat>, got: seq<nat>, need: nat): seq<nat>
    requires |got| <= need
  {
    got + free[..if |free| <= need - |got| then |free| else need - |got|]
  }

  datatype Alloc = Alloc(slot: int, clusters: seq<nat>)

  /** Slot and clusters chosen after looking at slots 2 to `i - 1`: every empty slot starts a pass until
      enough clusters have been collected. */
  function ScanTo(t: Table, free: seq<nat>, need: nat, i: nat): (a: Alloc)
    requires 2 <= i <= TABLE_SLOTS && need > 0
    ensures |a.clusters| <= need && (a.slot == -1 <==> |a.clusters| < need)
    ensures a.slot == -1 || (2 <= a.slot < i && !Live(t[a.slot]))
    ensures forall c :: c in a.clusters ==> c in free
  {
    if i == 2 then Alloc(-1, [])
    else
      var a := ScanTo(t, free, need, i - 1);
      if Live(t[i - 1]) || |a.clusters| == need then a
      else
        var got := TakeFree(free, a.clusters, need);
        Alloc(if |got| == need then i - 1 else -1, got)
  }

  function Allocate(t: Table, f: Fat, size: u32): (a: Alloc)
    ensures |a.clusters| <= Required(size) && (a.slot == -1 <==> |a.clusters| < Required(size))
    ensures a.slot == -1 || (Slot(a.slot) && !Live(t[a.slot]))
    ensures Mapped(a.clusters) && forall k :: 0 <= k < |a.clusters| ==> f[a.clusters[k]] == EMPTY_ENTRY
  {
    var a := ScanTo(t, FreeList(f), Required(size), TABLE_SLOTS);
    assert forall k :: 0 <= k < |a.clusters| ==> a.clusters[k] in FreeList(f);
    a
  }

  predicate Duplicate(t: Table, name: Name, ext: Ext) {
    exists s :: 2 <= s < TABLE_SLOTS && Live(t[s]) && SameKey(t[s], name, ext)
  }

  function NewEntry(was: Entry, req: Request, first: nat): Entry {
    var e := was.(userAttribute := UATTR_NOT_EMPTY, name := req.name,
                  clusterHigh := first / 0x1_0000 % 0x1_0000, clusterLow := first % 0x1_0000);
    if req.size == 0 then e.(attribute := ATTR_SUBDIRECTORY)
    else e.(attribute := 0, ext := req.ext, filesize := req.size)
  }

  function DotDot(was: Name): Name { ['.' as int, '.' as int, 0] + was[3..] }

  /** A new directory table over whatever bytes the table held before. */
  function InitTable(garbage: Table, name: Name, parent: u32): Table {
    seq(TABLE_SLOTS, i requires 0 <= i < TABLE_SLOTS =>
      if i == 0 then
        garbage[0].(name := name, userAttribute := UATTR_NOT_EMPTY, attribute := ATTR_SUBDIRECTORY)
      else if i == 1 then
        garbage[1].(name := DotDot(garbage[1].name), userAttribute := UATTR_NOT_EMPTY, attribute := ATTR_SUBDIRECTORY,
                    clusterLow := parent % 0x1_0000, clusterHigh := parent / 0x1_0000)
      else garbage[i].(userAttribute := 0))
  }

  function Block(data: Bytes, k: nat): Cluster
    requires CLUSTER_SIZE * (k + 1) <= |data|
  {
    data[CLUSTER_SIZE * k..CLUSTER_SIZE * (k + 1)]
  }

  /** Transfers are whole clusters, so a file buffer must extend to a whole number of them. */
  predicate Buffered(req: Request, data: Bytes) {
    req.parent < DISK_CLUSTERS && (req.size > 0 ==> CLUSTER_SIZE * Required(req.size) <= |data|)
  }

  function FileWrites(data: Bytes, cs: seq<nat>): (t: seq<ClusterWrite>)
    requires CLUSTER_SIZE * |cs| <= |data|
  {
    seq(|cs|, k requires 0 <= k < |cs| => ClusterWrite(cs[k], Block(data, k)))
  }

  function DataWrites(req: Request, data: Bytes, garbage: Table, cs: seq<nat>): (t: seq<ClusterWrite>)
    requires Buffered(req, data) && |cs| == Required(req.size)
    ensures |t| == |cs| && forall k :: 0 <= k < |t| ==> t[k].cluster == cs[k]
  {
    if req.size == 0 then
      [ClusterWrite(cs[0], EncodeTable(InitTable(garbage, req.name, req.parent)))]
    else
      FileWrites(data, cs)
  }

  /** The three phases of an accepted write: data, then the FAT, then the parent's table. */
  function WriteTrace(t: Table, f: Fat, req: Request, data: Bytes, garbage: Table, a: Alloc): seq<ClusterWrite>
    requires Buffered(req, data) && |a.clusters| == Required(req.size) && Slot(a.slot) && Mapped(a.clusters)
  {
    DataWrites(req, data, garbage, a.clusters)
    + [ClusterWrite(FAT_CLUSTER, EncodeFat(Link(f, a.clusters, |a.clusters|)))]
    + [ClusterWrite(req.parent, EncodeTable(t[a.slot := NewEntry(t[a.slot], req, a.clusters[0])]))]
  }

  function WriteOp(img: Image, req: Request, data: Bytes, garbage: Table): Outcome
    requires Buffered(req, data)
  {
    var t := DecodeTable(img[req.parent]);
    var f := DecodeFat(img[FAT_CLUSTER]);
    var a := Allocate(t, f, req.size);
    if !Live(t[0]) || !IsDir(t[0]) then Outcome(2, [], f)
    else if Duplicate(t, req.name, req.ext) then Outcome(1, [], f)
    else if a.slot == -1 then Outcome(-1, [], f)
    else Outcome(0, WriteTrace(t, f, req, data, garbage, a), Link(f, a.clusters, |a.clusters|))
  }

  // ---------- delete ----------

  predicate DeleteStops(e: Entry, name: Name, ext: Ext) {
    Live(e) && e.name == name && (IsDir(e) || e.ext == ext)
  }

  /** The first slot from `i` at which `delete` stops: a live directory with the name, or a live file with
      the name and extension. */
  function DeleteSlot(t: Table, name: Name, ext: Ext, i: nat): (s: nat)
    requires i <= TABLE_SLOTS
    ensures i <= s <= TABLE_SLOTS
    ensures s < TABLE_SLOTS ==> DeleteStops(t[s], name, ext)
    ensures forall k :: i <= k < s ==> !DeleteStops(t[k], name, ext)
    decreases TABLE_SLOTS - i
  {
    if i == TABLE_SLOTS || DeleteStops(t[i], name, ext) then i else DeleteSlot(t, name, ext, i + 1)
  }

  /** The FAT as `delete` follows it, each cell cut to 16 bits. */
  function Low(f: Fat): Fat { seq(CLUSTER_MAP_SIZE, i requires 0 <= i < CLUSTER_MAP_SIZE => f[i] % 0x1_0000) }

  /** The FAT after the first `n` clusters of `cs` have been freed. */
  function Erase(f: Fat, cs: seq<nat>, n: nat): Fat
    requires n <= |cs| && forall k :: 0 <= k < |cs| ==> cs[k] < CLUSTER_MAP_SIZE
  {
    if n == 0 then f else Erase(f, cs, n - 1)[cs[n - 1] := EMPTY_ENTRY]
  }

  function DeleteCount(e: Entry): u16 {
    (if e.filesize % CLUSTER_SIZE == 0 then e.filesize / CLUSTER_SIZE else e.filesize / CLUSTER_SIZE + 1) % 0x1_0000
  }

  function Doomed(f: Fat, e: Entry): seq<nat> { Chain(Low(f), e.clusterLow, DeleteCount(e)) }

  /** The file `delete` would remove has a chain that stays inside the FAT. */
  predicate DeleteSafe(img: Image, cache: Fat, req: Request) {
    && req.parent < DISK_CLUSTERS
    && var t := DecodeTable(img[req.parent]);
    && var s := DeleteSlot(t, req.name, req.ext, 1);
    && (s < TABLE_SLOTS && !IsDir(t[s]) ==>
        |Doomed(cache, t[s])| == DeleteCount(t[s])
        && forall k :: 0 <= k < |Doomed(cache, t[s])| ==> Doomed(cache, t[s])[k] < CLUSTER_MAP_SIZE)
  }

  /** `delete` works from the cached FAT, which it never reloads: the parent's table is written first, the
      FAT second. */
  function DeleteOp(img: Image, cache: Fat, req: Request): Outcome
    requires DeleteSafe(img, cache, req)
  {
    var t := DecodeTable(img[req.parent]);
    var s := DeleteSlot(t, req.name, req.ext, 1);
    if s == TABLE_SLOTS then Outcome(1, [], cache)
    else if IsDir(t[s]) then Outcome(DIRECTORY_BRANCH, [], cache)
    else
      var f := Erase(cache, Doomed(cache, t[s]), DeleteCount(t[s]));
      Outcome(0, [ClusterWrite(req.parent, EncodeTable(t[s := Cleared(t[s])])), ClusterWrite(FAT_CLUSTER, EncodeFat(f))], f)
  }

  // ---------- read ----------

  datatype ReadOutcome = ReadOutcome(code: int, blocks: seq<Cluster>)

  /** The first slot carrying the key, whether or not it is live. */
  function KeySlot(t: Table, name: Name, ext: Ext, i: nat): (s: nat)
    requires i <= TABLE_SLOTS
    ensures i <= s <= TABLE_SLOTS
    ensures s < TABLE_SLOTS ==> SameKey(t[s], name, ext)
    ensures forall k :: i <= k < s ==> !SameKey(t[k], name, ext)
    decreases TABLE_SLOTS - i
  {
    if i == TABLE_SLOTS || SameKey(t[i], name, ext) then i else KeySlot(t, name, ext, i + 1)
  }

  predicate ReachesEof(f: Fat, c: nat, n: nat)
    decreases n
  {
    c == END_OF_FILE || (n > 0 && c < CLUSTER_MAP_SIZE && ReachesEof(f, f[c], n - 1))
  }

  function ToEof(f: Fat, c: nat, n: nat): (r: seq<nat>)
    ensures |r| <= n && forall k :: 0 <= k < |r| ==> r[k] < CLUSTER_MAP_SIZE
    decreases n
  {
    if c == END_OF_FILE || n == 0 || c >= CLUSTER_MAP_SIZE then [] else [c] + ToEof(f, f[c], n - 1)
  }

  function Blocks(img: Image, cs: seq<nat>): seq<Cluster>
    requires forall k :: 0 <= k < |cs| ==> cs[k] < CLUSTER_MAP_SIZE
  {
    seq(|cs|, k requires 0 <= k < |cs| => img[cs[k]])
  }

  /** The entry `read` would follow, if any, has a chain that ends. */
  predicate ReadSafe(img: Image, req: Request) {
    && req.parent < DISK_CLUSTERS
    && var t := DecodeTable(img[req.parent]);
    && var s := KeySlot(t, req.name, req.ext, 0);
    && (s < TABLE_SLOTS && !IsDir(t[s]) && t[s].filesize <= req.size ==>
        ReachesEof(DecodeFat(img[FAT_CLUSTER]), First(t[s]), CLUSTER_MAP_SIZE))
  }

  function ReadOp(img: Image, req: Request): ReadOutcome
    requires ReadSafe(img, req)
  {
    var t := DecodeTable(img[req.parent]);
    var s := KeySlot(t, req.name, req.ext, 0);
    if !Live(t[0]) then ReadOutcome(-1, [])
    else if s == TABLE_SLOTS then ReadOutcome(2, [])
    else if IsDir(t[s]) then ReadOutcome(1, [])
    else if t[s].filesize > req.size then ReadOutcome(-1, [])
    else ReadOutcome(0, Blocks(img, ToEof(DecodeFat(img[FAT_CLUSTER]), First(t[s]), CLUSTER_MAP_SIZE)))
  }

  // ---------- allocation ----------

  lemma {:induction false} ScanLowest(t: Table, free: seq<nat>, need: nat, i: nat)
    requires 2 <= i <= TABLE_SLOTS && 0 < need <= |free|
    ensures var a := ScanTo(t, free, need, i);
      if a.slot == -1 then a.clusters == [] && forall s :: 2 <= s < i ==> Live(t[s])
      else a.clusters == free[..need] && forall s :: 2 <= s < a.slot ==> Live(t[s])
  {
    if i > 2 { ScanLowest(t, free, need, i - 1); }
  }

  /** With enough free clusters the first pass suffices: the lowest empty slot and exactly the lowest free
      clusters in ascending order. */
  lemma AllocateLowest(t: Table, f: Fat, size: u32)
    requires |FreeList(f)| >= Required(size)
    ensures var a := Allocate(t, f, size);
      && (a.slot != -1 ==>
          && a.clusters == FreeList(f)[..Required(size)]
          && Mapped(a.clusters) && Distinct(a.clusters)
          && forall s :: 2 <= s < a.slot ==> Live(t[s]))
      && (a.slot == -1 <==> forall s :: Slot(s) ==> Live(t[s]))
  {
    ScanLowest(t, FreeList(f), Required(size), TABLE_SLOTS);
    assert forall s :: Slot(s) <==> 2 <= s < TABLE_SLOTS;
  }
}
