/** The file-system driver: one instance with its cached FAT and directory-table buffer, working in place.
    Each method is tied to the outcome functions of FatOps. */
module Driver {
  import opened Words
  import opened FatLayout
  import opened FatShape
  import opened FatOps
  import opened FatRuns
  import opened FatFormat
  import opened Disk

  lemma DataWritesAre(req: Request, data: Bytes, garbage: Table, cs: seq<nat>)
    requires Buffered(req, data) && |cs| == Required(req.size)
    ensures DataWrites(req, data, garbage, cs) ==
      if req.size == 0 then [ClusterWrite(cs[0], EncodeTable(InitTable(garbage, req.name, req.parent)))] else FileWrites(data, cs)
  {}

  lemma TraceParts(t: Table, f: Fat, req: Request, data: Bytes, garbage: Table, a: Alloc)
    requires Buffered(req, data) && |a.clusters| == Required(req.size) && Slot(a.slot) && Mapped(a.clusters)
    ensures WriteTrace(t, f, req, data, garbage, a) ==
      DataWrites(req, data, garbage, a.clusters)
      + [ClusterWrite(FAT_CLUSTER, EncodeFat(Link(f, a.clusters, |a.clusters|)))]
      + [ClusterWrite(req.parent, EncodeTable(t[a.slot := NewEntry(t[a.slot], req, a.clusters[0])]))]
  {}

  lemma LinkStep(f: Fat, cs: seq<nat>, k: nat)
    requires k < |cs| && Mapped(cs)
    ensures Link(f, cs, k + 1) == Link(f, cs, k)[cs[k] := Next(cs, k)]
  {}

  lemma LinkNone(f: Fat, cs: seq<nat>)
    requires Mapped(cs)
    ensures Link(f, cs, 0) == f
  {}

  lemma EraseStep(f: Fat, cs: seq<nat>, k: nat)
    requires k < |cs| && forall i :: 0 <= i < |cs| ==> cs[i] < CLUSTER_MAP_SIZE
    ensures Erase(f, cs, k + 1) == Erase(f, cs, k)[cs[k] := EMPTY_ENTRY]
  {}

  lemma EraseStart(f: Fat, cs: seq<nat>)
    requires forall i :: 0 <= i < |cs| ==> cs[i] < CLUSTER_MAP_SIZE
    ensures Erase(f, cs, 0) == f
  {}

  /** One step along the chain that a delete collects. */
  lemma ChainStep(f: Fat, c: nat, n: nat, r: seq<nat>)
    requires r == Chain(Low(f), c, n) && |r| == n > 0 && c < CLUSTER_MAP_SIZE
    ensures r[0] == c && (n > 1 ==> r[1..] == Chain(Low(f), f[c] % 0x1_0000, n - 1))
  {}

  lemma ChainHead(f: Fat, c: nat, n: nat)
    requires n > 0 && |Chain(f, c, n)| == n
    ensures Chain(f, c, n)[0] == c
  {}

  lemma ApplyMore(img: Image, t: seq<ClusterWrite>, w: ClusterWrite)
    requires w.cluster < DISK_CLUSTERS
    ensures Apply(img, t + [w]) == Apply(img, t)[w.cluster := w.bytes]
  {
    var u := t + [w];
    assert u[..|u| - 1] == t && u[|u| - 1] == w;
  }

  lemma ApplyNext(img: Image, t: seq<ClusterWrite>, k: nat)
    requires k < |t| && t[k].cluster < DISK_CLUSTERS
    ensures t[..k + 1] == t[..k] + [t[k]] && Apply(img, t[..k + 1]) == Apply(img, t[..k])[t[k].cluster := t[k].bytes]
  {
    assert t[..k + 1] == t[..k] + [t[k]];
    ApplyMore(img, t[..k], t[k]);
  }

  lemma KeySlotStep(t: Table, name: Name, ext: Ext, i: nat)
    requires i < TABLE_SLOTS
    ensures KeySlot(t, name, ext, i) == if SameKey(t[i], name, ext) then i else KeySlot(t, name, ext, i + 1)
  {}

  /** The outcome of a read by the slot at which the scan stops. */
  lemma ReadCases(img: Image, req: Request)
    requires ReadSafe(img, req)
    ensures req.parent < DISK_CLUSTERS
    ensures var t := DecodeTable(img[req.parent]); var f := DecodeFat(img[FAT_CLUSTER]); var s := KeySlot(t, req.name, req.ext, 0);
      var o := ReadOp(img, req);
      if !Live(t[0]) then o == ReadOutcome(-1, [])
      else if s == TABLE_SLOTS then o == ReadOutcome(2, [])
      else if IsDir(t[s]) then o == ReadOutcome(1, [])
      else if t[s].filesize > req.size then o == ReadOutcome(-1, [])
      else
        && ReachesEof(f, First(t[s]), CLUSTER_MAP_SIZE)
        && var cs := ToEof(f, First(t[s]), CLUSTER_MAP_SIZE);
        && o.code == 0 && |o.blocks| == |cs| && forall k :: 0 <= k < |cs| ==> o.blocks[k] == img[cs[k]]
  {
    hide DecodeTable, DecodeFat, KeySlot, First, ReachesEof, ToEof;
  }

  lemma ToEofStep(f: Fat, c: nat, n: nat)
    requires ReachesEof(f, c, n) && c != END_OF_FILE
    ensures n > 0 && c < CLUSTER_MAP_SIZE && ReachesEof(f, f[c], n - 1) && ToEof(f, c, n) == [c] + ToEof(f, f[c], n - 1)
  {}

  lemma ToEofEnd(f: Fat, n: nat)
    ensures ToEof(f, END_OF_FILE, n) == []
  {}

  lemma TakeOne(s: seq<nat>, k: nat)
    requires k < |s|
    ensures s[..k + 1] == s[..k] + [s[k]] && s[k] == s[k..][0] && s[k + 1..] == s[k..][1..]
  {}

  lemma FreeStep(f: Fat, j: nat)
    requires 3 <= j < CLUSTER_MAP_SIZE
    ensures FreeFrom(f, j) == (if f[j] == EMPTY_ENTRY then [j] else []) + FreeFrom(f, j + 1)
  {}

  /** A pass ends when enough clusters have been taken or none is left. */
  lemma TakenAll(free: seq<nat>, got: seq<nat>, need: nat, taken: nat)
    requires |got| + taken <= need && taken <= |free| && (|got| + taken == need || taken == |free|)
    ensures TakeFree(free, got, need) == got + free[..taken]
  {}

  lemma FreeStart(f: Fat)
    ensures FreeList(f) == FreeFrom(f, 3)
  {}

  lemma FreeEnd(f: Fat)
    ensures FreeFrom(f, CLUSTER_MAP_SIZE) == []
  {}

  class Fat32Driver {
    const disk: BlockDevice
    const fat: array<u32>       // driver_state.fat_table.cluster_map
    const table: array<Entry>   // driver_state.dir_table_buf.table

    ghost predicate Valid()
      reads this, disk
    {
      && disk.Valid() && fat.Length == CLUSTER_MAP_SIZE && table.Length == TABLE_SLOTS
      && fat as object != disk.image && table as object != disk.image && fat as object != table
    }

    ghost function View(): Image
      requires Valid()
      reads this, disk, disk.image
    {
      disk.View()
    }

    constructor (disk: BlockDevice)
      requires disk.Valid()
      ensures Valid() && this.disk == disk && fresh(fat) && fresh(table)
    {
      this.disk := disk;
      fat := new u32[CLUSTER_MAP_SIZE](_ => 0);
      table := new Entry[TABLE_SLOTS](_ => BLANK_ENTRY);
    }

    /** `read_clusters` into the directory-table buffer, the bytes reinterpreted as entries. */
    method LoadTable(cluster: nat)
      requires Valid() && cluster < DISK_CLUSTERS
      modifies table
      ensures table[..] == DecodeTable(View()[cluster]) && View() == old(View())
    {
      var buf := new u8[CLUSTER_SIZE](_ => 0);
      disk.ReadCluster(buf, 0, cluster);
      assert buf[0..0 + CLUSTER_SIZE] == buf[..];
      var t := DecodeTable(buf[..]);
      forall i | 0 <= i < TABLE_SLOTS { table[i] := t[i]; }
      assert disk.image[..] == old(disk.image[..]);
    }

    /** `read_clusters` into the cached FAT. */
    method LoadFat()
      requires Valid()
      modifies fat
      ensures fat[..] == DecodeFat(View()[FAT_CLUSTER]) && View() == old(View())
    {
      var buf := new u8[CLUSTER_SIZE](_ => 0);
      disk.ReadCluster(buf, 0, FAT_CLUSTER);
      assert buf[0..0 + CLUSTER_SIZE] == buf[..];
      var f := DecodeFat(buf[..]);
      forall i | 0 <= i < CLUSTER_MAP_SIZE { fat[i] := f[i]; }
      assert disk.image[..] == old(disk.image[..]);
    }

    // ---------- initialisation ----------

    static method InitDirectoryTable(t: array<Entry>, name: Name, parent: u32)
      requires t.Length == TABLE_SLOTS
      modifies t
      ensures t[..] == InitTable(old(t[..]), name, parent)
    {
      // slot 0 is the directory itself
      t[0] := t[0].(name := name);
      t[0] := t[0].(userAttribute := UATTR_NOT_EMPTY);
      t[0] := t[0].(attribute := ATTR_SUBDIRECTORY);
      // slot 1 is the parent
      t[1] := t[1].(name := DotDot(t[1].name));
      t[1] := t[1].(userAttribute := UATTR_NOT_EMPTY);
      t[1] := t[1].(attribute := ATTR_SUBDIRECTORY);
      t[1] := t[1].(clusterLow := parent % 0x1_0000);
      t[1] := t[1].(clusterHigh := parent / 0x1_0000);
      for i := 2 to TABLE_SLOTS
        invariant forall k :: 0 <= k < i ==> t[k] == InitTable(old(t[..]), name, parent)[k]
        invariant forall k :: i <= k < TABLE_SLOTS ==> t[k] == old(t[k])
      {
        t[i] := t[i].(userAttribute := 0);
      }
    }

    method IsEmptyStorage() returns (empty: bool)
      requires Valid()
      ensures empty == !Formatted(View())
    {
      var block := new u8[BLOCK_SIZE](_ => 0);
      disk.ReadBlocks(block, 0, 0, 1);
      assert block[..] == View()[0][..BLOCK_SIZE];
      empty := block[..] != FsSignature();
    }

    /** The boot sector is one block, a quarter of cluster 0. */
    method WriteSignature()
      requires Valid()
      modifies disk.image
      ensures View() == old(View())[0 := FsSignature() + old(View())[0][BLOCK_SIZE..]]
    {
      hide FsSignature;
      ghost var before := disk.image[..];
      ghost var img := View();
      disk.WriteBlocks(FsSignature(), 0, 1);
      OneClusterChanged(before, disk.image[..], 0, FsSignature() + img[0][BLOCK_SIZE..]);
    }

    method FormatCachedFat()
      requires Valid()
      modifies fat
      ensures fat[..] == FormatFat() && View() == old(View())
    {
      fat[0] := CLUSTER_0_VALUE;
      fat[1] := CLUSTER_1_VALUE;
      fat[2] := END_OF_FILE;
      for i := 3 to CLUSTER_MAP_SIZE
        invariant forall k :: 0 <= k < i ==> fat[k] == FormatFat()[k]
      {
        fat[i] := EMPTY_ENTRY;
      }
      assert disk.image[..] == old(disk.image[..]);
    }

    /** Three writes; `cuts` is the disk after each of them. */
    method CreateFat32(name: Name) returns (ghost cuts: seq<Image>)
      requires Valid()
      modifies fat, table, disk`journal, disk.image
      ensures View() == Format(old(View()), old(table[..]), name)
      ensures |cuts| == 3 && forall j :: 0 <= j < 3 ==> cuts[j] == FormatPrefix(old(View()), old(table[..]), name, j + 1)
      ensures fat[..] == DecodeFat(View()[FAT_CLUSTER])
    {
      hide EncodeTable, EncodeFat, DecodeFat, InitTable, FsSignature;
      WriteSignature();
      cuts := [View()];
      FormatCachedFat();
      disk.WriteCluster(EncodeFat(fat[..]), FAT_CLUSTER);
      cuts := cuts + [View()];
      InitDirectoryTable(table, name, ROOT_CLUSTER);
      disk.WriteCluster(EncodeTable(table[..]), ROOT_CLUSTER);
      cuts := cuts + [View()];
      FatRoundTrip(fat[..]);
    }

    method InitializeFilesystem(name: Name)
      requires Valid()
      modifies fat, table, disk`journal, disk.image
      ensures View() == Initialize(old(View()), old(table[..]), name)
      ensures fat[..] == DecodeFat(View()[FAT_CLUSTER])
    {
      var empty := IsEmptyStorage();
      if empty { ghost var cuts := CreateFat32(name); } else { LoadFat(); }
    }

    // ---------- read ----------

    /** The transfer loop of `read`: follow the cached FAT to the end-of-file mark. */
    method FollowChain(first: nat, buf: array<u8>)
      requires Valid() && buf != disk.image && buf as object != fat && buf as object != table
      requires ReachesEof(fat[..], first, CLUSTER_MAP_SIZE)
      requires CLUSTER_SIZE * |ToEof(fat[..], first, CLUSTER_MAP_SIZE)| <= buf.Length
      modifies buf
      ensures View() == old(View())
      ensures var cs := ToEof(fat[..], first, CLUSTER_MAP_SIZE);
        forall k :: 0 <= k < |cs| ==> buf[CLUSTER_SIZE * k..CLUSTER_SIZE * (k + 1)] == View()[cs[k]]
    {
      hide ToEof, ReachesEof;
      ghost var f := fat[..];
      ghost var cs := ToEof(f, first, CLUSTER_MAP_SIZE);
      ghost var img := View();
      var counter: nat, cluster: nat := 0, first;
      ghost var fuel: nat := CLUSTER_MAP_SIZE;
      while cluster != END_OF_FILE
        invariant ReachesEof(f, cluster, fuel) && fat[..] == f
        invariant counter <= |cs| && ToEof(f, cluster, fuel) == cs[counter..]
        invariant forall k :: 0 <= k < counter ==> buf[CLUSTER_SIZE * k..CLUSTER_SIZE * (k + 1)] == img[cs[k]]
        invariant View() == img
        decreases fuel
      {
        ToEofStep(f, cluster, fuel);
        assert cs[counter] == cs[counter..][0] == cluster;
        ghost var done := buf[..];
        disk.ReadCluster(buf, CLUSTER_SIZE * counter, cluster);
        forall k | 0 <= k < counter
          ensures buf[CLUSTER_SIZE * k..CLUSTER_SIZE * (k + 1)] == img[cs[k]]
        {
          assert buf[CLUSTER_SIZE * k..CLUSTER_SIZE * (k + 1)] == done[CLUSTER_SIZE * k..CLUSTER_SIZE * (k + 1)];
        }
        assert cs[counter + 1..] == cs[counter..][1..];
        cluster := fat[cluster];
        counter := counter + 1;
        fuel := fuel - 1;
      }
      ToEofEnd(f, fuel);
    }

    /** Reads a file into `buf`.  The source compares the size with the caller's `buffer_size`, here
        `req.size`, and then transfers whole clusters. */
    method Read(req: Request, buf: array<u8>) returns (code: int)
      requires Valid() && ReadSafe(View(), req)
      requires buf != disk.image && buf as object != fat && buf as object != table
      requires CLUSTER_SIZE * |ReadOp(View(), req).blocks| <= buf.Length
      modifies fat, table, buf
      ensures View() == old(View())
      ensures code == ReadOp(old(View()), req).code
      ensures forall k :: 0 <= k < |ReadOp(old(View()), req).blocks| ==>
        buf[CLUSTER_SIZE * k..CLUSTER_SIZE * (k + 1)] == ReadOp(old(View()), req).blocks[k]
      ensures fat[..] == if Live(DecodeTable(View()[req.parent])[0]) then DecodeFat(View()[FAT_CLUSTER]) else old(fat[..])
    {
      hide ReadOp, ReadSafe, DecodeTable, DecodeFat, KeySlot, First;
      ReadCases(View(), req);
      LoadTable(req.parent);
      if table[0].userAttribute != UATTR_NOT_EMPTY { return -1; }
      LoadFat();
      ghost var t := table[..];
      for i := 0 to TABLE_SLOTS
        invariant t == table[..] && KeySlot(t, req.name, req.ext, 0) == KeySlot(t, req.name, req.ext, i)
        invariant View() == old(View()) && fat[..] == DecodeFat(View()[FAT_CLUSTER])
      {
        KeySlotStep(t, req.name, req.ext, i);
        if table[i].name == req.name && table[i].ext == req.ext {
          if table[i].attribute == ATTR_SUBDIRECTORY { return 1; }
          if table[i].filesize > req.size { return -1; }
          FollowChain(First(table[i]), buf);
          return 0;
        }
      }
      return 2;
    }

    // ---------- write ----------

    /** One pass over the cached FAT: collects free clusters after the `available` already found and stops
        as soon as enough are there. */
    method CollectFree(found: array<nat>, available: nat) returns (now: nat)
      requires Valid() && available < found.Length
      requires found as object != fat && found as object != disk.image && found as object != table
      modifies found
      ensures now <= found.Length
      ensures found[..now] == TakeFree(FreeList(fat[..]), old(found[..available]), found.Length)
    {
      hide FreeFrom, FreeList, TakeFree;
      ghost var got := found[..available];
      ghost var f := fat[..];
      ghost var free := FreeList(f);
      now := available;
      ghost var taken: nat := 0;
      FreeStart(f);
      for j := 3 to CLUSTER_MAP_SIZE
        invariant now < found.Length && taken <= |free| && now == available + taken
        invariant found[..now] == got + free[..taken]
        invariant free[taken..] == FreeFrom(f, j) && fat[..] == f
      {
        FreeStep(f, j);
        if fat[j] == EMPTY_ENTRY {
          assert |free[taken..]| > 0 && taken < |free|;
          TakeOne(free, taken);
          ghost var before := found[..now];
          found[now] := j;
          now := now + 1;
          taken := taken + 1;
          assert found[..now] == before + [j];
          assert before + [j] == got + free[..taken];
        }
        if now == found.Length {
          TakenAll(free, got, found.Length, taken);
          return;
        }
      }
      FreeEnd(f);
      TakenAll(free, got, found.Length, taken);
    }

    /** The search loop of `write`: looks for a key that is already taken, and at each empty slot for free
        clusters, until `found` is full. */
    method FindSlot(req: Request, found: array<nat>) returns (duplicate: bool, slot: int)
      requires Valid() && found.Length > 0
      requires found as object != fat && found as object != disk.image && found as object != table
      modifies found
      ensures duplicate == Duplicate(table[..], req.name, req.ext)
      ensures var a := ScanTo(table[..], FreeList(fat[..]), found.Length, TABLE_SLOTS);
        !duplicate ==> slot == a.slot && found[..|a.clusters|] == a.clusters
    {
      hide FreeFrom;
      ghost var t := table[..];
      ghost var f := fat[..];
      ghost var free := FreeList(f);
      slot := -1;
      var available: nat := 0;
      for i := 2 to TABLE_SLOTS
        invariant table[..] == t && fat[..] == f && available <= found.Length
        invariant ScanTo(t, free, found.Length, i) == Alloc(slot, found[..available])
        invariant forall s :: 2 <= s < i ==> !(Live(t[s]) && SameKey(t[s], req.name, req.ext))
      {
        if table[i].userAttribute != UATTR_NOT_EMPTY && available != found.Length {
          available := CollectFree(found, available);
          if available == found.Length { slot := i; }
        }
        if table[i].userAttribute == UATTR_NOT_EMPTY && table[i].name == req.name && table[i].ext == req.ext {
          return true, slot;
        }
      }
      duplicate := false;
    }

    /** The file branch of `write`: each data cluster is written, then linked in the cached FAT. */
    method StoreFile(data: Bytes, cs: array<nat>)
      requires Valid() && cs as object != fat && cs as object != disk.image
      requires Mapped(cs[..]) && CLUSTER_SIZE * cs.Length <= |data|
      modifies fat, disk`journal, disk.image
      ensures View() == Apply(old(View()), FileWrites(data, cs[..])) && disk.journal == old(disk.journal) + FileWrites(data, cs[..])
      ensures fat[..] == Link(old(fat[..]), cs[..], cs.Length)
    {
      hide Block, Link, Apply;
      ghost var c := cs[..];
      ghost var t := FileWrites(data, c);
      ghost var img, f, j := View(), fat[..], disk.journal;
      assert t[..0] == [];
      NoWrites(img);
      LinkNone(f, c);
      for k := 0 to cs.Length
        invariant cs[..] == c && View() == Apply(img, t[..k]) && disk.journal == j + t[..k]
        invariant fat[..] == Link(f, c, k)
      {
        assert cs[k] == c[k] && 3 <= c[k] < CLUSTER_MAP_SIZE;
        LinkStep(f, c, k);
        disk.WriteCluster(Block(data, k), cs[k]);
        ApplyNext(img, t, k);
        fat[cs[k]] := if k != cs.Length - 1 then cs[k + 1] else END_OF_FILE;
      }
      assert t[..|c|] == t;
    }

    /** The directory branch of `write`: the new table is initialised over whatever the stack held. */
    method StoreDirectory(req: Request, garbage: Table, cs: array<nat>)
      requires Valid() && cs as object != fat && cs as object != disk.image && cs.Length == 1 && Mapped(cs[..])
      requires req.parent < DISK_CLUSTERS
      modifies fat, disk`journal, disk.image
      ensures var t := [ClusterWrite(cs[..][0], EncodeTable(InitTable(garbage, req.name, req.parent)))];
        View() == Apply(old(View()), t) && disk.journal == old(disk.journal) + t
      ensures fat[..] == Link(old(fat[..]), cs[..], 1)
    {
      hide EncodeTable, InitTable;
      ghost var img, f := View(), fat[..];
      assert cs[..][0] == cs[0];
      var newTable := new Entry[TABLE_SLOTS](i requires 0 <= i < TABLE_SLOTS => garbage[i]);
      assert newTable[..] == garbage;
      InitDirectoryTable(newTable, req.name, req.parent);
      fat[cs[0]] := END_OF_FILE;
      assert fat[..] == Link(f, cs[..], 1);
      var bytes := EncodeTable(newTable[..]);
      disk.WriteCluster(bytes, cs[0]);
      ghost var t := [ClusterWrite(cs[0], bytes)];
      assert t[..0] == [] && t[..1] == t;
      ApplyNext(img, t, 0);
    }

    /** Fills in the new entry field by field; fields the source does not set keep their old values. */
    method CreateEntry(req: Request, slot: int, first: nat)
      requires Valid() && Slot(slot)
      modifies table
      ensures table[..] == old(table[..])[slot := NewEntry(old(table[slot]), req, first)]
      ensures View() == old(View()) && fat[..] == old(fat[..])
    {
      table[slot] := table[slot].(userAttribute := UATTR_NOT_EMPTY);
      table[slot] := table[slot].(clusterHigh := first / 0x1_0000 % 0x1_0000);
      table[slot] := table[slot].(clusterLow := first % 0x1_0000);
      table[slot] := table[slot].(name := req.name);
      if req.size == 0 {
        table[slot] := table[slot].(attribute := ATTR_SUBDIRECTORY);
      } else {
        table[slot] := table[slot].(attribute := 0);
        table[slot] := table[slot].(ext := req.ext);
        table[slot] := table[slot].(filesize := req.size);
        table[slot] := table[slot].(userAttribute := UATTR_NOT_EMPTY);
      }
      assert disk.image[..] == old(disk.image[..]);
    }

    /** The rest of `write` once a slot and clusters are chosen: data, then the FAT, then the parent's table. */
    method Accept(req: Request, data: Bytes, garbage: Table, slot: int, clusters: array<nat>)
      requires Valid() && Buffered(req, data) && Slot(slot) && clusters.Length == Required(req.size) && Mapped(clusters[..])
      requires clusters as object != fat && clusters as object != disk.image && clusters as object != table
      modifies fat, table, disk`journal, disk.image
      ensures fat[..] == Link(old(fat[..]), clusters[..], clusters.Length)
      ensures var t := WriteTrace(old(table[..]), old(fat[..]), req, data, garbage, Alloc(slot, clusters[..]));
        View() == Apply(old(View()), t) && disk.journal == old(disk.journal) + t
    {
      hide EncodeTable, EncodeFat, InitTable, FileWrites, DataWrites, WriteTrace, Link, NewEntry, Required, Apply;
      ghost var img, j := View(), disk.journal;
      ghost var cs := clusters[..];
      DataWritesAre(req, data, garbage, cs);
      TraceParts(table[..], fat[..], req, data, garbage, Alloc(slot, cs));
      CreateEntry(req, slot, clusters[0]);
      if req.size == 0 { StoreDirectory(req, garbage, clusters); } else { StoreFile(data, clusters); }
      ghost var dw := DataWrites(req, data, garbage, cs);
      assert View() == Apply(img, dw) && disk.journal == j + dw;
      ghost var u, f := table[..], fat[..];
      disk.WriteCluster(EncodeFat(fat[..]), FAT_CLUSTER);
      ghost var w := ClusterWrite(FAT_CLUSTER, EncodeFat(f));
      ApplyMore(img, dw, w);
      disk.WriteCluster(EncodeTable(table[..]), req.parent);
      ApplyMore(img, dw + [w], ClusterWrite(req.parent, EncodeTable(u)));
    }

    /** Creates a file, or a directory when the size is 0. */
    method Write(req: Request, data: Bytes, garbage: Table) returns (code: int)
      requires Valid() && Buffered(req, data)
      modifies fat, table, disk`journal, disk.image
      ensures var o := WriteOp(old(View()), req, data, garbage);
        && code == o.code && fat[..] == o.cache
        && View() == Apply(old(View()), o.trace) && disk.journal == old(disk.journal) + o.trace
    {
      hide EncodeTable, EncodeFat, DecodeTable, DecodeFat, InitTable, WriteTrace, Link, NewEntry, FreeFrom, Duplicate, ScanTo, Required;
      LoadTable(req.parent);
      LoadFat();
      ghost var t, f := table[..], fat[..];
      if table[0].userAttribute != UATTR_NOT_EMPTY || table[0].attribute != ATTR_SUBDIRECTORY { return 2; }
      var required := Required(req.size);
      var clusters := new nat[required](_ => 0);
      var duplicate, slot := FindSlot(req, clusters);
      if duplicate { return 1; }
      if slot == -1 { return -1; }
      ghost var a := Allocate(t, f, req.size);
      assert clusters[..|a.clusters|] == clusters[..];
      Accept(req, data, garbage, slot, clusters);
      code := 0;
    }

    // ---------- delete ----------

    /** Collects the chain first and only then clears it, both in 16-bit arithmetic. */
    method FreeChain(first: u16, count: u16)
      requires Valid() && |Chain(Low(fat[..]), first, count)| == count
      requires forall k :: 0 <= k < count ==> Chain(Low(fat[..]), first, count)[k] < CLUSTER_MAP_SIZE
      modifies fat
      ensures fat[..] == Erase(old(fat[..]), Chain(Low(old(fat[..])), first, count), count)
      ensures View() == old(View()) && table[..] == old(table[..])
    {
      hide Chain, Low, Erase;
      ghost var f := fat[..];
      ghost var r: seq<nat> := Chain(Low(f), first, count);
      var toZeros := new u16[count](_ => 0);
      var current: u16 := first;
      for i := 0 to count
        invariant fat[..] == f && forall k :: 0 <= k < i ==> toZeros[k] == r[k]
        invariant i < count ==> r[i..] == Chain(Low(f), current, count - i)
      {
        ChainHead(Low(f), current, count - i);
        assert r[i] == r[i..][0] == current;
        ChainStep(f, current, count - i, r[i..]);
        toZeros[i] := current;
        assert r[i + 1..] == r[i..][1..];
        current := fat[current] % 0x1_0000;
      }
      EraseStart(f, r);
      for i := 0 to count
        invariant fat[..] == Erase(f, r, i)
        invariant forall k :: 0 <= k < count ==> toZeros[k] == r[k]
      {
        EraseStep(f, r, i);
        fat[toZeros[i]] := EMPTY_ENTRY;
      }
      assert disk.image[..] == old(disk.image[..]);
    }

    /** The file branch of `delete`: the cleared entry is written first, then the chain is freed and the FAT
        written. */
    method RemoveFile(req: Request, slot: nat)
      requires Valid() && req.parent < DISK_CLUSTERS && slot < TABLE_SLOTS
      requires |Doomed(fat[..], table[slot])| == DeleteCount(table[slot])
      requires forall k :: 0 <= k < |Doomed(fat[..], table[slot])| ==> Doomed(fat[..], table[slot])[k] < CLUSTER_MAP_SIZE
      modifies fat, table, disk`journal, disk.image
      ensures var e := old(table[slot]);
        var f := Erase(old(fat[..]), Doomed(old(fat[..]), e), DeleteCount(e));
        var t := [ClusterWrite(req.parent, EncodeTable(old(table[..])[slot := Cleared(e)])), ClusterWrite(FAT_CLUSTER, EncodeFat(f))];
        fat[..] == f && View() == Apply(old(View()), t) && disk.journal == old(disk.journal) + t
    {
      hide EncodeTable, EncodeFat, Erase, Chain;
      ghost var img, e, u := View(), table[slot], table[..];
      table[slot] := table[slot].(userAttribute := 0);
      table[slot] := table[slot].(undelete := 1);
      assert table[..] == u[slot := Cleared(e)];
      ghost var w := ClusterWrite(req.parent, EncodeTable(table[..]));
      disk.WriteCluster(EncodeTable(table[..]), req.parent);
      FreeChain(table[slot].clusterLow, DeleteCount(table[slot]));
      ghost var x := ClusterWrite(FAT_CLUSTER, EncodeFat(fat[..]));
      disk.WriteCluster(EncodeFat(fat[..]), FAT_CLUSTER);
      NoWrites(img);
      ApplyMore(img, [], w);
      ApplyMore(img, [w], x);
      assert [] + [w] == [w] && [w] + [x] == [w, x];
    }

    /** Deletes a file.  The branch for directories is not part of this model: the method stops where it
        would begin, with nothing changed. */
    method Delete(req: Request) returns (code: int)
      requires Valid() && DeleteSafe(View(), fat[..], req)
      modifies fat, table, disk`journal, disk.image
      ensures var o := DeleteOp(old(View()), old(fat[..]), req);
        && code == o.code && fat[..] == o.cache
        && View() == Apply(old(View()), o.trace) && disk.journal == old(disk.journal) + o.trace
    {
      hide EncodeTable, EncodeFat, DecodeTable, DecodeFat, Erase, Doomed, Apply, DeleteCount;
      ghost var img, f, j := View(), fat[..], disk.journal;
      LoadTable(req.parent);
      ghost var t := table[..];
      NoWrites(img);
      for i := 1 to TABLE_SLOTS
        invariant table[..] == t && fat[..] == f && View() == img && disk.journal == j
        invariant DeleteSlot(t, req.name, req.ext, 1) == DeleteSlot(t, req.name, req.ext, i)
      {
        if table[i].userAttribute == UATTR_NOT_EMPTY {
          if req.name == table[i].name {
            if table[i].attribute == ATTR_SUBDIRECTORY { return DIRECTORY_BRANCH; }
            if table[i].ext == req.ext {
              RemoveFile(req, i);
              return 0;
            }
          }
        }
      }
      code := 1;
    }
  }
}
