/** The driver's answers and writes on any disk, sound or not, said about the bytes of its clusters. */
module FatBytes {
  import opened Words
  import opened FatLayout
  import opened FatShape
  import opened FatOps
  import opened FatTree
  import opened FatAtomic
  import opened FatLimits
  import opened FatRuns
  import opened FatHiding

  // ---------- where the fields lie ----------

  /** The packed directory entry, byte by byte. */
  lemma EntryOffsets(e: Entry)
    ensures var b := EncodeEntry(e);
      && b[0..8] == e.name && b[8..11] == e.ext && b[11] == e.attribute && b[12] == e.userAttribute && b[13] == e.undelete
      && b[14..16] == [e.createTime % 256, e.createTime / 256] && b[16..18] == [e.createDate % 256, e.createDate / 256]
      && b[18..20] == [e.accessDate % 256, e.accessDate / 256] && b[20..22] == [e.clusterHigh % 256, e.clusterHigh / 256]
      && b[22..24] == [e.modifiedTime % 256, e.modifiedTime / 256] && b[24..26] == [e.modifiedDate % 256, e.modifiedDate / 256]
      && b[26..28] == [e.clusterLow % 256, e.clusterLow / 256]
      && b[28..32] == [e.filesize % 256, e.filesize / 256 % 256, e.filesize / 65536 % 256, e.filesize / 16777216]
  {}

  lemma LowBytes(b: u8, c: u8)
    ensures Le16(FromLe16(b, c)) == [b, c]
  {
    assert (b + 0x100 * c) % 0x100 == b && (b + 0x100 * c) / 0x100 == c;
  }

  lemma Split256(x: nat, q: nat, r: nat)
    requires x == 0x100 * q + r && r < 0x100
    ensures x / 0x100 == q && x % 0x100 == r
  {}

  lemma Split65536(x: nat, q: nat, r: nat)
    requires x == 0x1_0000 * q + r && r < 0x1_0000
    ensures x / 0x1_0000 == q
  {}

  lemma Split16777216(x: nat, q: nat, r: nat)
    requires x == 0x100_0000 * q + r && r < 0x100_0000
    ensures x / 0x100_0000 == q
  {}

  lemma WordBytes(b: u8, c: u8, d: u8, e: u8)
    ensures Le32(FromLe32(b, c, d, e)) == [b, c, d, e]
  {
    var x: nat := FromLe32(b, c, d, e);
    var x1: nat, x2: nat := c + 0x100 * d + 0x1_0000 * e, d + 0x100 * e;
    Split256(x, x1, b);
    Split65536(x, x2, b + 0x100 * c);
    Split16777216(x, e, b + 0x100 * c + 0x1_0000 * d);
    Split256(x1, x2, c);
    Split256(x2, e, d);
  }

  lemma EntryParts(e: Entry, b: Bytes)
    requires |b| == 32 && e.name == b[..8] && e.ext == b[8..11] && [e.attribute, e.userAttribute, e.undelete] == b[11..14]
    requires Le16(e.createTime) == b[14..16] && Le16(e.createDate) == b[16..18] && Le16(e.accessDate) == b[18..20]
    requires Le16(e.clusterHigh) == b[20..22] && Le16(e.modifiedTime) == b[22..24] && Le16(e.modifiedDate) == b[24..26]
    requires Le16(e.clusterLow) == b[26..28] && Le32(e.filesize) == b[28..32]
    ensures EncodeEntry(e) == b
  {
    hide Le16, Le32;
    assert b == b[..8] + b[8..11] + b[11..14] + b[14..16] + b[16..18] + b[18..20] + b[20..22]
      + b[22..24] + b[24..26] + b[26..28] + b[28..32];
  }

  /** Reading an entry's bytes and writing them back changes none of them. */
  lemma EntryBytesRoundTrip(b: Bytes)
    requires |b| == 32
    ensures EncodeEntry(DecodeEntry(b)) == b
  {
    LowBytes(b[14], b[15]);
    LowBytes(b[16], b[17]);
    LowBytes(b[18], b[19]);
    LowBytes(b[20], b[21]);
    LowBytes(b[22], b[23]);
    LowBytes(b[24], b[25]);
    LowBytes(b[26], b[27]);
    WordBytes(b[28], b[29], b[30], b[31]);
    hide Le16, Le32, FromLe16, FromLe32;
    EntryParts(DecodeEntry(b), b);
  }

  /** A cluster read as a table with one slot replaced and written back: only that slot's 32 bytes change. */
  lemma OneSlotWritten(c: Cluster, s: nat, e: Entry)
    requires s < TABLE_SLOTS
    ensures var b := EncodeTable(DecodeTable(c)[s := e]);
      && b[32 * s..32 * s + 32] == EncodeEntry(e)
      && forall i :: 0 <= i < CLUSTER_SIZE && !(32 * s <= i < 32 * s + 32) ==> b[i] == c[i]
  {
    hide EncodeEntry, DecodeEntry;
    var t := DecodeTable(c)[s := e];
    EncodedSlot(t, s);
    forall i | 0 <= i < CLUSTER_SIZE && !(32 * s <= i < 32 * s + 32)
      ensures EncodeTable(t)[i] == c[i]
    {
      var k := i / 32;
      EncodedSlot(t, k);
      EntryBytesRoundTrip(c[32 * k..32 * k + 32]);
      assert EncodeTable(t)[i] == EncodeTable(t)[32 * k..32 * k + 32][i % 32];
      assert c[i] == c[32 * k..32 * k + 32][i % 32];
    }
  }

  // ---------- write ----------

  /** The first entry of a parent's cluster is live and a directory: bytes 12 and 11. */
  predicate OpensAsDirectory(c: Cluster) { c[12] == 0xAA && c[11] == 0x10 }

  lemma FirstEntryOf(c: Cluster)
    ensures DecodeTable(c)[0].userAttribute == c[12] && DecodeTable(c)[0].attribute == c[11]
  {
    assert c[32 * 0..32 * 0 + 32][12] == c[12] && c[32 * 0..32 * 0 + 32][11] == c[11];
  }

  /** On any disk and for any parent: code 2 exactly when the parent's cluster does not open as a directory, and
      no refusal writes anything. */
  lemma WriteRefusesParentIff(img: Image, req: Request, data: Bytes, garbage: Table)
    requires Buffered(req, data)
    ensures var o := WriteOp(img, req, data, garbage);
      && (o.code == 2 <==> !OpensAsDirectory(img[req.parent]))
      && (o.code == 0 ==> OpensAsDirectory(img[req.parent]))
      && (o.code != 0 ==> o.trace == [] && Apply(img, o.trace) == img)
      && (o.code == 0 || o.code == 1 || o.code == 2 || o.code == -1)
  {
    hide Allocate, WriteTrace, DecodeTable, DecodeFat, Link, Duplicate;
    FirstEntryOf(img[req.parent]);
  }

  /** The instance: a freshly formatted disk refuses every parent above the root whose bytes do not happen to
      open as a directory, and stays as it is. */
  lemma FreshDiskRefusesParent(img: Image, was: Table, name: Name, req: Request, data: Bytes, garbage: Table)
    requires Buffered(req, data) && 3 <= req.parent && !OpensAsDirectory(img[req.parent])
    ensures var disk := Format(img, was, name); var o := WriteOp(disk, req, data, garbage);
      o.code == 2 && o.trace == [] && Apply(disk, o.trace) == disk
  {
    hide FsSignature, EncodeFat, EncodeTable, FormatFat, InitTable, WriteOp, Apply;
    WriteRefusesParentIff(Format(img, was, name), req, data, garbage);
  }

  lemma BlankDiskRefusesParent(was: Table, name: Name, key: Name, ext: Ext, data: Bytes, garbage: Table)
    requires |data| >= 2048
    ensures var disk := Format(BLANK_IMAGE, was, name); var req := Request(key, ext, 5, 2048);
      Buffered(req, data) && WriteOp(disk, req, data, garbage).code == 2 && WriteOp(disk, req, data, garbage).trace == []
  {
    hide Format, WriteOp;
    assert Required(2048) == 1;
    FreshDiskRefusesParent(BLANK_IMAGE, was, name, Request(key, ext, 5, 2048), data, garbage);
  }

  /** Empty slots among 2 to `i - 1`. */
  function EmptySlots(t: Table, i: nat): nat
    requires i <= 64
  {
    if i <= 2 then 0 else EmptySlots(t, i - 1) + if t[i - 1].userAttribute == 0xAA then 0 else 1
  }

  lemma Times(n: nat, a: nat, b: nat)
    requires a <= b
    ensures n * a <= n * b && n * (a + 1) == n * a + n
  {
    assert n * b - n * a == n * (b - a) >= 0;
  }

  lemma Wraps(n: nat, e: nat, j: nat)
    requires j < n
    ensures (n * e + j) % n == j
  {
    var q := (n * e + j) / n;
    assert n * e + j == n * q + (n * e + j) % n;
    if q < e { Times(n, q + 1, e); Times(n, q, e); }
    if e < q { Times(n, e + 1, q); Times(n, e, q); }
  }

  /** What one more pass over the free clusters gives. */
  lemma OnePass(free: seq<nat>, got: seq<nat>, need: nat, e: nat)
    requires |got| < need && |got| == |free| * e && forall k :: 0 <= k < |got| ==> got[k] == free[k % |free|]
    ensures var r := TakeFree(free, got, need);
      && |r| == (if |free| * (e + 1) < need then |free| * (e + 1) else need)
      && forall k :: 0 <= k < |r| ==> free != [] && r[k] == free[k % |free|]
  {
    var r, n := TakeFree(free, got, need), |free|;
    Times(n, e, e + 1);
    forall k | 0 <= k < |r|
      ensures free != [] && r[k] == free[k % n]
    {
      if k >= |got| { Wraps(n, e, k - |got|); }
    }
  }

  lemma {:induction false} ScanInPasses(t: Table, free: seq<nat>, need: nat, i: nat)
    requires 2 <= i <= 64 && need > 0
    ensures var a := ScanTo(t, free, need, i); var most := |free| * EmptySlots(t, i);
      && |a.clusters| == (if most < need then most else need)
      && (forall k :: 0 <= k < |a.clusters| ==> free != [] && a.clusters[k] == free[k % |free|])
      && (a.slot != -1 ==> |free| * EmptySlots(t, a.slot) < need <= |free| * (EmptySlots(t, a.slot) + 1))
  {
    if i > 2 {
      var b := ScanTo(t, free, need, i);
      ScanInPasses(t, free, need, i - 1);
      var a, e := ScanTo(t, free, need, i - 1), EmptySlots(t, i - 1);
      Times(|free|, e, e + 1);
      if Live(t[i - 1]) || |a.clusters| == need {
        assert b == a;
      } else {
        OnePass(free, a.clusters, need, e);
        assert b.clusters == TakeFree(free, a.clusters, need);
        assert b.slot != -1 ==> b.slot == i - 1;
      }
    }
  }

  /** What a write chooses, with any number of free clusters: it goes over the free clusters once for every empty
      slot, and the slot at which it has enough is the one it takes. */
  lemma ChoiceIsExact(t: Table, f: Fat, size: u32)
    ensures var a := Allocate(t, f, size); var free := FreeList(f); var need := if size == 0 then 1 else (size + 2047) / 2048;
      && (a.slot == -1 <==> |free| * EmptySlots(t, 64) < need)
      && (a.slot != -1 ==>
           && |a.clusters| == need && (forall k :: 0 <= k < need ==> free != [] && a.clusters[k] == free[k % |free|])
           && 2 <= a.slot < 64 && t[a.slot].userAttribute != 0xAA
           && |free| * EmptySlots(t, a.slot) < need <= |free| * (EmptySlots(t, a.slot) + 1))
  {
    ScanInPasses(t, FreeList(f), Required(size), 64);
  }

  /** The code of a write on any disk. */
  lemma WriteCodeOnAnyDisk(img: Image, req: Request, data: Bytes, garbage: Table)
    requires Buffered(req, data)
    ensures var t := DecodeTable(img[req.parent]); var need := if req.size == 0 then 1 else (req.size + 2047) / 2048;
      WriteOp(img, req, data, garbage).code ==
        if !OpensAsDirectory(img[req.parent]) then 2
        else if exists s :: 2 <= s < 64 && t[s].userAttribute == 0xAA && t[s].name == req.name && t[s].ext == req.ext then 1
        else if |FreeList(DecodeFat(img[1]))| * EmptySlots(t, 64) < need then -1
        else 0
  {
    hide Allocate, WriteTrace, DecodeTable, DecodeFat, Link, FreeList, EmptySlots;
    FirstEntryOf(img[req.parent]);
    ChoiceIsExact(DecodeTable(img[req.parent]), DecodeFat(img[1]), req.size);
  }

  /** The writes of an accepted call in order: the data clusters as chosen, each with its 2048 bytes of the
      buffer, then the FAT, then the parent. */
  lemma WriteOrder(img: Image, req: Request, data: Bytes, garbage: Table)
    requires Buffered(req, data) && WriteOp(img, req, data, garbage).code == 0
    ensures var t := WriteOp(img, req, data, garbage).trace; var n := |Chosen(img, req).clusters|;
      && |t| == n + 2 && t[n] == ClusterWrite(1, EncodeFat(WriteOp(img, req, data, garbage).cache)) && t[n + 1].cluster == req.parent
      && (forall k :: 0 <= k < n ==> t[k].cluster == Chosen(img, req).clusters[k])
      && (req.size > 0 ==> forall k, i :: 0 <= k < n && 0 <= i < 2048 ==> t[k].bytes[i] == data[2048 * k + i])
  {
    hide EncodeFat, EncodeTable, DecodeFat, DecodeTable, NewEntry, Allocate, Link, Required;
    var cs := Chosen(img, req).clusters;
    var dw := DataWrites(req, data, garbage, cs);
    var t := WriteOp(img, req, data, garbage).trace;
    forall k | 0 <= k < |cs|
      ensures t[k] == dw[k] && (req.size > 0 ==> forall i :: 0 <= i < 2048 ==> t[k].bytes[i] == data[2048 * k + i])
    {}
  }

  /** The bytes of the new entry: the name, in use, the kind, and the first cluster; extension and size only for a
      file; every other byte of the entry as it was. */
  predicate EntryWritten(b: Bytes, was: Bytes, req: Request, first: nat)
    requires |b| == |was| == 32
  {
    && b[0..8] == req.name && b[12] == 0xAA && b[11] == (if req.size == 0 then 0x10 else 0)
    && b[20] == 0 && b[21] == 0 && b[26] == first % 256 && b[27] == first / 256
    && b[8..11] == (if req.size == 0 then was[8..11] else req.ext)
    && b[28..32] == (if req.size == 0 then was[28..32]
                     else [req.size % 256, req.size / 256 % 256, req.size / 65536 % 256, req.size / 16777216])
    && b[13..20] == was[13..20] && b[22..26] == was[22..26]
  }

  /** Bytes an entry keeps when some of its fields keep their values. */
  lemma KeptBytes(e: Entry, d: Entry)
    requires e.undelete == d.undelete && e.createTime == d.createTime && e.createDate == d.createDate && e.accessDate == d.accessDate
    requires e.modifiedTime == d.modifiedTime && e.modifiedDate == d.modifiedDate
    ensures EncodeEntry(e)[13..20] == EncodeEntry(d)[13..20] && EncodeEntry(e)[22..26] == EncodeEntry(d)[22..26]
    ensures e.ext == d.ext ==> EncodeEntry(e)[8..11] == EncodeEntry(d)[8..11]
    ensures e.filesize == d.filesize ==> EncodeEntry(e)[28..32] == EncodeEntry(d)[28..32]
  {}

  lemma NewEntryOver(d: Entry, req: Request, first: nat)
    requires first < 0x1_0000
    ensures EntryWritten(EncodeEntry(NewEntry(d, req, first)), EncodeEntry(d), req, first)
  {
    var e := NewEntry(d, req, first);
    EntryOffsets(e);
    KeptBytes(e, d);
    assert e.clusterHigh == 0 && e.clusterLow == first;
    hide EncodeEntry, NewEntry;
    var b := EncodeEntry(e);
    assert b[20] == b[20..22][0] && b[21] == b[20..22][1];
    assert b[26] == b[26..28][0] && b[27] == b[26..28][1];
  }

  lemma NewEntryBytes(was: Bytes, req: Request, first: nat)
    requires |was| == 32 && first < 0x1_0000
    ensures EntryWritten(EncodeEntry(NewEntry(DecodeEntry(was), req, first)), was, req, first)
  {
    EntryBytesRoundTrip(was);
    NewEntryOver(DecodeEntry(was), req, first);
  }

  /** The parent's cluster after an accepted write: only the chosen slot's entry changes. */
  lemma ParentAfterWrite(img: Image, req: Request, data: Bytes, garbage: Table)
    requires Buffered(req, data) && WriteOp(img, req, data, garbage).code == 0
    ensures var t := WriteOp(img, req, data, garbage).trace; var a := Chosen(img, req); var b := t[|t| - 1].bytes; var c := img[req.parent];
      && |t| > 0 && Slot(a.slot) && |a.clusters| > 0
      && EntryWritten(b[32 * a.slot..32 * a.slot + 32], c[32 * a.slot..32 * a.slot + 32], req, a.clusters[0])
      && forall i :: 0 <= i < CLUSTER_SIZE && !(32 * a.slot <= i < 32 * a.slot + 32) ==> b[i] == c[i]
  {
    hide EncodeFat, EncodeTable, DecodeFat, EncodeEntry, DecodeEntry, NewEntry, Allocate, Link, Required, EntryWritten, DataWrites;
    var a, c := Chosen(img, req), img[req.parent];
    var was := c[32 * a.slot..32 * a.slot + 32];
    assert DecodeTable(c)[a.slot] == DecodeEntry(was);
    NewEntryBytes(was, req, a.clusters[0]);
    OneSlotWritten(c, a.slot, NewEntry(DecodeEntry(was), req, a.clusters[0]));
  }

  /** Byte `i` of the file is byte `i` of the buffer, in its place among the clusters. */
  lemma BlocksAreData(req: Request, data: Bytes, i: nat)
    requires Buffered(req, data) && 0 < req.size && i < 2048 * Required(req.size)
    ensures var f := Requested(req, data);
      f.File? && |f.blocks| == Required(req.size) && f.name == req.name && f.ext == req.ext && f.size == req.size
      && f.blocks[i / 2048][i % 2048] == data[i]
  {
    hide Required;
  }

  /** A file written in any good state, when its key is not shadowed, reads back byte for byte. */
  lemma BytesReadBack(st: State, sh: Shape, req: Request, data: Bytes, garbage: Table, i: nat)
    requires Good(st, sh) && Allowed(st, Write(req, data, garbage)) && 0 < req.size && WriteOp(st.img, req, data, garbage).code == 0
    requires req.parent < CLUSTER_MAP_SIZE && i < 2048 * Required(req.size)
    requires var t := Mount(st.img).tables[req.parent]; !SameKey(t[0], req.name, req.ext) && !SameKey(t[1], req.name, req.ext)
    ensures var img' := Step(st, Do(Write(req, data, garbage))).img;
      ReadSafe(img', req) && var r := ReadOp(img', req);
      r.code == 0 && |r.blocks| == Required(req.size) && r.blocks[i / 2048][i % 2048] == data[i]
  {
    hide WriteOp, Sound, Mount, AllowedWrite, Good, Required, Requested, ReadOp, ReadSafe, Step;
    WriteThenRead(st, sh, req, data, garbage);
    BlocksAreData(req, data, i);
  }

  // ---------- read and delete ----------

  predicate FirstWithKey(t: Table, s: nat, req: Request)
    requires s < 64
  {
    t[s].name == req.name && t[s].ext == req.ext && forall k :: 0 <= k < s ==> !(t[k].name == req.name && t[k].ext == req.ext)
  }

  /** The code of a read on any disk: -1 for a parent whose first entry is dead; else 2 if no slot carries the key;
      else the first slot that does decides: 1 for a directory, -1 for a file larger than the buffer, 0 otherwise. */
  lemma ReadCodeIsExact(img: Image, req: Request)
    requires ReadSafe(img, req)
    ensures req.parent < DISK_CLUSTERS
    ensures var t := DecodeTable(img[req.parent]); var code := ReadOp(img, req).code;
      && (img[req.parent][12] != 0xAA ==> ReadOp(img, req) == ReadOutcome(-1, []))
      && (img[req.parent][12] == 0xAA ==>
           && (code == 2 <==> forall s :: 0 <= s < 64 ==> !(t[s].name == req.name && t[s].ext == req.ext))
           && forall s :: 0 <= s < 64 && FirstWithKey(t, s, req) ==>
                code == if t[s].attribute == 0x10 then 1 else if t[s].filesize > req.size then -1 else 0)
  {
    hide DecodeTable, DecodeFat, KeySlot, First, ReachesEof, ToEof;
    FirstEntryOf(img[req.parent]);
    var t := DecodeTable(img[req.parent]);
    var n := KeySlot(t, req.name, req.ext, 0);
    forall s | 0 <= s < 64 && FirstWithKey(t, s, req)
      ensures n == s
    {
      assert SameKey(t[s], req.name, req.ext);
    }
  }

  /** A live directory of the name, or a live file of the name and extension. */
  predicate Stops(e: Entry, req: Request) {
    e.userAttribute == 0xAA && e.name == req.name && (e.attribute == 0x10 || e.ext == req.ext)
  }

  lemma FirstStop(t: Table, req: Request, s: nat)
    requires 1 <= s < 64 && Stops(t[s], req) && forall k :: 1 <= k < s ==> !Stops(t[k], req)
    ensures DeleteSlot(t, req.name, req.ext, 1) == s
  {
    forall k | 1 <= k <= s
      ensures Stops(t[k], req) <==> DeleteStops(t[k], req.name, req.ext)
    {}
  }

  lemma ClearedEntryBytes(was: Bytes)
    requires |was| == 32
    ensures EncodeEntry(Cleared(DecodeEntry(was))) == was[12 := 0][13 := 1]
  {
    var e := Cleared(DecodeEntry(was));
    EntryBytesRoundTrip(was);
    hide Le16, Le32, FromLe16, FromLe32;
    var b := EncodeEntry(e);
    assert b[..11] == was[..11] && b[14..] == was[14..];
  }

  lemma ClearedBytes(c: Cluster, s: nat)
    requires s < 64
    ensures EncodeTable(DecodeTable(c)[s := Cleared(DecodeTable(c)[s])]) == c[32 * s + 12 := 0][32 * s + 13 := 1]
  {
    hide EncodeTable, EncodeEntry, DecodeEntry;
    var was := c[32 * s..32 * s + 32];
    var e := Cleared(DecodeEntry(was));
    assert DecodeTable(c)[s] == DecodeEntry(was);
    var b, d := EncodeTable(DecodeTable(c)[s := e]), c[32 * s + 12 := 0][32 * s + 13 := 1];
    OneSlotWritten(c, s, e);
    ClearedEntryBytes(was);
    forall i | 0 <= i < CLUSTER_SIZE
      ensures b[i] == d[i]
    {
      if 32 * s <= i < 32 * s + 32 {
        assert b[i] == b[32 * s..32 * s + 32][i - 32 * s];
      }
    }
  }

  /** A delete on any disk: not found exactly when no slot from 1 on stops it; a file is removed by changing two
      bytes of the parent's cluster, its in-use mark and its undelete mark, and then writing the FAT. */
  lemma DeleteOnAnyDisk(img: Image, cache: Fat, req: Request)
    requires DeleteSafe(img, cache, req)
    ensures req.parent < DISK_CLUSTERS
    ensures var t := DecodeTable(img[req.parent]); var o := DeleteOp(img, cache, req);
      && (o.code == 1 <==> forall s :: 1 <= s < 64 ==> !Stops(t[s], req))
      && (o.code != 0 ==> o.trace == [] && o.cache == cache)
      && forall s :: 1 <= s < 64 && Stops(t[s], req) && t[s].attribute != 0x10 && (forall k :: 1 <= k < s ==> !Stops(t[k], req)) ==>
           && o.code == 0 && |o.trace| == 2 && o.trace[1].cluster == 1 && o.trace[0].cluster == req.parent
           && o.trace[0].bytes == img[req.parent][32 * s + 12 := 0][32 * s + 13 := 1]
  {
    hide DecodeTable, EncodeTable, EncodeFat, Erase, Doomed, DeleteCount, DeleteSlot, Cleared;
    var t := DecodeTable(img[req.parent]);
    var n := DeleteSlot(t, req.name, req.ext, 1);
    forall s | 1 <= s < 64 && Stops(t[s], req) && (forall k :: 1 <= k < s ==> !Stops(t[k], req))
      ensures n == s
    {
      FirstStop(t, req, s);
    }
    if n < 64 { ClearedBytes(img[req.parent], n); }
  }

  /** The clusters a delete frees in the FAT `f`: as many as the size demands, from the entry's low word on, each
      link cut to 16 bits. */
  predicate Followed(f: Fat, e: Entry, r: seq<nat>) {
    && |r| == (if e.filesize % 2048 == 0 then e.filesize / 2048 else e.filesize / 2048 + 1) % 65536
    && (forall k :: 0 <= k < |r| ==> r[k] < 512)
    && (r != [] ==> r[0] == e.clusterLow)
    && forall k :: 0 <= k < |r| - 1 ==> r[k + 1] == f[r[k]] % 65536
  }

  lemma {:induction false} FollowedChain(f: Fat, r: seq<nat>)
    requires r != [] && (forall k :: 0 <= k < |r| ==> r[k] < 512) && forall k :: 0 <= k < |r| - 1 ==> r[k + 1] == f[r[k]] % 65536
    ensures Chain(Low(f), r[0], |r|) == r
    decreases |r|
  {
    var rest := r[1..];
    if rest != [] {
      assert forall k :: 0 <= k < |rest| ==> rest[k] == r[k + 1];
      FollowedChain(f, rest);
      assert r == [r[0]] + rest;
    } else {
      assert r == [r[0]];
    }
  }

  lemma NoChain(f: Fat, c: nat)
    ensures Chain(f, c, 0) == []
  {}

  /** On any disk: the FAT that a delete leaves, in memory and on disk, has exactly those cells cleared. */
  lemma DeleteFreesLinks(img: Image, cache: Fat, req: Request, s: nat, r: seq<nat>)
    requires req.parent < DISK_CLUSTERS && 1 <= s < 64
    requires var t := DecodeTable(img[req.parent]);
      Stops(t[s], req) && t[s].attribute != 0x10 && (forall k :: 1 <= k < s ==> !Stops(t[k], req)) && Followed(cache, t[s], r)
    ensures DeleteSafe(img, cache, req)
    ensures var o := DeleteOp(img, cache, req);
      && (forall c :: 0 <= c < 512 ==> o.cache[c] == if c in r then 0 else cache[c])
      && |o.trace| == 2 && o.trace[1] == ClusterWrite(1, EncodeFat(o.cache))
  {
    hide DecodeTable, EncodeTable, EncodeFat, Erase, Chain, Low, Cleared, DeleteSlot;
    var t := DecodeTable(img[req.parent]);
    var n := DeleteSlot(t, req.name, req.ext, 1);
    FirstStop(t, req, s);
    if r == [] {
      NoChain(Low(cache), t[s].clusterLow);
    } else {
      FollowedChain(cache, r);
    }
    assert Doomed(cache, t[s]) == r;
    EraseValues(cache, r, |r|);
    assert r[..|r|] == r;
  }

  /** The clusters from `c` on, each the link of the one before, up to one whose link is the end mark. */
  predicate LinkedToEnd(f: Fat, c: nat, r: seq<nat>) {
    && 0 < |r| <= 512 && r[0] == c && (forall k :: 0 <= k < |r| ==> r[k] < 512)
    && (forall k :: 0 <= k < |r| - 1 ==> f[r[k]] == r[k + 1]) && f[r[|r| - 1]] == 0x0FFF_FFFF
  }

  lemma EofStep(f: Fat, c: nat, n: nat)
    requires c < 512 && n > 0
    ensures ReachesEof(f, c, n) == ReachesEof(f, f[c], n - 1) && ToEof(f, c, n) == [c] + ToEof(f, f[c], n - 1)
  {}

  lemma EofEnd(f: Fat, n: nat)
    ensures ReachesEof(f, 0x0FFF_FFFF, n) && ToEof(f, 0x0FFF_FFFF, n) == []
  {}

  lemma LinkedRest(f: Fat, c: nat, r: seq<nat>)
    requires LinkedToEnd(f, c, r) && |r| > 1
    ensures c < 512 && LinkedToEnd(f, f[c], r[1..])
  {}

  lemma {:induction false} LinkedReaches(f: Fat, c: nat, r: seq<nat>, n: nat)
    requires LinkedToEnd(f, c, r) && |r| <= n
    ensures ReachesEof(f, c, n) && ToEof(f, c, n) == r
    decreases |r|
  {
    hide ReachesEof, ToEof;
    EofStep(f, c, n);
    assert r == [c] + r[1..];
    if |r| == 1 {
      EofEnd(f, n - 1);
    } else {
      LinkedRest(f, c, r);
      hide LinkedToEnd;
      LinkedReaches(f, f[c], r[1..], n - 1);
    }
  }

  /** Slot `s` is the first with the key and holds a file that fits the buffer, its clusters linked from its two
      cluster words. */
  predicate FileLinked(t: Table, f: Fat, req: Request, s: nat, r: seq<nat>)
    requires s < 64
  {
    FirstWithKey(t, s, req) && t[s].attribute != 0x10 && t[s].filesize <= req.size
      && LinkedToEnd(f, t[s].clusterHigh * 65536 + t[s].clusterLow, r)
  }

  lemma LinkedIsSafe(img: Image, req: Request, s: nat, r: seq<nat>)
    requires req.parent < DISK_CLUSTERS && s < 64 && FileLinked(DecodeTable(img[req.parent]), DecodeFat(img[1]), req, s, r)
    ensures ReadSafe(img, req) && KeySlot(DecodeTable(img[req.parent]), req.name, req.ext, 0) == s
    ensures ToEof(DecodeFat(img[1]), First(DecodeTable(img[req.parent])[s]), 512) == r
  {
    hide DecodeTable, DecodeFat, KeySlot, ReachesEof, ToEof;
    var t := DecodeTable(img[req.parent]);
    assert SameKey(t[s], req.name, req.ext);
    LinkedReaches(DecodeFat(img[1]), First(t[s]), r, 512);
  }

  /** On any disk: an accepted read of a file returns the clusters linked from its entry. */
  lemma ReadFollowsLinks(img: Image, req: Request, s: nat, r: seq<nat>) returns (o: ReadOutcome)
    requires req.parent < DISK_CLUSTERS && s < 64 && img[req.parent][12] == 0xAA
    requires FileLinked(DecodeTable(img[req.parent]), DecodeFat(img[1]), req, s, r)
    ensures ReadSafe(img, req) && o == ReadOp(img, req)
    ensures o.code == 0 && |o.blocks| == |r| && forall k :: 0 <= k < |r| && r[k] < 512 ==> o.blocks[k] == img[r[k]]
  {
    hide DecodeTable, DecodeFat, KeySlot, ReachesEof, ToEof, LinkedToEnd, First, ReadSafe;
    LinkedIsSafe(img, req, s, r);
    FirstEntryOf(img[req.parent]);
    o := ReadOp(img, req);
  }

  // ---------- format ----------

  lemma BootBytes(a: Bytes, b: Bytes)
    requires |a| == 512
    ensures (a + b)[0..6] == a[0..6] && (a + b)[79] == a[79] && (a + b)[510] == a[510] && (a + b)[511] == a[511] && (a + b)[512..] == b
  {}

  lemma SignatureBytes()
    ensures var s := FsSignature();
      && |s| == 512 && s[0..6] == ['C' as int, 'o' as int, 'u' as int, 'r' as int, 's' as int, 'e' as int]
      && s[79] == 10 && s[510] == 'O' as int && s[511] == 'k' as int
  {
    assert |SIGNATURE_TEXT| == 80;
  }

  lemma ZeroWord(f: Fat, i: nat)
    requires i < 2048 && f[i / 4] == 0
    ensures EncodeFat(f)[i] == 0
  {
    assert Le32(0) == [0, 0, 0, 0];
  }

  lemma ReservedWords(f: Fat)
    requires f[0] == 0x0FFF_FFF0 && f[1] == f[2] == 0x0FFF_FFFF
    ensures EncodeFat(f)[0..12] == [0xF0, 0xFF, 0xFF, 0x0F, 0xFF, 0xFF, 0xFF, 0x0F, 0xFF, 0xFF, 0xFF, 0x0F]
  {
    hide EncodeFat;
    var c := EncodeFat(f);
    EncodedWord(f, 0);
    EncodedWord(f, 1);
    EncodedWord(f, 2);
    assert c[0..12] == c[0..4] + c[4..8] + c[8..12];
  }

  lemma FreshFatBytes()
    ensures var c := EncodeFat(FormatFat());
      && c[0..12] == [0xF0, 0xFF, 0xFF, 0x0F, 0xFF, 0xFF, 0xFF, 0x0F, 0xFF, 0xFF, 0xFF, 0x0F]
      && forall i :: 12 <= i < 2048 ==> c[i] == 0
  {
    hide EncodeFat;
    ReservedWords(FormatFat());
    forall i | 12 <= i < 2048
      ensures EncodeFat(FormatFat())[i] == 0
    {
      ZeroWord(FormatFat(), i);
    }
  }

  lemma SlotBytes(c: Cluster, b: Bytes)
    requires |b| == 32 && c[32..64] == b
    ensures c[32..35] == b[0..3] && c[43..45] == b[11..13] && c[58..60] == b[26..28] && c[52..54] == b[20..22]
  {
    assert c[32..35] == c[32..64][0..3] && c[43..45] == c[32..64][11..13];
    assert c[58..60] == c[32..64][26..28] && c[52..54] == c[32..64][20..22];
  }

  lemma FreshRootBytes(was: Table, name: Name)
    ensures var c := EncodeTable(InitTable(was, name, ROOT_CLUSTER));
      && OpensAsDirectory(c) && c[0..8] == name
      && c[32..35] == ['.' as int, '.' as int, 0] && c[43..45] == [0x10, 0xAA] && c[58..60] == [2, 0] && c[52..54] == [0, 0]
      && forall s :: 2 <= s < 64 ==> c[32 * s + 12] != 0xAA
  {
    hide EncodeTable, EncodeEntry;
    var t := InitTable(was, name, ROOT_CLUSTER);
    var c := EncodeTable(t);
    EncodedSlot(t, 0);
    EncodedSlot(t, 1);
    EntryOffsets(t[0]);
    EntryOffsets(t[1]);
    var a, b := EncodeEntry(t[0]), EncodeEntry(t[1]);
    assert c[12] == c[32 * 0..32 * 0 + 32][12] && c[11] == c[32 * 0..32 * 0 + 32][11] && c[0..8] == c[32 * 0..32 * 0 + 32][0..8];
    SlotBytes(c, b);
    assert b[0..3] == b[0..8][0..3] && b[11..13] == [b[11], b[12]];
    forall s | 2 <= s < 64
      ensures c[32 * s + 12] != 0xAA
    {
      EncodedSlot(t, s);
      EntryOffsets(t[s]);
      assert c[32 * s + 12] == c[32 * s..32 * s + 32][12];
    }
  }

  /** The first bytes of a freshly formatted disk: the signature's ends, the three reserved FAT cells and an empty
      map behind them, and the two entries of an empty root. */
  lemma FormatBytes(img: Image, was: Table, name: Name)
    ensures var disk := Format(img, was, name);
      && disk[0][0..6] == ['C' as int, 'o' as int, 'u' as int, 'r' as int, 's' as int, 'e' as int]
      && disk[0][79] == 10 && disk[0][510] == 'O' as int && disk[0][511] == 'k' as int && disk[0][512..] == img[0][512..]
      && disk[1][0..12] == [0xF0, 0xFF, 0xFF, 0x0F, 0xFF, 0xFF, 0xFF, 0x0F, 0xFF, 0xFF, 0xFF, 0x0F]
      && (forall i :: 12 <= i < 2048 ==> disk[1][i] == 0)
      && OpensAsDirectory(disk[2]) && disk[2][0..8] == name
      && disk[2][32..35] == ['.' as int, '.' as int, 0] && disk[2][43..45] == [0x10, 0xAA]
      && disk[2][58..60] == [2, 0] && disk[2][52..54] == [0, 0]
      && forall s :: 2 <= s < 64 ==> disk[2][32 * s + 12] != 0xAA
  {
    hide FsSignature, EncodeFat, EncodeTable, FormatFat, InitTable;
    SignatureBytes();
    FreshFatBytes();
    FreshRootBytes(was, name);
    BootBytes(FsSignature(), img[0][BLOCK_SIZE..]);
  }
}
