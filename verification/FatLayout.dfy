/** On-disk layout of the file system: constants, directory entries, the FAT, and the byte
    encodings through which the driver reinterprets a cluster buffer. */
module FatLayout {
  import opened Words

  const BLOCK_SIZE := 512
  const CLUSTER_BLOCK_COUNT := 4
  const CLUSTER_SIZE := 2048
  const CLUSTER_MAP_SIZE := 512
  const TABLE_SLOTS := 64
  const DISK_CLUSTERS := 2048   // the inserter's 4 MiB image

  const CLUSTER_0_VALUE := 0x0FFF_FFF0
  const CLUSTER_1_VALUE := 0x0FFF_FFFF
  const END_OF_FILE := 0x0FFF_FFFF
  const EMPTY_ENTRY := 0
  const FAT_CLUSTER := 1
  const ROOT_CLUSTER := 2
  const ATTR_SUBDIRECTORY: u8 := 0x10
  const UATTR_NOT_EMPTY: u8 := 0xAA

  type Name = s: Bytes | |s| == 8 witness seq(8, _ => 0)
  type Ext = s: Bytes | |s| == 3 witness seq(3, _ => 0)
  type Cluster = b: Bytes | |b| == CLUSTER_SIZE witness seq(CLUSTER_SIZE, _ => 0)
  type Fat = f: seq<u32> | |f| == CLUSTER_MAP_SIZE witness seq(CLUSTER_MAP_SIZE, _ => 0)
  type Image = v: seq<Cluster> | |v| == DISK_CLUSTERS
    witness BLANK_IMAGE

  datatype Entry = Entry(
    name: Name, ext: Ext, attribute: u8, userAttribute: u8,
    undelete: u8, createTime: u16, createDate: u16, accessDate: u16, clusterHigh: u16,
    modifiedTime: u16, modifiedDate: u16, clusterLow: u16, filesize: u32)

  const BLANK_CLUSTER: Cluster := seq(CLUSTER_SIZE, _ => 0)
  const BLANK_IMAGE: seq<Cluster> := seq(DISK_CLUSTERS, _ => BLANK_CLUSTER)
  const BLANK_ENTRY: Entry :=
    Entry(seq(8, _ => 0), seq(3, _ => 0), 0, 0, 0, 0, 0, 0, 0, 0, 0, 0, 0)

  type Table = t: seq<Entry> | |t| == TABLE_SLOTS witness seq(TABLE_SLOTS, _ => BLANK_ENTRY)

  predicate Live(e: Entry) { e.userAttribute == UATTR_NOT_EMPTY }
  predicate IsDir(e: Entry) { e.attribute == ATTR_SUBDIRECTORY }
  predicate SameKey(e: Entry, name: Name, ext: Ext) { e.name == name && e.ext == ext }

  /** The cluster number stored in an entry. */
  function First(e: Entry): nat { e.clusterHigh * 0x1_0000 + e.clusterLow }

  /** Clusters needed for a request of `size` bytes; a directory (size 0) takes one. */
  function Required(size: u32): (n: nat)
    ensures n > 0 && (size == 0 ==> n == 1)
  {
    var k := size / CLUSTER_SIZE + (if size % CLUSTER_SIZE != 0 then 1 else 0);
    if k == 0 then 1 else k
  }

  /** The number of clusters a live entry owns. */
  function Length(e: Entry): nat {
    if IsDir(e) then 1 else Required(e.filesize)
  }

  // ---------- byte encodings ----------

  function EncodeEntry(e: Entry): (b: Bytes)
    ensures |b| == 32
  {
    e.name + e.ext + [e.attribute, e.userAttribute, e.undelete]
    + Le16(e.createTime) + Le16(e.createDate) + Le16(e.accessDate) + Le16(e.clusterHigh)
    + Le16(e.modifiedTime) + Le16(e.modifiedDate) + Le16(e.clusterLow) + Le32(e.filesize)
  }

  function DecodeEntry(b: Bytes): Entry
    requires |b| == 32
  {
    Entry(b[..8], b[8..11], b[11], b[12], b[13],
          FromLe16(b[14], b[15]), FromLe16(b[16], b[17]), FromLe16(b[18], b[19]), FromLe16(b[20], b[21]),
          FromLe16(b[22], b[23]), FromLe16(b[24], b[25]), FromLe16(b[26], b[27]),
          FromLe32(b[28], b[29], b[30], b[31]))
  }

  lemma EntryRoundTrip(e: Entry)
    ensures DecodeEntry(EncodeEntry(e)) == e
  {
    var b := EncodeEntry(e);
    assert b[..8] == e.name;
    assert b[8..11] == e.ext;
    assert b[28..32] == Le32(e.filesize);
    Le32RoundTrip(e.filesize);
  }

  function EncodeTable(t: Table): Cluster {
    seq(CLUSTER_SIZE, i requires 0 <= i < CLUSTER_SIZE => EncodeEntry(t[i / 32])[i % 32])
  }

  function DecodeTable(b: Cluster): Table {
    seq(TABLE_SLOTS, i requires 0 <= i < TABLE_SLOTS => DecodeEntry(b[32 * i..32 * i + 32]))
  }

  lemma EncodedSlot(t: Table, i: nat)
    requires i < TABLE_SLOTS
    ensures EncodeTable(t)[32 * i..32 * i + 32] == EncodeEntry(t[i])
  {
    var b := EncodeTable(t);
    forall k | 0 <= k < 32
      ensures b[32 * i + k] == EncodeEntry(t[i])[k]
    {
      assert (32 * i + k) / 32 == i && (32 * i + k) % 32 == k;
    }
  }

  /** A directory table survives being written to disk and read back. */
  lemma TableRoundTrip(t: Table)
    ensures DecodeTable(EncodeTable(t)) == t
  {
    var b := EncodeTable(t);
    var u := DecodeTable(b);
    forall i | 0 <= i < TABLE_SLOTS
      ensures u[i] == t[i]
    {
      EncodedSlot(t, i);
      EntryRoundTrip(t[i]);
    }
  }

  function EncodeFat(f: Fat): Cluster {
    seq(CLUSTER_SIZE, i requires 0 <= i < CLUSTER_SIZE => Le32(f[i / 4])[i % 4])
  }

  function DecodeFat(b: Cluster): Fat {
    seq(CLUSTER_MAP_SIZE, i requires 0 <= i < CLUSTER_MAP_SIZE =>
      FromLe32(b[4 * i], b[4 * i + 1], b[4 * i + 2], b[4 * i + 3]))
  }

  lemma EncodedWord(f: Fat, i: nat)
    requires i < CLUSTER_MAP_SIZE
    ensures EncodeFat(f)[4 * i..4 * i + 4] == Le32(f[i])
  {
    var b := EncodeFat(f);
    forall k | 0 <= k < 4
      ensures b[4 * i + k] == Le32(f[i])[k]
    {
      assert (4 * i + k) / 4 == i && (4 * i + k) % 4 == k;
    }
  }

  /** The FAT survives being written to disk and read back. */
  lemma FatRoundTrip(f: Fat)
    ensures DecodeFat(EncodeFat(f)) == f
  {
    var b := EncodeFat(f);
    var g := DecodeFat(b);
    forall i | 0 <= i < CLUSTER_MAP_SIZE
      ensures g[i] == f[i]
    {
      EncodedWord(f, i);
      var w := b[4 * i..4 * i + 4];
      assert g[i] == FromLe32(w[0], w[1], w[2], w[3]);
      Le32RoundTrip(f[i]);
    }
  }
}
