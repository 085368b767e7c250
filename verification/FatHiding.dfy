/** Stored files that `read` does not find: exactly when a new directory hides one, and exactly which first
    file of a fresh disk is hidden from the start. */
module FatHiding {
  import opened Words
  import opened FatLayout
  import opened FatShape
  import opened FatOps
  import opened FatTree
  import opened FatAtomic
  import opened FatFiles
  import opened FatLimits
  import opened FatRuns

  // ---------- a new directory ----------

  /** The directory created in `slot` of `req.parent` gets, with the slot's stale extension, the key that `r`
      asks for, below the file's own slot. */
  ghost predicate Hides(v: Volume, req: Request, slot: int, r: Request)
    requires Sized(v) && r.parent < CLUSTER_MAP_SIZE && Slot(slot)
  {
    var t := v.tables[r.parent];
    r.parent == req.parent && slot < FileSlot(t, r.name, r.ext, 2) && req.name == r.name && t[slot].ext == r.ext
  }

  lemma ShadowAfterMkdir(t: Table, s: nat, e: Entry, name: Name, ext: Ext)
    requires Slot(s) && !Live(t[s]) && Live(e) && IsDir(e)
    ensures FileSlot(t[s := e], name, ext, 2) == FileSlot(t, name, ext, 2)
    ensures Shadowed(t[s := e], name, ext) <==> Shadowed(t, name, ext) || (s < FileSlot(t, name, ext, 2) && SameKey(e, name, ext))
  {
    var u := t[s := e];
    SameSlot(t, u, name, ext);
    if Shadowed(t, name, ext) {
      var i :| 0 <= i < FileSlot(t, name, ext, 2) && Live(t[i]) && IsDir(t[i]) && SameKey(t[i], name, ext);
      assert u[i] == t[i];
    }
    if s < FileSlot(t, name, ext, 2) && SameKey(e, name, ext) {
      assert u[s] == e;
    }
    if Shadowed(u, name, ext) {
      var i :| 0 <= i < FileSlot(u, name, ext, 2) && Live(u[i]) && IsDir(u[i]) && SameKey(u[i], name, ext);
      assert i != s ==> u[i] == t[i];
    }
  }

  lemma MkdirTables(v: Volume, w: Volume, sh: Shape, p: nat, s: nat, e: Entry, cs: seq<nat>, d: nat, name: Name, ext: Ext)
    requires Sound(v, sh) && Grown(v, w, sh, p, s, e, cs) && SameData(v, w, sh) && IsDir(e) && FilesFirst(w.tables[p])
    requires d in sh.depth && d < CLUSTER_MAP_SIZE
    ensures p < CLUSTER_MAP_SIZE && d in GrownShape(sh, p, s, e, cs).depth && FileAt(w, d, name, ext) == FileAt(v, d, name, ext)
    ensures Shadowed(w.tables[d], name, ext) <==>
      Shadowed(v.tables[d], name, ext) || (d == p && s < FileSlot(v.tables[d], name, ext, 2) && SameKey(e, name, ext))
  {
    hide Sound, FilesFirst, Shadowed, FreshTable, FileAt, First, Length;
    FilesGrown(v, w, sh, p, s, e, cs, d, name, ext);
    FreeIsUnowned(v, sh, cs);
    if d == p { ShadowAfterMkdir(v.tables[p], s, e, name, ext); }
  }

  /** A new directory keeps whatever extension its slot held. */
  lemma CreatedKeepsExt(img: Image, req: Request)
    requires req.parent < DISK_CLUSTERS && Chosen(img, req).slot != -1 && req.size == 0
    ensures Created(img, req).ext == Mount(img).tables[req.parent][Chosen(img, req).slot].ext
  {
    hide DecodeTable, Allocate;
  }

  /** After an accepted creation of a directory every stored file is still stored, and `read` gives for it
      what it gave before if and only if the file was hidden already or the new directory does not hide it. */
  lemma MkdirKeepsReadIff(st: State, sh: Shape, req: Request, data: Bytes, garbage: Table, r: Request)
    requires Good(st, sh) && Allowed(st, Write(req, data, garbage)) && req.size == 0 && WriteOp(st.img, req, data, garbage).code == 0
    requires r.parent in sh.depth && r.parent < CLUSTER_MAP_SIZE && FileAt(Mount(st.img), r.parent, r.name, r.ext).Some?
    ensures Slot(Chosen(st.img, req).slot) && req.parent < CLUSTER_MAP_SIZE
    ensures var img' := Step(st, Do(Write(req, data, garbage))).img; var v := Mount(st.img);
      && FileAt(Mount(img'), r.parent, r.name, r.ext) == FileAt(v, r.parent, r.name, r.ext)
      && ReadSafe(st.img, r) && ReadSafe(img', r)
      && (ReadOp(img', r) == ReadOp(st.img, r) <==>
           Shadowed(v.tables[r.parent], r.name, r.ext) || !Hides(v, req, Chosen(st.img, req).slot, r))
      && (Hides(v, req, Chosen(st.img, req).slot, r) ==> ReadOp(img', r) == ReadOutcome(1, []))
  {
    hide WriteOp, Created, Sound, Apply, DecodeFat, DecodeTable, Mount, Required, Link, Allocate, GrownShape, Chosen, Grown;
    hide AllowedWrite, Formatted, FilesFirst, FileAt, Shadowed, ReadSafe, ReadOp, SameData;
    var v, img' := Mount(st.img), Step(st, Do(Write(req, data, garbage))).img;
    var p := req.parent;
    WriteDefined(st, sh, req, data, garbage);
    WriteParent(st, req, data, garbage);
    Commit(st.img, sh, req, data, garbage);
    CommitNode(st.img, sh, req, data, garbage);
    AcceptedChoice(st.img, sh, req, data, garbage);
    CreatedFacts(st.img, req);
    CreatedKeepsExt(st.img, req);
    WriteDone(st, sh, req, data, garbage);
    var a, e := Chosen(st.img, req), Created(st.img, req);
    var sh' := ShapeAfterWrite(st.img, sh, req);
    GrownKeyed(v, Mount(img'), sh, p, a.slot, e, a.clusters);
    MkdirTables(v, Mount(img'), sh, p, a.slot, e, a.clusters, r.parent, r.name, r.ext);
    ReadIsExact(st.img, sh, r);
    ReadIsExact(img', sh', r);
  }

  // ---------- a concrete disk on which a file disappears from `read` ----------

  const ROOT_NAME: Name := [65, 0, 0, 0, 0, 0, 0, 0]
  const FILE_NAME: Name := [66, 0, 0, 0, 0, 0, 0, 0]
  const NO_EXT: Ext := [0, 0, 0]
  const ONE_EXT: Ext := [1, 0, 0]
  const ONE_FILE: Entry := BLANK_ENTRY.(name := FILE_NAME, ext := NO_EXT, userAttribute := UATTR_NOT_EMPTY, clusterLow := 3, filesize := CLUSTER_SIZE)

  /** A root directory whose slot 2 is empty and whose slot 3 is a file of one cluster. */
  function HidingTable(): Table {
    InitTable(seq(TABLE_SLOTS, _ => BLANK_ENTRY.(ext := NO_EXT)), ROOT_NAME, ROOT_CLUSTER)[3 := ONE_FILE]
  }

  function HidingFat(): Fat { FormatFat()[3 := END_OF_FILE] }

  ghost const HIDING_SHAPE := Shape(map[3 := Loc(ROOT_CLUSTER, 3, 0)], map[ROOT_CLUSTER := 0])

  lemma HidingIsSound(v: Volume)
    requires Sized(v) && v.fat == HidingFat() && v.tables[ROOT_CLUSTER] == HidingTable()
    ensures Sound(v, HIDING_SHAPE) && Matched(v, HIDING_SHAPE) && FilesFirst(v.tables[ROOT_CLUSTER]) && 4 in FreeList(v.fat)
  {
    assert Length(ONE_FILE) == 1 && First(ONE_FILE) == 3;
    assert FILE_NAME[0] == 66 && BLANK_ENTRY.name[0] == 0;
  }

  lemma HidingKeys()
    ensures var t := HidingTable();
      && FileSlot(t, FILE_NAME, NO_EXT, 2) == 3 && t[3] == ONE_FILE && !Shadowed(t, FILE_NAME, NO_EXT)
      && t[2].ext == NO_EXT && !Live(t[2]) && Live(t[0]) && IsDir(t[0]) && !Duplicate(t, FILE_NAME, ONE_EXT)
      && !KeyIsFresh(t, FILE_NAME, NO_EXT)
  {
    var t := HidingTable();
    assert DotDot(BLANK_ENTRY.name)[0] == '.' as int;
    assert t[0].name[0] == 65 && t[1].name[0] == '.' as int && FILE_NAME[0] == 66;
    assert FileSlot(t, FILE_NAME, NO_EXT, 3) == 3;
    assert NO_EXT[0] != ONE_EXT[0];
  }

  /** The input: a good state, an accepted creation of a directory within the rules, and a file that `read`
      returns before it (code 0) and takes for a directory after it (code 1). */
  lemma MkdirHidesAFile() returns (st: State, req: Request, data: Bytes, garbage: Table, r: Request)
    ensures Good(st, HIDING_SHAPE) && Allowed(st, Write(req, data, garbage)) && req.size == 0
    ensures WriteOp(st.img, req, data, garbage).code == 0
    ensures Matched(Mount(st.img), HIDING_SHAPE) && Collides(st, Do(Write(req, data, garbage)))
    ensures ReadSafe(st.img, r) && ReadOp(st.img, r).code == 0
    ensures var img' := Step(st, Do(Write(req, data, garbage))).img; ReadSafe(img', r) && ReadOp(img', r) == ReadOutcome(1, [])
  {
    hide FsSignature, EncodeFat, EncodeTable, DecodeFat, DecodeTable, HidingFat, HidingTable, Sound, FilesFirst, WriteTrace, Allocate;
    hide FreeFrom, NewEntry, Shadowed, Duplicate, ReadOp, ReadSafe, Apply, Contents, KeyIsFresh, Matched;
    var boot: Cluster := FsSignature() + BLANK_CLUSTER[BLOCK_SIZE..];
    var img: Image := BLANK_IMAGE[0 := boot][FAT_CLUSTER := EncodeFat(HidingFat())][ROOT_CLUSTER := EncodeTable(HidingTable())];
    st := Boot(img);
    FatRoundTrip(HidingFat());
    TableRoundTrip(HidingTable());
    HidingIsSound(Mount(img));
    HidingKeys();
    assert boot[..BLOCK_SIZE] == FsSignature();
    req := Request(FILE_NAME, ONE_EXT, ROOT_CLUSTER, 0);
    data, garbage := [], HidingTable();
    r := Request(FILE_NAME, NO_EXT, ROOT_CLUSTER, CLUSTER_SIZE);
    AllocateLowest(HidingTable(), HidingFat(), 0);
    assert |FreeList(HidingFat())| >= 1;
    assert Walk(Mount(img), ROOT_CLUSTER, []) == ROOT_CLUSTER;
    assert Slot(2);
    ReadIsExact(img, HIDING_SHAPE, r);
    MkdirKeepsReadIff(st, HIDING_SHAPE, req, data, garbage, r);
    CreatedKeepsExt(img, req);
    assert Created(img, req).name == FILE_NAME by { CreatedFacts(img, req); }
  }

  // ---------- a new file ----------

  lemma NewFileShadow(t: Table, s: nat, e: Entry)
    requires Slot(s) && Live(e) && !IsDir(e) && KeyIsFresh(t, e.name, e.ext) && !Live(t[s])
    requires Live(t[0]) && IsDir(t[0]) && Live(t[1]) && IsDir(t[1])
    ensures FileSlot(t[s := e], e.name, e.ext, 2) == s
    ensures Shadowed(t[s := e], e.name, e.ext) <==> SameKey(t[0], e.name, e.ext) || SameKey(t[1], e.name, e.ext)
  {
    var u := t[s := e];
    assert u[0] == t[0] && u[1] == t[1];
    var i := FileSlot(u, e.name, e.ext, 2);
    assert forall k :: 2 <= k < s ==> u[k] == t[k];
    assert HoldsFile(u[s], e.name, e.ext);
    if Shadowed(u, e.name, e.ext) {
      var j :| 0 <= j < i && Live(u[j]) && IsDir(u[j]) && SameKey(u[j], e.name, e.ext);
      assert u[j] == t[j];
    }
  }

  lemma WrittenFile(st: State, sh: Shape, req: Request, data: Bytes, garbage: Table)
    requires Good(st, sh) && Allowed(st, Write(req, data, garbage)) && 0 < req.size && WriteOp(st.img, req, data, garbage).code == 0
    ensures req.parent < CLUSTER_MAP_SIZE && req.parent in sh.depth
    ensures var img' := Apply(st.img, WriteOp(st.img, req, data, garbage).trace); var t := Mount(st.img).tables[req.parent];
      && FileAt(Mount(img'), req.parent, req.name, req.ext) == Some(StoredFile(req.size, Requested(req, data).blocks))
      && (Shadowed(Mount(img').tables[req.parent], req.name, req.ext) <==>
           SameKey(t[0], req.name, req.ext) || SameKey(t[1], req.name, req.ext))
  {
    hide WriteOp, Created, Sound, Apply, DecodeFat, DecodeTable, Mount, Required, Link, Allocate, GrownShape, Chosen, Grown;
    hide AllowedWrite, Formatted, FilesFirst, Shadowed, FileSlot, SameData, Contents, KeyIsFresh, Requested;
    var v, p := Mount(st.img), req.parent;
    var w := Mount(Apply(st.img, WriteOp(st.img, req, data, garbage).trace));
    WriteDefined(st, sh, req, data, garbage);
    WriteParent(st, req, data, garbage);
    Commit(st.img, sh, req, data, garbage);
    CommitNode(st.img, sh, req, data, garbage);
    AcceptedChoice(st.img, sh, req, data, garbage);
    AcceptedKeyFresh(st, req, data, garbage);
    CreatedFacts(st.img, req);
    TableOfDir(v, sh, p);
    var a, e := Chosen(st.img, req), Created(st.img, req);
    GrownDirStays(v, w, sh, p, a.slot, e, a.clusters);
    NewFileShadow(v.tables[p], a.slot, e);
  }

  lemma DirStays(img: Image, sh: Shape, req: Request)
    requires req.parent < CLUSTER_MAP_SIZE && req.parent in sh.depth && Chosen(img, req).slot != -1
    ensures req.parent in ShapeAfterWrite(img, sh, req).depth
  {
    hide Chosen, Created;
  }

  /** A file written in any good state reads back at once, exactly the given data in whole clusters, if and
      only if its key is neither that of the directory's own entry nor that of its `..` entry; else `read`
      takes it for a directory. */
  lemma WriteThenRead(st: State, sh: Shape, req: Request, data: Bytes, garbage: Table)
    requires Good(st, sh) && Allowed(st, Write(req, data, garbage)) && 0 < req.size && WriteOp(st.img, req, data, garbage).code == 0
    ensures req.parent < CLUSTER_MAP_SIZE
    ensures var img' := Step(st, Do(Write(req, data, garbage))).img; var t := Mount(st.img).tables[req.parent];
      && ReadSafe(img', req)
      && ReadOp(img', req) ==
           if SameKey(t[0], req.name, req.ext) || SameKey(t[1], req.name, req.ext) then ReadOutcome(1, [])
           else ReadOutcome(0, Requested(req, data).blocks)
  {
    hide WriteOp, Created, Sound, Apply, DecodeFat, DecodeTable, Mount, Required, Allocate, GrownShape, Chosen;
    hide AllowedWrite, Formatted, FilesFirst, Shadowed, FileAt, ReadOp, ReadSafe, Requested;
    WriteDefined(st, sh, req, data, garbage);
    WrittenFile(st, sh, req, data, garbage);
    WriteDone(st, sh, req, data, garbage);
    DirStays(st.img, sh, req);
    ReadIsExact(Step(st, Do(Write(req, data, garbage))).img, ShapeAfterWrite(st.img, sh, req), req);
  }

  /** A caller gets to the other case: on a fresh disk a file whose name is the root's own, with the extension
      bytes that were in the root's table before, is accepted and then read as a directory. */
  lemma ShadowedFromTheStart(img: Image, was: Table, name: Name, size: u32, data: Bytes, garbage: Table)
    requires 0 < size && Required(size) <= CLUSTER_MAP_SIZE - 3 && CLUSTER_SIZE * Required(size) <= |data|
    ensures var st := Boot(Format(img, was, name)); var req := Request(name, was[0].ext, ROOT_CLUSTER, size);
      && Allowed(st, Write(req, data, garbage)) && WriteOp(st.img, req, data, garbage).code == 0
      && var img' := Step(st, Do(Write(req, data, garbage))).img;
      && Shadowed(Mount(img').tables[ROOT_CLUSTER], name, was[0].ext)
      && ReadSafe(img', req) && ReadOp(img', req) == ReadOutcome(1, [])
  {
    hide Format, Required, Allowed, WriteOp, DecodeFat, DecodeTable, Sound, Leaked, Mount, Apply, ReadSafe, ReadOp, Shadowed, Formatted;
    hide Chosen, FileAt, FilesFirst, Requested;
    var st := Boot(Format(img, was, name));
    var req := Request(name, was[0].ext, ROOT_CLUSTER, size);
    FirstWriteIsGood(img, was, name, req, data, garbage);
    FormatImage(img, was, name);
    FormatGood(img, was, name);
    WrittenFile(st, FORMATTED_SHAPE, req, data, garbage);
    WriteThenRead(st, FORMATTED_SHAPE, req, data, garbage);
  }

  // ---------- a file that cannot be deleted, and a deleted file ----------

  /** The input: on a fresh disk a file named like the root's `..` entry, `..` and the bytes that stood behind
      it, is accepted, and deleting it stops at that entry, so that nothing is restored. */
  lemma ParentNameStopsDelete(img: Image, was: Table, name: Name, ext: Ext, size: u32, data: Bytes, garbage: Table)
    requires 0 < size && Required(size) <= CLUSTER_MAP_SIZE - 3 && CLUSTER_SIZE * Required(size) <= |data|
    ensures var st := Boot(Format(img, was, name)); var req := Request(DotDot(was[1].name), ext, ROOT_CLUSTER, size);
      && Allowed(st, Write(req, data, garbage)) && WriteOp(st.img, req, data, garbage).code == 0
      && !DeleteRestores(st.img, req, data, garbage)
      && var o := WriteOp(st.img, req, data, garbage); var img' := Apply(st.img, o.trace);
      && DeleteSafe(img', o.cache, req) && DeleteOp(img', o.cache, req).code == DIRECTORY_BRANCH
  {
    hide Format, Required, Allowed, WriteOp, DecodeFat, DecodeTable, Sound, Leaked, Apply, DeleteSafe, DeleteOp, Formatted, Chosen;
    var st := Boot(Format(img, was, name));
    var req := Request(DotDot(was[1].name), ext, ROOT_CLUSTER, size);
    FirstWriteIsGood(img, was, name, req, data, garbage);
    FormatImage(img, was, name);
    FormatGood(img, was, name);
    var t := Mount(st.img).tables[ROOT_CLUSTER];
    assert Live(t[1]) && IsDir(t[1]) && t[1].name == req.name;
    assert DirectoryBelow(t, Chosen(st.img, req).slot, req.name);
    DirectoryStopsDelete(st.img, FORMATTED_SHAPE, req, data, garbage);
    WriteThenDelete(st.img, FORMATTED_SHAPE, req, data, garbage);
  }

  /** After the file's first cell has been cleared its chain leads to cluster 0 and out of the FAT. */
  lemma ClearedChain(f: Fat, c: nat)
    requires ReservedOk(f) && 3 <= c < CLUSTER_MAP_SIZE && f[c] == EMPTY_ENTRY
    ensures !ReachesEof(f, c, CLUSTER_MAP_SIZE)
  {
    assert ReachesEof(f, c, 512) <==> ReachesEof(f, 0, 511);
    assert ReachesEof(f, 0, 511) <==> ReachesEof(f, CLUSTER_0_VALUE, 510);
  }

  /** `read` looking for the key of the file just cleared meets the cleared slot, or the directory's own entry
      before it. */
  lemma ClearedSlotIsFound(t: Table, name: Name, ext: Ext)
    requires FilesFirst(t) && Live(t[0]) && IsDir(t[0]) && Live(t[1]) && IsDir(t[1])
    requires var s := DeleteSlot(t, name, ext, 1); s < TABLE_SLOTS && !IsDir(t[s])
    ensures var s := DeleteSlot(t, name, ext, 1);
      KeySlot(t[s := Cleared(t[s])], name, ext, 0) == if SameKey(t[0], name, ext) then 0 else s
  {
    var s := DeleteSlot(t, name, ext, 1);
    var u := t[s := Cleared(t[s])];
    var k := KeySlot(u, name, ext, 0);
    assert SameKey(u[s], name, ext);
    assert 2 <= k < s ==> CarriesKeyOf(t[k], t[s]);
    assert forall i :: 1 <= i < s ==> !DeleteStops(t[i], name, ext);
  }

  /** The FAT after a delete: the reserved cells as before, the file's first cell cleared. */
  lemma DeletedFat(st: State, sh: Shape, req: Request)
    requires Good(st, sh) && GoodDelete(st.img, sh, req)
    ensures DeleteSafe(st.img, st.cache, req) && req.parent < CLUSTER_MAP_SIZE
    ensures var t := Mount(st.img).tables[req.parent]; var s := DeleteSlot(t, req.name, req.ext, 1);
      var f := Mount(Apply(st.img, DeleteOp(st.img, st.cache, req).trace)).fat;
      && s < TABLE_SLOTS && 3 <= First(t[s]) < CLUSTER_MAP_SIZE && f[First(t[s])] == EMPTY_ENTRY && ReservedOk(f)
  {
    hide DeleteOp, DeleteSafe, DecodeTable, DecodeFat, EntriesOk, OwnersOk, DirsOk, Formatted, Erase, First, Apply, DeleteTrace, DeleteSlot, Length;
    var v, p := Mount(st.img), req.parent;
    var s := DeleteSlot(v.tables[p], req.name, req.ext, 1);
    DeleteTarget(st.img, sh, req);
    DeleteOpTrace(st.img, sh, req);
    DeleteVolumes(st.img, p, s);
    var t := DeleteTrace(v, p, s);
    assert t[..2] == t;
    var r := EntryChain(v, p, s);
    ChainsAreProper(v, sh, p, s);
    EraseValues(v.fat, r, |r|);
    assert r[..|r|] == r;
    assert r[0] == First(v.tables[p][s]) && r[0] in r;
  }

  /** Reading a file after deleting it: `read`, which ignores liveness, stays inside the FAT exactly when the
      directory's own entry carries the key, which it reports as a directory, or the buffer is too small;
      otherwise it follows the cleared chain to cluster 0 and on out of the FAT. */
  lemma ReadAfterDelete(st: State, sh: Shape, req: Request)
    requires Good(st, sh) && Allowed(st, Delete(req)) && DeleteOp(st.img, st.cache, req).code == 0
    ensures req.parent < CLUSTER_MAP_SIZE
    ensures var t := Mount(st.img).tables[req.parent]; var s := DeleteSlot(t, req.name, req.ext, 1); var img' := Step(st, Do(Delete(req))).img;
      && s < TABLE_SLOTS
      && (ReadSafe(img', req) <==> SameKey(t[0], req.name, req.ext) || t[s].filesize > req.size)
      && (SameKey(t[0], req.name, req.ext) ==> ReadOp(img', req) == ReadOutcome(1, []))
      && (!SameKey(t[0], req.name, req.ext) && t[s].filesize > req.size ==> ReadOp(img', req) == ReadOutcome(-1, []))
  {
    hide DeleteOp, DeleteSafe, DecodeTable, DecodeFat, Sound, Formatted, Erase, FilesFirst, ReachesEof, Apply, AllowedDelete;
    var v, p := Mount(st.img), req.parent;
    DeleteDefined(st, sh, req);
    DeleteTarget(st.img, sh, req);
    DeleteTables(st, sh, req, 2);
    var s := DeleteSlot(v.tables[p], req.name, req.ext, 1);
    TableOfDir(v, sh, p);
    ClearedSlotIsFound(v.tables[p], req.name, req.ext);
    var trace := DeleteOp(st.img, st.cache, req).trace;
    assert trace[..2] == trace;
    DeletedFat(st, sh, req);
    ClearedChain(Mount(Step(st, Do(Delete(req))).img).fat, First(v.tables[p][s]));
  }
}
