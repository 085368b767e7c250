/** The driver as a map from (directory, name, extension) to file contents: the invariants on where keys are
    found first, which make `read`'s missing liveness test harmless, and the effect of every operation on the map. */
module FatFiles {
  import opened Words
  import opened FatLayout
  import opened FatShape
  import opened FatOps
  import opened FatTree
  import opened FatAtomic

  datatype StoredFile = StoredFile(size: u32, blocks: seq<Cluster>)
  datatype Option<T> = None | Some(value: T)

  // ---------- where a key is found first ----------

  ghost predicate CarriesKeyOf(a: Entry, b: Entry) { a.name == b.name && a.ext == b.ext }

  /** No slot before a live file carries its key, except a live directory; so a key names at most one live file. */
  ghost predicate FilesFirst(t: Table) {
    forall j, k :: 2 <= j < k < TABLE_SLOTS && Live(t[k]) && !IsDir(t[k]) && CarriesKeyOf(t[j], t[k]) ==> Live(t[j]) && IsDir(t[j])
  }

  /** No slot before a live one, live, deleted or never used, carries the live slot's key. */
  ghost predicate FirstMatch(t: Table) {
    forall j, k :: 2 <= j < k < TABLE_SLOTS && Live(t[k]) ==> !CarriesKeyOf(t[j], t[k])
  }

  ghost predicate Keyed(v: Volume, sh: Shape) {
    Sized(v) && forall d :: d in sh.depth && d < CLUSTER_MAP_SIZE ==> FilesFirst(v.tables[d])
  }

  ghost predicate Matched(v: Volume, sh: Shape) {
    Sized(v) && forall d :: d in sh.depth && d < CLUSTER_MAP_SIZE ==> FirstMatch(v.tables[d])
  }

  ghost predicate KeyIsFresh(t: Table, name: Name, ext: Ext) {
    forall s :: 2 <= s < TABLE_SLOTS && Live(t[s]) ==> !SameKey(t[s], name, ext)
  }

  /** Filling the lowest empty slot with a directory, or with a file under a fresh key, keeps files first. */
  lemma InsertKeepsFilesFirst(t: Table, s: nat, e: Entry)
    requires FilesFirst(t) && Slot(s) && !Live(t[s]) && Live(e) && forall i :: 2 <= i < s ==> Live(t[i])
    requires IsDir(e) || KeyIsFresh(t, e.name, e.ext)
    ensures FilesFirst(t[s := e])
  {
    var u := t[s := e];
    forall j, k | 2 <= j < k < TABLE_SLOTS && Live(u[k]) && !IsDir(u[k]) && CarriesKeyOf(u[j], u[k])
      ensures Live(u[j]) && IsDir(u[j])
    {
      assert j != s && k != s ==> CarriesKeyOf(t[j], t[k]);
    }
  }

  /** Clearing a file's entry keeps files first. */
  lemma ClearKeepsFilesFirst(t: Table, s: nat)
    requires FilesFirst(t) && Slot(s) && Live(t[s]) && !IsDir(t[s])
    ensures FilesFirst(t[s := Cleared(t[s])])
  {
    var u := t[s := Cleared(t[s])];
    forall j, k | 2 <= j < k < TABLE_SLOTS && Live(u[k]) && !IsDir(u[k]) && CarriesKeyOf(u[j], u[k])
      ensures Live(u[j]) && IsDir(u[j])
    {
      assert CarriesKeyOf(t[j], t[k]);
    }
  }

  /** Filling the lowest empty slot keeps the stricter rule exactly when no live entry has the new entry's key. */
  lemma InsertKeepsFirstMatch(t: Table, s: nat, e: Entry)
    requires FirstMatch(t) && Slot(s) && !Live(t[s]) && Live(e) && forall i :: 2 <= i < s ==> Live(t[i])
    ensures FirstMatch(t[s := e]) <==> KeyIsFresh(t, e.name, e.ext)
  {
    var u := t[s := e];
    if !KeyIsFresh(t, e.name, e.ext) {
      var i :| 2 <= i < TABLE_SLOTS && Live(t[i]) && SameKey(t[i], e.name, e.ext);
      assert i != s;
      if i < s { assert CarriesKeyOf(u[i], u[s]); } else { assert CarriesKeyOf(u[s], u[i]); }
    } else {
      forall j, k | 2 <= j < k < TABLE_SLOTS && Live(u[k])
        ensures !CarriesKeyOf(u[j], u[k])
      {
        if k != s && j != s { assert !CarriesKeyOf(t[j], t[k]); }
      }
    }
  }

  lemma ClearKeepsFirstMatch(t: Table, s: nat)
    requires FirstMatch(t) && Slot(s)
    ensures FirstMatch(t[s := Cleared(t[s])])
  {
    var u := t[s := Cleared(t[s])];
    forall j, k | 2 <= j < k < TABLE_SLOTS && Live(u[k])
      ensures !CarriesKeyOf(u[j], u[k])
    {
      assert !CarriesKeyOf(t[j], t[k]);
    }
  }

  // ---------- the file map ----------

  predicate HoldsFile(e: Entry, name: Name, ext: Ext) { Live(e) && !IsDir(e) && SameKey(e, name, ext) }

  function FileSlot(t: Table, name: Name, ext: Ext, i: nat): (s: nat)
    requires i <= TABLE_SLOTS
    ensures i <= s <= TABLE_SLOTS
    ensures s < TABLE_SLOTS ==> HoldsFile(t[s], name, ext)
    ensures forall k :: i <= k < s ==> !HoldsFile(t[k], name, ext)
    decreases TABLE_SLOTS - i
  {
    if i == TABLE_SLOTS || HoldsFile(t[i], name, ext) then i else FileSlot(t, name, ext, i + 1)
  }

  /** The live file with this key in directory `d`, if there is one. */
  ghost function FileAt(v: Volume, d: nat, name: Name, ext: Ext): Option<StoredFile>
    requires Sized(v) && d < CLUSTER_MAP_SIZE
  {
    var s := FileSlot(v.tables[d], name, ext, 2);
    if s == TABLE_SLOTS then None
    else Some(StoredFile(v.tables[d][s].filesize, Contents(v, v.tables[d][s])))
  }

  /** A key names at most one live file. */
  lemma OneSlotPerKey(t: Table, name: Name, ext: Ext, s: nat)
    requires FilesFirst(t) && Slot(s) && HoldsFile(t[s], name, ext)
    ensures FileSlot(t, name, ext, 2) == s
  {
    var i := FileSlot(t, name, ext, 2);
    assert i < s ==> CarriesKeyOf(t[i], t[s]);
  }

  // ---------- read ----------

  lemma {:induction false} ToEofIsChain(f: Fat, r: seq<nat>, k: nat, n: nat)
    requires Mapped(r) && k < |r| <= n + k && forall i {:trigger Next(r, i)} :: 0 <= i < |r| ==> f[r[i]] == Next(r, i)
    ensures ReachesEof(f, r[k], n) && ToEof(f, r[k], n) == r[k..]
    decreases |r| - k
  {
    assert f[r[k]] == Next(r, k);
    if k + 1 < |r| {
      ToEofIsChain(f, r, k + 1, n - 1);
      assert r[k..] == [r[k]] + r[k + 1..];
    } else {
      assert r[k..] == [r[k]];
    }
  }

  lemma ChainIsFollowed(v: Volume, sh: Shape, d: nat, s: nat)
    requires Sound(v, sh) && d in sh.depth && d < CLUSTER_MAP_SIZE && Slot(s) && Live(v.tables[d][s])
    ensures var r := EntryChain(v, d, s); var c := First(v.tables[d][s]);
      ReachesEof(v.fat, c, CLUSTER_MAP_SIZE) && ToEof(v.fat, c, CLUSTER_MAP_SIZE) == r && Mapped(r)
  {
    hide EntriesOk, OwnersOk, DirOk, Required;
    var r: seq<nat> := EntryChain(v, d, s);
    ChainsAreProper(v, sh, d, s);
    ChainIsShort(r);
    ToEofIsChain(v.fat, r, 0, CLUSTER_MAP_SIZE);
    assert r[0..] == r;
    assert r[0] == First(v.tables[d][s]);
  }

  /** A directory entry below the file's slot carries the key: the directory's own entry, its `..` entry, or
      a subdirectory with a matching stale extension. `read` meets it first. */
  predicate Shadowed(t: Table, name: Name, ext: Ext) {
    exists i :: 0 <= i < FileSlot(t, name, ext, 2) && Live(t[i]) && IsDir(t[i]) && SameKey(t[i], name, ext)
  }

  /** `read`'s scan, which ignores liveness, stops at the file's own slot unless the key is shadowed, and then
      it stops at a directory. */
  lemma ReadSlot(t: Table, name: Name, ext: Ext)
    requires FilesFirst(t) && FileSlot(t, name, ext, 2) < TABLE_SLOTS
    requires Live(t[0]) && IsDir(t[0]) && Live(t[1]) && IsDir(t[1])
    ensures var k, s := KeySlot(t, name, ext, 0), FileSlot(t, name, ext, 2);
      if Shadowed(t, name, ext) then k < s && IsDir(t[k]) else k == s
  {
    var k, s := KeySlot(t, name, ext, 0), FileSlot(t, name, ext, 2);
    assert 2 <= k < s ==> CarriesKeyOf(t[k], t[s]);
  }

  lemma ReadBlocks(img: Image, sh: Shape, d: nat, s: nat)
    requires Sound(Mount(img), sh) && d in sh.depth && d < CLUSTER_MAP_SIZE && Slot(s) && Live(Mount(img).tables[d][s])
    ensures var v := Mount(img); var c := First(v.tables[d][s]);
      && ReachesEof(v.fat, c, CLUSTER_MAP_SIZE)
      && Blocks(img, ToEof(v.fat, c, CLUSTER_MAP_SIZE)) == Contents(v, v.tables[d][s])
  {
    hide DecodeTable, DecodeFat, Length, First, DirsOk, EntriesOk, OwnersOk;
    ChainIsFollowed(Mount(img), sh, d, s);
  }

  /** Reading a stored file: the exact outcome in every case.  In particular a large enough buffer receives
      exactly the stored clusters if and only if the key is not shadowed. */
  lemma ReadIsExact(img: Image, sh: Shape, req: Request)
    requires Sound(Mount(img), sh) && req.parent in sh.depth && req.parent < CLUSTER_MAP_SIZE
    requires FilesFirst(Mount(img).tables[req.parent])
    requires FileAt(Mount(img), req.parent, req.name, req.ext).Some?
    ensures ReadSafe(img, req)
    ensures var f := FileAt(Mount(img), req.parent, req.name, req.ext).value;
      ReadOp(img, req) ==
        if Shadowed(Mount(img).tables[req.parent], req.name, req.ext) then ReadOutcome(1, [])
        else if f.size > req.size then ReadOutcome(-1, [])
        else ReadOutcome(0, f.blocks)
  {
    hide DecodeTable, DecodeFat, Length, First, Sound, FilesFirst, Contents, Blocks, ReachesEof, ToEof, Shadowed;
    var v := Mount(img);
    var s := FileSlot(v.tables[req.parent], req.name, req.ext, 2);
    TableOfDir(v, sh, req.parent);
    ReadSlot(v.tables[req.parent], req.name, req.ext);
    ReadBlocks(img, sh, req.parent, s);
  }

  /** A key no slot carries is reported as not found. */
  lemma ReadOfUnknownKey(img: Image, sh: Shape, req: Request)
    requires Sound(Mount(img), sh) && req.parent in sh.depth && req.parent < CLUSTER_MAP_SIZE
    requires forall s :: 0 <= s < TABLE_SLOTS ==> !SameKey(Mount(img).tables[req.parent][s], req.name, req.ext)
    ensures ReadSafe(img, req) && ReadOp(img, req) == ReadOutcome(2, [])
  {
    hide DecodeTable, DecodeFat;
    assert DirOk(Mount(img), sh, req.parent);
  }

  // ---------- the map after each operation ----------

  /** Changes outside the reachable part leave the map alone. */
  lemma FilesFrame(v: Volume, w: Volume, sh: Shape, d: nat, name: Name, ext: Ext)
    requires Sound(v, sh) && SameMeta(v, w, sh) && SameData(v, w, sh) && d in sh.depth && d < CLUSTER_MAP_SIZE
    ensures FileAt(w, d, name, ext) == FileAt(v, d, name, ext)
  {
    hide Contents, Sound;
    var s := FileSlot(v.tables[d], name, ext, 2);
    if s < TABLE_SLOTS {
      OwnedInData(v, sh);
      ContentsFrame(v, w, sh, d, s);
    }
  }

  lemma GrownContents(v: Volume, w: Volume, sh: Shape, p: nat, s: nat, e: Entry, cs: seq<nat>, d: nat, i: nat)
    requires Sound(v, sh) && Grown(v, w, sh, p, s, e, cs) && SameData(v, w, sh) && d in sh.depth && d < CLUSTER_MAP_SIZE
    requires Slot(i) && Live(v.tables[d][i]) && !IsDir(v.tables[d][i])
    ensures w.tables[d][i] == v.tables[d][i] && Contents(w, v.tables[d][i]) == Contents(v, v.tables[d][i])
  {
    hide Contents, Length, First, FreshTable, DirsOk, EntriesOk, OwnersOk;
    FreeIsUnowned(v, sh, cs);
    ContentsFrame(v, w, sh, d, i);
  }

  lemma SameSlot(t: Table, u: Table, name: Name, ext: Ext)
    requires forall i :: Slot(i) ==> (HoldsFile(t[i], name, ext) <==> HoldsFile(u[i], name, ext))
    ensures FileSlot(t, name, ext, 2) == FileSlot(u, name, ext, 2)
  {
    var i, j := FileSlot(t, name, ext, 2), FileSlot(u, name, ext, 2);
    assert Slot(i) || i == TABLE_SLOTS;
    assert Slot(j) || j == TABLE_SLOTS;
  }

  /** A new file adds its key to the map; a new directory adds nothing. */
  lemma FilesGrown(v: Volume, w: Volume, sh: Shape, p: nat, s: nat, e: Entry, cs: seq<nat>, d: nat, name: Name, ext: Ext)
    requires Sound(v, sh) && Grown(v, w, sh, p, s, e, cs) && SameData(v, w, sh) && d in sh.depth && d < CLUSTER_MAP_SIZE
    requires FilesFirst(w.tables[p])
    ensures FileAt(w, d, name, ext) ==
      if d == p && HoldsFile(e, name, ext) then Some(StoredFile(e.filesize, Contents(w, e)))
      else FileAt(v, d, name, ext)
  {
    hide Contents, Length, First, FreshTable, DirsOk, EntriesOk, OwnersOk;
    if d == p && HoldsFile(e, name, ext) {
      OneSlotPerKey(w.tables[p], name, ext, s);
    } else {
      SameSlot(v.tables[d], w.tables[d], name, ext);
      var i := FileSlot(v.tables[d], name, ext, 2);
      if i < TABLE_SLOTS { GrownContents(v, w, sh, p, s, e, cs, d, i); }
    }
  }

  lemma FilesInFresh(w: Volume, d: nat, own: Name, parent: nat, name: Name, ext: Ext)
    requires Sized(w) && d < CLUSTER_MAP_SIZE && FreshTable(w.tables[d], own, parent)
    ensures FileAt(w, d, name, ext) == None
  {
    assert forall s :: Slot(s) <==> 2 <= s < TABLE_SLOTS;
  }

  /** No other slot holds a file under the cleared key. */
  lemma ClearedKeyIsGone(t: Table, s: nat)
    requires Slot(s) && Live(t[s]) && !IsDir(t[s]) && FilesFirst(t)
    ensures FileSlot(t[s := Cleared(t[s])], t[s].name, t[s].ext, 2) == TABLE_SLOTS
  {
    hide FilesFirst;
    var u := t[s := Cleared(t[s])];
    forall i | 2 <= i < TABLE_SLOTS
      ensures !HoldsFile(u[i], t[s].name, t[s].ext)
    {
      OneSlotPerKey(t, t[s].name, t[s].ext, s);
      if i != s && HoldsFile(t[i], t[s].name, t[s].ext) { OneSlotPerKey(t, t[s].name, t[s].ext, i); }
    }
  }

  /** Clearing a file's entry removes exactly its key from the map. */
  lemma FilesShrunk(v: Volume, w: Volume, sh: Shape, p: nat, s: nat, d: nat, name: Name, ext: Ext)
    requires Sound(v, sh) && Sized(w) && p in sh.depth && p < CLUSTER_MAP_SIZE && d in sh.depth && d < CLUSTER_MAP_SIZE
    requires Slot(s) && Live(v.tables[p][s]) && !IsDir(v.tables[p][s]) && FilesFirst(v.tables[p])
    requires w.tables[p] == v.tables[p][s := Cleared(v.tables[p][s])]
    requires forall b :: b in sh.depth && b != p ==> w.tables[b] == v.tables[b]
    requires w.fat == v.fat && SameData(v, w, sh)
    ensures FileAt(w, d, name, ext) ==
      if d == p && SameKey(v.tables[p][s], name, ext) then None else FileAt(v, d, name, ext)
  {
    hide Contents, Length, First, DirsOk, EntriesOk, OwnersOk, FilesFirst, FileSlot;
    var t := v.tables[d];
    if d == p && SameKey(t[s], name, ext) {
      ClearedKeyIsGone(t, s);
    } else {
      SameSlot(t, w.tables[d], name, ext);
      var i := FileSlot(t, name, ext, 2);
      if i < TABLE_SLOTS {
        ContentsFrame(v, w, sh, d, i);
      }
    }
  }
}
