/** Whole runs of the driver from format: writes, directory creations, deletes, reads, remounts and crashes
    in the middle of an operation, in any order. */
module FatRuns {
  import opened Words
  import opened FatLayout
  import opened FatShape
  import opened FatOps
  import opened FatTree
  import opened FatAtomic
  import opened FatFiles
  import opened FatLimits

  // ---------- mounting and formatting ----------

  const SIGNATURE_TEXT: string :=
    "Course          " + "Designed by     " + "Lab Sister ITB  " + "Made with <3    " + "-----------2024\n"

  /** The boot sector's signature: the text, zeros, and "Ok" in the last two bytes. */
  function SignatureByte(i: nat): u8 {
    if i < |SIGNATURE_TEXT| then SIGNATURE_TEXT[i] as int % 0x100
    else if i == BLOCK_SIZE - 2 then 'O' as int
    else if i == BLOCK_SIZE - 1 then 'k' as int
    else 0
  }

  function FsSignature(): Bytes {
    seq(BLOCK_SIZE, i requires 0 <= i < BLOCK_SIZE => SignatureByte(i))
  }

  predicate Formatted(img: Image) { img[0][..BLOCK_SIZE] == FsSignature() }

  function FormatFat(): Fat {
    seq(CLUSTER_MAP_SIZE, i requires 0 <= i < CLUSTER_MAP_SIZE =>
      if i == 0 then CLUSTER_0_VALUE else if i == 1 then CLUSTER_1_VALUE
      else if i == 2 then END_OF_FILE else EMPTY_ENTRY)
  }

  /** The three writes of `create_fat32`: signature, FAT, root table. `name` is the root's eight name bytes. */
  function Format(img: Image, garbage: Table, name: Name): Image {
    var boot: Cluster := FsSignature() + img[0][BLOCK_SIZE..];
    img[0 := boot]
       [FAT_CLUSTER := EncodeFat(FormatFat())]
       [ROOT_CLUSTER := EncodeTable(InitTable(garbage, name, ROOT_CLUSTER))]
  }

  function Initialize(img: Image, garbage: Table, name: Name): Image {
    if Formatted(img) then img else Format(img, garbage, name)
  }

  ghost const FORMATTED_SHAPE := Shape(map[], map[ROOT_CLUSTER := 0])

  lemma FormatImage(img: Image, garbage: Table, name: Name)
    ensures var v := Mount(Format(img, garbage, name));
      && Formatted(Format(img, garbage, name))
      && v.fat == FormatFat() && v.tables[ROOT_CLUSTER] == InitTable(garbage, name, ROOT_CLUSTER)
  {
    hide EncodeFat, EncodeTable, DecodeFat, DecodeTable, InitTable, FormatFat, FsSignature;
    FatRoundTrip(FormatFat());
    TableRoundTrip(InitTable(garbage, name, ROOT_CLUSTER));
  }

  lemma EmptyIsWellFormed(v: Volume, name: Name)
    requires Sized(v) && ReservedOk(v.fat) && (forall c :: 3 <= c < CLUSTER_MAP_SIZE ==> v.fat[c] == EMPTY_ENTRY)
    requires FreshTable(v.tables[ROOT_CLUSTER], name, ROOT_CLUSTER)
    ensures WellFormed(v, FORMATTED_SHAPE)
  {}

  lemma {:induction false} AllFree(f: Fat, j: nat)
    requires 3 <= j <= CLUSTER_MAP_SIZE && forall c :: j <= c < CLUSTER_MAP_SIZE ==> f[c] == EMPTY_ENTRY
    ensures |FreeFrom(f, j)| == CLUSTER_MAP_SIZE - j
    decreases CLUSTER_MAP_SIZE - j
  {
    if j < CLUSTER_MAP_SIZE { AllFree(f, j + 1); }
  }

  /** A fresh format is well formed: an empty root directory and every data cluster free. */
  lemma FormatIsWellFormed(img: Image, garbage: Table, name: Name)
    ensures var v := Mount(Format(img, garbage, name));
      && Formatted(Format(img, garbage, name))
      && WellFormed(v, FORMATTED_SHAPE) && FreshTable(v.tables[ROOT_CLUSTER], name, ROOT_CLUSTER)
      && |FreeList(v.fat)| == CLUSTER_MAP_SIZE - 3
  {
    hide Mount, DecodeFat, InitTable, Format, Formatted, WellFormed, FreshTable;
    FormatImage(img, garbage, name);
    InitTableIsFresh(garbage, name, ROOT_CLUSTER);
    AllFree(FormatFat(), 3);
    EmptyIsWellFormed(Mount(Format(img, garbage, name)), name);
  }

  // ---------- runs ----------

  /** The disk and the FAT cached in the driver. */
  datatype State = State(img: Image, cache: Fat)

  datatype Call =
    | Write(req: Request, data: Bytes, garbage: Table)
    | Delete(req: Request)
    | Read(req: Request)

  /** A call that completes, a call cut off after its first `writes` disk writes by a crash and remount, or a
      plain remount. */
  datatype Op = Do(call: Call) | Crash(call: Call, writes: nat) | Remount(garbage: Table, name: Name)

  ghost predicate Runnable(st: State, call: Call) {
    match call
    case Write(req, data, garbage) => Buffered(req, data)
    case Delete(req) => DeleteSafe(st.img, st.cache, req)
    case Read(req) => ReadSafe(st.img, req)
  }

  ghost function Result(st: State, call: Call): Outcome
    requires Runnable(st, call)
  {
    match call
    case Write(req, data, garbage) => WriteOp(st.img, req, data, garbage)
    case Delete(req) => DeleteOp(st.img, st.cache, req)
    case Read(req) =>
      // the FAT is reloaded unless the parent is rejected first
      Outcome(ReadOp(st.img, req).code, [],
              if Live(DecodeTable(st.img[req.parent])[0]) then DecodeFat(st.img[FAT_CLUSTER]) else st.cache)
  }

  ghost function Boot(img: Image): State { State(img, DecodeFat(img[FAT_CLUSTER])) }

  /** The first `writes` writes of a trace. */
  function Cut(t: seq<ClusterWrite>, writes: nat): seq<ClusterWrite> { if writes < |t| then t[..writes] else t }

  ghost function Step(st: State, op: Op): State
    requires op.Remount? || Runnable(st, op.call)
  {
    match op
    case Do(call) => State(Apply(st.img, Result(st, call).trace), Result(st, call).cache)
    case Crash(call, writes) => Boot(Apply(st.img, Cut(Result(st, call).trace, writes)))
    case Remount(garbage, name) => Boot(Initialize(st.img, garbage, name))
  }

  /** What callers must respect, each clause checkable on the disk before the call.  The parent is a directory
      of the tree, and a write whose key is not taken and for which a slot will be found has enough free clusters. */
  ghost predicate AllowedWrite(st: State, req: Request, data: Bytes, garbage: Table)
    requires Buffered(req, data)
  {
    && req.parent < CLUSTER_MAP_SIZE && Reachable(Mount(st.img), req.parent)
    && (!Duplicate(Mount(st.img).tables[req.parent], req.name, req.ext) && Chosen(st.img, req).slot != -1 ==>
         |FreeList(Mount(st.img).fat)| >= Required(req.size))
  }

  /** The first slot at which the delete stops is no directory. */
  ghost predicate AllowedDelete(st: State, req: Request) {
    && req.parent < CLUSTER_MAP_SIZE && Reachable(Mount(st.img), req.parent)
    && var t := Mount(st.img).tables[req.parent];
    && var s := DeleteSlot(t, req.name, req.ext, 1);
    && (s < TABLE_SLOTS ==> !IsDir(t[s]))
  }

  ghost predicate Allowed(st: State, call: Call) {
    && Runnable(st, call)
    && match call
       case Write(req, data, garbage) => AllowedWrite(st, req, data, garbage)
       case Delete(req) => AllowedDelete(st, req)
       case Read(req) => req.parent < CLUSTER_MAP_SIZE && Reachable(Mount(st.img), req.parent)
  }

  /** What holds between operations: the volume is sound, only directories precede a file under its key, the
      cached FAT is the one on disk, and the boot sector carries the signature. */
  ghost predicate Good(st: State, sh: Shape) {
    && Sound(Mount(st.img), sh) && Keyed(Mount(st.img), sh)
    && st.cache == Mount(st.img).fat && Formatted(st.img)
  }

  ghost predicate AllowedRun(st: State, ops: seq<Op>)
    decreases |ops|
  {
    ops == [] || ((ops[0].Remount? || Allowed(st, ops[0].call)) && AllowedRun(Step(st, ops[0]), ops[1..]))
  }

  ghost function Run(st: State, ops: seq<Op>): State
    requires AllowedRun(st, ops)
    decreases |ops|
  {
    if ops == [] then st else Run(Step(st, ops[0]), ops[1..])
  }

  predicate CrashFree(ops: seq<Op>) { forall k :: 0 <= k < |ops| ==> !ops[k].Crash? }

  // ---------- one write ----------

  ghost predicate SparesBoot(t: seq<ClusterWrite>) { OnDisk(t) && forall k :: 0 <= k < |t| ==> t[k].cluster != 0 }

  lemma {:induction false} BootUntouched(img: Image, t: seq<ClusterWrite>)
    requires SparesBoot(t)
    ensures Formatted(Apply(img, t)) == Formatted(img)
    decreases |t|
  {
    hide FsSignature;
    if t != [] { BootUntouched(img, t[..|t| - 1]); }
  }

  lemma WriteGood(st: State, sh: Shape, req: Request, data: Bytes, garbage: Table)
    requires Good(st, sh) && Buffered(req, data) && AllowedWrite(st, req, data, garbage)
    ensures WriteOp(st.img, req, data, garbage).code == 0 ==> GoodWrite(st.img, sh, req, data, garbage)
  {
    hide Allocate, DecodeFat, DecodeTable, WriteTrace, Link, Required, Sound, Formatted, FreeFrom, Duplicate, Keyed;
    ReachableIsDir(Mount(st.img), sh, req.parent);
  }

  lemma RefusedWrite(img: Image, req: Request, data: Bytes, garbage: Table)
    requires Buffered(req, data) && WriteOp(img, req, data, garbage).code != 0
    ensures var o := WriteOp(img, req, data, garbage); o.trace == [] && o.cache == Mount(img).fat
  {
    hide Allocate, DecodeFat, DecodeTable, WriteTrace, Link, Required;
  }

  lemma AcceptedSparesBoot(img: Image, sh: Shape, req: Request, data: Bytes, garbage: Table)
    requires GoodWrite(img, sh, req, data, garbage)
    ensures SparesBoot(WriteOp(img, req, data, garbage).trace)
  {
    hide WriteOp, Chosen, Created, Mount, Link, Sound, Required, EncodeFat, EncodeTable;
    AcceptedTrace(img, sh, req, data, garbage);
    var a, v := Chosen(img, req), Mount(img);
    PhasedOnDisk(WriteOp(img, req, data, garbage).trace, a.clusters, Link(v.fat, a.clusters, |a.clusters|),
                 req.parent, v.tables[req.parent][a.slot := Created(img, req)]);
  }

  lemma WriteDefined(st: State, sh: Shape, req: Request, data: Bytes, garbage: Table)
    requires Good(st, sh) && Buffered(req, data) && AllowedWrite(st, req, data, garbage)
    ensures var o := WriteOp(st.img, req, data, garbage);
      && SparesBoot(o.trace)
      && (o.code == 0 ==> GoodWrite(st.img, sh, req, data, garbage))
      && (o.code != 0 ==> o.trace == [] && o.cache == Mount(st.img).fat)
  {
    hide Good, AllowedWrite, WriteOp, Mount, GoodWrite;
    WriteGood(st, sh, req, data, garbage);
    if WriteOp(st.img, req, data, garbage).code == 0 {
      AcceptedSparesBoot(st.img, sh, req, data, garbage);
    } else {
      RefusedWrite(st.img, req, data, garbage);
    }
  }

  lemma NoDuplicateIsFresh(t: Table, name: Name, ext: Ext)
    requires !Duplicate(t, name, ext)
    ensures KeyIsFresh(t, name, ext)
  {}

  lemma FreshIsFirstMatch(t: Table, name: Name, parent: nat)
    requires FreshTable(t, name, parent)
    ensures FirstMatch(t) && FilesFirst(t)
  {
    assert forall k :: 2 <= k < TABLE_SLOTS ==> Slot(k);
  }

  lemma GrownKeyed(v: Volume, w: Volume, sh: Shape, p: nat, s: nat, e: Entry, cs: seq<nat>)
    requires Sound(v, sh) && Keyed(v, sh) && Grown(v, w, sh, p, s, e, cs) && (IsDir(e) || KeyIsFresh(v.tables[p], e.name, e.ext))
    requires forall i :: 2 <= i < s ==> Live(v.tables[p][i])
    ensures Keyed(w, GrownShape(sh, p, s, e, cs)) && FilesFirst(w.tables[p])
  {
    hide FilesFirst, FreshTable, KeyIsFresh, Sound, Length, First;
    InsertKeepsFilesFirst(v.tables[p], s, e);
    if IsDir(e) { FreshIsFirstMatch(w.tables[cs[0]], e.name, p); }
  }

  /** The key an accepted write enters: for a directory its name with the slot's stale extension. */
  ghost predicate EntersFreshKey(img: Image, req: Request)
    requires req.parent < CLUSTER_MAP_SIZE && Chosen(img, req).slot != -1
  {
    KeyIsFresh(Mount(img).tables[req.parent], Created(img, req).name, Created(img, req).ext)
  }

  lemma AcceptedKeyFresh(st: State, req: Request, data: Bytes, garbage: Table)
    requires Buffered(req, data) && req.parent < CLUSTER_MAP_SIZE && req.size > 0 && WriteOp(st.img, req, data, garbage).code == 0
    ensures Chosen(st.img, req).slot != -1 && EntersFreshKey(st.img, req)
  {
    hide Allocate, DecodeFat, DecodeTable, WriteTrace, Link, Required, KeyIsFresh, Duplicate;
    CreatedFacts(st.img, req);
    NoDuplicateIsFresh(Mount(st.img).tables[req.parent], req.name, req.ext);
  }

  ghost function ShapeAfterWrite(img: Image, sh: Shape, req: Request): Shape
    requires req.parent < CLUSTER_MAP_SIZE && req.parent in sh.depth && Chosen(img, req).slot != -1
  {
    var a := Chosen(img, req);
    GrownShape(sh, req.parent, a.slot, Created(img, req), a.clusters)
  }

  /** A completed write keeps everything that holds between operations and leaks nothing. */
  lemma WriteDone(st: State, sh: Shape, req: Request, data: Bytes, garbage: Table)
    requires Good(st, sh) && Buffered(req, data) && AllowedWrite(st, req, data, garbage) && GoodWrite(st.img, sh, req, data, garbage)
    ensures Chosen(st.img, req).slot != -1
    ensures var sh' := ShapeAfterWrite(st.img, sh, req); var st' := Step(st, Do(Write(req, data, garbage)));
      Good(st', sh') && Leaked(Mount(st'.img), sh') == Leaked(Mount(st.img), sh)
  {
    hide WriteOp, Created, Sound, Apply, DecodeFat, DecodeTable, Mount, Required, Link, Allocate, Grown, GrownShape, Chosen;
    hide AllowedWrite, Formatted, Keyed, KeyIsFresh, Leaked;
    var v := Mount(st.img);
    var w := Mount(Apply(st.img, WriteOp(st.img, req, data, garbage).trace));
    var p := req.parent;
    Commit(st.img, sh, req, data, garbage);
    AcceptedChoice(st.img, sh, req, data, garbage);
    if req.size > 0 { AcceptedKeyFresh(st, req, data, garbage); }
    CreatedFacts(st.img, req);
    var a, e := Chosen(st.img, req), Created(st.img, req);
    GrowKeepsSound(v, w, sh, p, a.slot, e, a.clusters);
    GrownKeyed(v, w, sh, p, a.slot, e, a.clusters);
    WriteCache(st.img, sh, req, data, garbage);
    WriteDefined(st, sh, req, data, garbage);
    BootUntouched(st.img, WriteOp(st.img, req, data, garbage).trace);
  }

  /** A write cut short keeps everything too, at the price of leaks. */
  lemma WriteCut(st: State, sh: Shape, req: Request, data: Bytes, garbage: Table, j: nat)
    requires Good(st, sh) && Buffered(req, data) && AllowedWrite(st, req, data, garbage) && GoodWrite(st.img, sh, req, data, garbage)
    requires j < |WriteOp(st.img, req, data, garbage).trace|
    ensures Good(Step(st, Crash(Write(req, data, garbage), j)), sh)
  {
    hide WriteOp, Created, Sound, Apply, DecodeFat, DecodeTable, Required, Link, Allocate, Chosen, AllowedWrite, Formatted, FilesFirst, GoodWrite;
    var t := WriteOp(st.img, req, data, garbage).trace;
    var w := Mount(Apply(st.img, t[..j]));
    WriteDefined(st, sh, req, data, garbage);
    BeforeCommit(st.img, sh, req, data, garbage, j);
    SoundFrame(Mount(st.img), w, sh);
    BootUntouched(st.img, t[..j]);
  }

  // ---------- one delete ----------

  lemma DeleteDefined(st: State, sh: Shape, req: Request)
    requires Good(st, sh) && DeleteSafe(st.img, st.cache, req) && AllowedDelete(st, req)
    ensures var o := DeleteOp(st.img, st.cache, req);
      && SparesBoot(o.trace)
      && (o.code == 0 <==> GoodDelete(st.img, sh, req))
      && (o.code == 0 || o.code == 1)
      && (o.code != 0 ==> o.trace == [] && o.cache == st.cache)
  {
    hide Doomed, DeleteCount, DecodeFat, DecodeTable, Sound, Erase, Formatted;
    ReachableIsDir(Mount(st.img), sh, req.parent);
    OwnedInData(Mount(st.img), sh);
  }

  lemma ShrunkKeyed(v: Volume, w: Volume, sh: Shape, p: nat, s: nat)
    requires Keyed(v, sh) && Sized(w) && p in sh.depth && p < CLUSTER_MAP_SIZE
    requires Slot(s) && Live(v.tables[p][s]) && !IsDir(v.tables[p][s])
    requires w.tables[p] == v.tables[p][s := Cleared(v.tables[p][s])]
    requires forall b :: b in sh.depth && b != p && b < CLUSTER_MAP_SIZE ==> w.tables[b] == v.tables[b]
    ensures Keyed(w, ShrunkShape(sh, p, s))
  {
    hide FilesFirst;
    ClearKeepsFilesFirst(v.tables[p], s);
  }

  ghost function ShapeAfterDelete(v: Volume, sh: Shape, req: Request): Shape
    requires Sized(v) && req.parent < CLUSTER_MAP_SIZE
  {
    ShrunkShape(sh, req.parent, DeleteSlot(v.tables[req.parent], req.name, req.ext, 1))
  }

  /** A delete keeps everything, whether it completes or stops after its first write. */
  lemma DeleteStopped(st: State, sh: Shape, req: Request, j: nat)
    requires Good(st, sh) && DeleteSafe(st.img, st.cache, req) && AllowedDelete(st, req) && GoodDelete(st.img, sh, req) && 1 <= j <= 2
    ensures var sh' := ShapeAfterDelete(Mount(st.img), sh, req);
      var img := Apply(st.img, DeleteOp(st.img, st.cache, req).trace[..j]);
      && Sound(Mount(img), sh') && Keyed(Mount(img), sh') && Formatted(img)
      && (j == 2 ==> Leaked(Mount(img), sh') == Leaked(Mount(st.img), sh) && Mount(img).fat == DeleteOp(st.img, st.cache, req).cache)
  {
    hide DeleteOp, DecodeTable, DecodeFat, DeleteTrace, EntryChain, Sound, ChangedAt, Formatted, AllowedDelete, FilesFirst, Leaked, Erase;
    var v, p := Mount(st.img), req.parent;
    var s := DeleteSlot(v.tables[p], req.name, req.ext, 1);
    var t := DeleteOp(st.img, st.cache, req).trace;
    DeleteDefined(st, sh, req);
    DeleteIsAtomic(st.img, sh, req, j);
    DeleteTarget(st.img, sh, req);
    DeleteOpTrace(st.img, sh, req);
    DeleteVolumes(st.img, p, s);
    OwnedInData(v, sh);
    ShrunkKeyed(v, Mount(Apply(st.img, t[..j])), sh, p, s);
    BootUntouched(st.img, t[..j]);
  }

  lemma DeleteDone(st: State, sh: Shape, req: Request)
    requires Good(st, sh) && DeleteSafe(st.img, st.cache, req) && AllowedDelete(st, req) && GoodDelete(st.img, sh, req)
    ensures var sh' := ShapeAfterDelete(Mount(st.img), sh, req); var st' := Step(st, Do(Delete(req)));
      Good(st', sh') && Leaked(Mount(st'.img), sh') == Leaked(Mount(st.img), sh)
  {
    hide DeleteOp, DecodeTable, DecodeFat, DeleteTrace, Sound, Formatted, AllowedDelete, Keyed, Leaked, Mount, ShapeAfterDelete, DeleteSafe;
    DeleteStopped(st, sh, req, 2);
    DeleteOpTrace(st.img, sh, req);
    var t := DeleteOp(st.img, st.cache, req).trace;
    assert t[..2] == t;
  }

  // ---------- every step, every run ----------

  ghost function ShapeAfterCall(st: State, sh: Shape, call: Call): Shape
    requires Good(st, sh) && Allowed(st, call)
  {
    if Result(st, call).code != 0 || call.Read? then sh
    else if call.Write? then
      WriteDefined(st, sh, call.req, call.data, call.garbage);
      ShapeAfterWrite(st.img, sh, call.req)
    else ShapeAfterDelete(Mount(st.img), sh, call.req)
  }

  /** How many disk writes it takes for a call to take effect: all of them for a write, the first for a delete. */
  ghost predicate Commits(st: State, call: Call, writes: nat)
    requires Runnable(st, call)
  {
    if call.Write? then writes >= |Result(st, call).trace| else writes >= 1
  }

  /** The shape after an operation, in terms of what the operation returned. */
  ghost function ShapeAfter(st: State, sh: Shape, op: Op): Shape
    requires Good(st, sh) && (op.Remount? || Allowed(st, op.call))
  {
    match op
    case Remount(_, _) => sh
    case Do(call) => ShapeAfterCall(st, sh, call)
    case Crash(call, writes) => if Commits(st, call, writes) then ShapeAfterCall(st, sh, call) else sh
  }

  lemma CallKeepsGood(st: State, sh: Shape, call: Call)
    requires Good(st, sh) && Allowed(st, call)
    ensures var sh' := ShapeAfterCall(st, sh, call); var st' := Step(st, Do(call));
      Good(st', sh') && Leaked(Mount(st'.img), sh') == Leaked(Mount(st.img), sh)
  {
    hide Sound, Keyed, Formatted, Leaked, WriteOp, DeleteOp, ReadOp, AllowedWrite, AllowedDelete, ShapeAfterWrite, ShapeAfterDelete, DecodeFat;
    match call
    case Write(req, data, garbage) =>
      WriteDefined(st, sh, req, data, garbage);
      if WriteOp(st.img, req, data, garbage).code == 0 { WriteDone(st, sh, req, data, garbage); }
    case Delete(req) =>
      DeleteDefined(st, sh, req);
      if DeleteOp(st.img, st.cache, req).code == 0 { DeleteDone(st, sh, req); }
    case Read(req) =>
  }

  lemma CrashKeepsGood(st: State, sh: Shape, call: Call, writes: nat)
    requires Good(st, sh) && Allowed(st, call)
    ensures Good(Step(st, Crash(call, writes)), ShapeAfter(st, sh, Crash(call, writes)))
  {
    hide Sound, Keyed, Formatted, WriteOp, DeleteOp, ReadOp, AllowedWrite, AllowedDelete, ShapeAfterWrite, DecodeFat, ShapeAfterDelete;
    var t := Result(st, call).trace;
    if Commits(st, call, writes) && writes >= |t| {
      CallKeepsGood(st, sh, call);
    } else {
      match call
      case Write(req, data, garbage) =>
        WriteDefined(st, sh, req, data, garbage);
        WriteCut(st, sh, req, data, garbage, writes);
      case Delete(req) =>
        DeleteDefined(st, sh, req);
        if DeleteOp(st.img, st.cache, req).code == 0 {
          DeleteOpTrace(st.img, sh, req);
          if writes == 0 { assert t[..0] == []; } else { DeleteStopped(st, sh, req, writes); }
        }
      case Read(req) =>
    }
  }

  /** One operation, whatever it is, keeps everything that holds between operations, and only a crash can
      leak clusters. */
  lemma StepKeepsGood(st: State, sh: Shape, op: Op)
    requires Good(st, sh) && (op.Remount? || Allowed(st, op.call))
    ensures var sh' := ShapeAfter(st, sh, op); var st' := Step(st, op);
      Good(st', sh') && (!op.Crash? ==> Leaked(Mount(st'.img), sh') == Leaked(Mount(st.img), sh))
  {
    hide Sound, Keyed, Leaked, Allowed, Result, Runnable, Commits, ShapeAfterCall;
    match op
    case Do(call) => CallKeepsGood(st, sh, call);
    case Crash(call, writes) => CrashKeepsGood(st, sh, call, writes);
    case Remount(_, _) =>
  }

  /** Over every run, crashes included, the volume stays sound, only directories precede a file under its key, and
      the cached FAT is the one on disk; without crashes nothing is ever leaked. */
  lemma {:induction false} RunKeepsGood(st: State, sh: Shape, ops: seq<Op>) returns (sh': Shape)
    requires Good(st, sh) && AllowedRun(st, ops)
    ensures Good(Run(st, ops), sh')
    ensures CrashFree(ops) ==> Leaked(Mount(Run(st, ops).img), sh') == Leaked(Mount(st.img), sh)
    decreases |ops|
  {
    hide Good, Leaked, Step, ShapeAfter, AllowedWrite, AllowedDelete;
    if ops == [] {
      sh' := sh;
    } else {
      StepKeepsGood(st, sh, ops[0]);
      sh' := RunKeepsGood(Step(st, ops[0]), ShapeAfter(st, sh, ops[0]), ops[1..]);
      assert CrashFree(ops) ==> !ops[0].Crash? && CrashFree(ops[1..]);
    }
  }

  lemma FormatIsGood(st: State, name: Name)
    requires Formatted(st.img) && WellFormed(Mount(st.img), FORMATTED_SHAPE) && st.cache == Mount(st.img).fat
    requires FilesFirst(Mount(st.img).tables[ROOT_CLUSTER])
    ensures Good(st, FORMATTED_SHAPE)
  {
    hide Sound, FilesFirst, Leaked, Formatted;
  }

  lemma FormatGood(img: Image, garbage: Table, name: Name)
    ensures Good(Boot(Format(img, garbage, name)), FORMATTED_SHAPE)
    ensures Matched(Mount(Format(img, garbage, name)), FORMATTED_SHAPE)
  {
    hide Format, Formatted, WellFormed, FirstMatch, FilesFirst, Sound;
    var st := Boot(Format(img, garbage, name));
    FormatIsWellFormed(img, garbage, name);
    FreshIsFirstMatch(Mount(st.img).tables[ROOT_CLUSTER], name, ROOT_CLUSTER);
    FormatIsGood(st, name);
  }

  /** From a fresh format: every run leaves a sound volume, and every crash-free run a well-formed one. */
  lemma RunsFromFormat(img: Image, garbage: Table, name: Name, ops: seq<Op>) returns (sh: Shape)
    requires AllowedRun(Boot(Format(img, garbage, name)), ops)
    ensures Good(Run(Boot(Format(img, garbage, name)), ops), sh)
    ensures CrashFree(ops) ==> WellFormed(Mount(Run(Boot(Format(img, garbage, name)), ops).img), sh)
  {
    hide Format, Keyed, AllowedRun, Run;
    FormatIsWellFormed(img, garbage, name);
    FormatGood(img, garbage, name);
    sh := RunKeepsGood(Boot(Format(img, garbage, name)), FORMATTED_SHAPE, ops);
    hide Sound, Leaked;
  }

  // ---------- refinement to a map ----------

  datatype Key = Key(dir: nat, name: Name, ext: Ext)
  type Files = map<Key, StoredFile>

  /** What an effective call does to the map. */
  ghost function Effect(call: Call, code: int, files: Files): Files
    requires call.Write? ==> Buffered(call.req, call.data)
  {
    if code != 0 then files
    else
      var key := Key(call.req.parent, call.req.name, call.req.ext);
      match call
      case Write(req, data, _) =>
        if req.size == 0 then files else files[key := StoredFile(req.size, Requested(req, data).blocks)]
      case Delete(_) => files - {key}
      case Read(_) => files
  }

  ghost function FilesAfter(st: State, op: Op, files: Files): Files
    requires op.Remount? || Runnable(st, op.call)
  {
    match op
    case Remount(_, _) => files
    case Do(call) => Effect(call, Result(st, call).code, files)
    case Crash(call, writes) => if Commits(st, call, writes) then Effect(call, Result(st, call).code, files) else files
  }

  ghost function FilesAfterRun(st: State, ops: seq<Op>, files: Files): Files
    requires AllowedRun(st, ops)
    decreases |ops|
  {
    if ops == [] then files
    else FilesAfterRun(Step(st, ops[0]), ops[1..], FilesAfter(st, ops[0], files))
  }

  function Lookup(files: Files, key: Key): Option<StoredFile> {
    if key in files then Some(files[key]) else None
  }

  /** The disk stores exactly the files of the map, in every directory of the tree. */
  ghost predicate Stores(v: Volume, sh: Shape, files: Files) {
    && Sized(v)
    && (forall key :: key in files ==> key.dir in sh.depth)
    && (forall d, n, x :: d in sh.depth && d < CLUSTER_MAP_SIZE ==> FileAt(v, d, n, x) == Lookup(files, Key(d, n, x)))
  }

  lemma StoresFrame(v: Volume, w: Volume, sh: Shape, files: Files)
    requires Sound(v, sh) && SameMeta(v, w, sh) && SameData(v, w, sh) && Stores(v, sh, files)
    ensures Stores(w, sh, files)
  {
    hide Sound, FileAt;
    forall d, n, x | d in sh.depth && d < CLUSTER_MAP_SIZE
      ensures FileAt(w, d, n, x) == Lookup(files, Key(d, n, x))
    {
      FilesFrame(v, w, sh, d, n, x);
    }
  }

  lemma StoresGrown(v: Volume, w: Volume, sh: Shape, p: nat, s: nat, e: Entry, cs: seq<nat>, files: Files)
    requires Sound(v, sh) && Grown(v, w, sh, p, s, e, cs) && SameData(v, w, sh) && Stores(v, sh, files)
    requires FilesFirst(w.tables[p])
    ensures Stores(w, GrownShape(sh, p, s, e, cs),
      if IsDir(e) then files else files[Key(p, e.name, e.ext) := StoredFile(e.filesize, Contents(w, e))])
  {
    hide Sound, FileAt, FilesFirst, Contents, FreshTable, Length, First;
    var files' := if IsDir(e) then files else files[Key(p, e.name, e.ext) := StoredFile(e.filesize, Contents(w, e))];
    FreeIsUnowned(v, sh, cs);
    var sh' := GrownShape(sh, p, s, e, cs);
    forall d, n, x | d in sh'.depth && d < CLUSTER_MAP_SIZE
      ensures FileAt(w, d, n, x) == Lookup(files', Key(d, n, x))
    {
      if d in sh.depth {
        FilesGrown(v, w, sh, p, s, e, cs, d, n, x);
      } else {
        FilesInFresh(w, d, e.name, p, n, x);
      }
    }
  }

  lemma StoresShrunk(v: Volume, w: Volume, sh: Shape, p: nat, s: nat, files: Files)
    requires Sound(v, sh) && Sized(w) && p in sh.depth && p < CLUSTER_MAP_SIZE && Stores(v, sh, files)
    requires Slot(s) && Live(v.tables[p][s]) && !IsDir(v.tables[p][s]) && FilesFirst(v.tables[p])
    requires w.tables[p] == v.tables[p][s := Cleared(v.tables[p][s])]
    requires forall b :: b in sh.depth && b != p && b < CLUSTER_MAP_SIZE ==> w.tables[b] == v.tables[b]
    requires w.fat == v.fat && SameData(v, w, sh)
    ensures Stores(w, ShrunkShape(sh, p, s), files - {Key(p, v.tables[p][s].name, v.tables[p][s].ext)})
  {
    hide DirOk, EntriesOk, OwnersOk, FileAt, FilesFirst;
    var e := v.tables[p][s];
    var files' := files - {Key(p, e.name, e.ext)};
    forall d, n, x | d in sh.depth && d < CLUSTER_MAP_SIZE
      ensures FileAt(w, d, n, x) == Lookup(files', Key(d, n, x))
    {
      FilesShrunk(v, w, sh, p, s, d, n, x);
    }
  }

  lemma WriteStores(st: State, sh: Shape, req: Request, data: Bytes, garbage: Table, files: Files)
    requires Good(st, sh) && Buffered(req, data) && AllowedWrite(st, req, data, garbage) && GoodWrite(st.img, sh, req, data, garbage)
    requires Stores(Mount(st.img), sh, files)
    ensures Chosen(st.img, req).slot != -1
    ensures Stores(Mount(Apply(st.img, WriteOp(st.img, req, data, garbage).trace)), ShapeAfterWrite(st.img, sh, req),
                   Effect(Write(req, data, garbage), 0, files))
  {
    hide WriteOp, Created, Sound, Apply, DecodeFat, DecodeTable, Mount, Required, Link, Allocate, GrownShape, Chosen;
    hide AllowedWrite, Formatted, KeyIsFresh, Stores, Keyed, FilesFirst, Contents;
    var v, w := Mount(st.img), Mount(Apply(st.img, WriteOp(st.img, req, data, garbage).trace));
    Commit(st.img, sh, req, data, garbage);
    CommitNode(st.img, sh, req, data, garbage);
    AcceptedChoice(st.img, sh, req, data, garbage);
    if req.size > 0 { AcceptedKeyFresh(st, req, data, garbage); }
    CreatedFacts(st.img, req);
    var a, e := Chosen(st.img, req), Created(st.img, req);
    GrownKeyed(v, w, sh, req.parent, a.slot, e, a.clusters);
    StoresGrown(v, w, sh, req.parent, a.slot, e, a.clusters, files);
  }

  lemma WriteCutStores(st: State, sh: Shape, req: Request, data: Bytes, garbage: Table, j: nat, files: Files)
    requires Good(st, sh) && GoodWrite(st.img, sh, req, data, garbage) && Stores(Mount(st.img), sh, files)
    requires j < |WriteOp(st.img, req, data, garbage).trace|
    ensures Stores(Mount(Apply(st.img, WriteOp(st.img, req, data, garbage).trace[..j])), sh, files)
  {
    hide WriteOp, Sound, Apply, Mount, Stores, SameMeta, SameData;
    BeforeCommit(st.img, sh, req, data, garbage, j);
    StoresFrame(Mount(st.img), Mount(Apply(st.img, WriteOp(st.img, req, data, garbage).trace[..j])), sh, files);
  }

  lemma DeleteMeta(v: Volume, w1: Volume, w2: Volume, sh: Shape, p: nat, s: nat)
    requires Sound(v, sh) && Sized(w1) && Sized(w2) && p in sh.depth && p < CLUSTER_MAP_SIZE
    requires Slot(s) && Live(v.tables[p][s]) && !IsDir(v.tables[p][s])
    requires Mapped(EntryChain(v, p, s)) && w1.fat == v.fat && w2.fat == Erase(v.fat, EntryChain(v, p, s), |EntryChain(v, p, s)|)
    requires w1.tables[p] == w2.tables[p] == v.tables[p][s := Cleared(v.tables[p][s])]
    requires forall c :: 2 <= c < DISK_CLUSTERS && c != p ==>
      w1.tables[c] == w2.tables[c] == v.tables[c] && w1.data[c] == w2.data[c] == v.data[c]
    ensures var sh' := ShrunkShape(sh, p, s); Sound(w1, sh') && SameMeta(w1, w2, sh') && SameData(w1, w2, sh')
  {
    hide DirOk, EntriesOk, OwnersOk;
    var r: seq<nat> := EntryChain(v, p, s);
    OwnedInData(v, sh);
    ShrinkKeepsSound(v, w1, sh, p, s);
    ChainsAreProper(v, sh, p, s);
    EraseValues(v.fat, r, |r|);
    assert r[..|r|] == r;
  }

  /** The slot a file delete stops at holds the requested key. */
  lemma DeletedKey(v: Volume, p: nat, req: Request)
    requires Sized(v) && p < CLUSTER_MAP_SIZE
    ensures var t := v.tables[p]; var s := DeleteSlot(t, req.name, req.ext, 1);
      s < TABLE_SLOTS && !IsDir(t[s]) ==> t[s].name == req.name && t[s].ext == req.ext
  {}

  lemma TwoStageStores(v: Volume, w1: Volume, w2: Volume, sh: Shape, p: nat, s: nat, files: Files)
    requires Sound(v, sh) && Sized(w1) && Sized(w2) && p in sh.depth && p < CLUSTER_MAP_SIZE && FilesFirst(v.tables[p])
    requires Slot(s) && Live(v.tables[p][s]) && !IsDir(v.tables[p][s]) && Stores(v, sh, files)
    requires Mapped(EntryChain(v, p, s)) && w1.fat == v.fat && w2.fat == Erase(v.fat, EntryChain(v, p, s), |EntryChain(v, p, s)|)
    requires w1.tables[p] == w2.tables[p] == v.tables[p][s := Cleared(v.tables[p][s])]
    requires forall c :: 2 <= c < DISK_CLUSTERS && c != p ==>
      w1.tables[c] == w2.tables[c] == v.tables[c] && w1.data[c] == w2.data[c] == v.data[c]
    ensures var files' := files - {Key(p, v.tables[p][s].name, v.tables[p][s].ext)};
      Stores(w1, ShrunkShape(sh, p, s), files') && Stores(w2, ShrunkShape(sh, p, s), files')
  {
    hide EntryChain, DirOk, EntriesOk, OwnersOk, FilesFirst, Erase, Stores, Cleared;
    var files' := files - {Key(p, v.tables[p][s].name, v.tables[p][s].ext)};
    OwnedInData(v, sh);
    StoresShrunk(v, w1, sh, p, s, files);
    DeleteMeta(v, w1, w2, sh, p, s);
    StoresFrame(w1, w2, ShrunkShape(sh, p, s), files');
  }

  lemma DeleteStores(st: State, sh: Shape, req: Request, j: nat, files: Files)
    requires Good(st, sh) && DeleteSafe(st.img, st.cache, req) && AllowedDelete(st, req) && GoodDelete(st.img, sh, req) && 1 <= j <= 2
    requires Stores(Mount(st.img), sh, files)
    ensures Stores(Mount(Apply(st.img, DeleteOp(st.img, st.cache, req).trace[..j])), ShapeAfterDelete(Mount(st.img), sh, req),
                   Effect(Delete(req), 0, files))
  {
    hide DeleteOp, DecodeTable, DecodeFat, EntryChain, DeleteTrace, Sound, DeleteSlot, Apply, SameData, Mapped;
    hide Formatted, AllowedDelete, FilesFirst, Erase, Stores, DeleteSafe;
    var v, p := Mount(st.img), req.parent;
    var s := DeleteSlot(v.tables[p], req.name, req.ext, 1);
    DeleteTarget(st.img, sh, req);
    DeleteOpTrace(st.img, sh, req);
    DeleteVolumes(st.img, p, s);
    var t := DeleteTrace(v, p, s);
    OwnedInData(v, sh);
    TwoStageStores(v, Mount(Apply(st.img, t[..1])), Mount(Apply(st.img, t[..2])), sh, p, s, files);
    DeletedKey(v, p, req);
  }

  lemma RemountKeeps(st: State, sh: Shape, op: Op)
    requires Good(st, sh) && op.Remount?
    ensures Step(st, op).img == st.img
  {
    hide Sound, Keyed, Mount, FsSignature;
  }

  lemma NoWrites(img: Image)
    ensures Apply(img, []) == img
  {}

  lemma DeleteCallStores(st: State, sh: Shape, req: Request, files: Files)
    requires Good(st, sh) && Allowed(st, Delete(req)) && Stores(Mount(st.img), sh, files)
    ensures Stores(Mount(Step(st, Do(Delete(req))).img), ShapeAfterCall(st, sh, Delete(req)), Effect(Delete(req), Result(st, Delete(req)).code, files))
  {
    hide Sound, Keyed, Formatted, DeleteOp, DeleteSafe, AllowedDelete, ShapeAfterDelete, DecodeFat, Stores, Mount, Apply;
    DeleteDefined(st, sh, req);
    var t := DeleteOp(st.img, st.cache, req).trace;
    if DeleteOp(st.img, st.cache, req).code == 0 {
      DeleteOpTrace(st.img, sh, req);
      assert t[..2] == t;
      DeleteStores(st, sh, req, 2, files);
    } else {
      NoWrites(st.img);
    }
  }

  lemma CallStores(st: State, sh: Shape, call: Call, files: Files)
    requires Good(st, sh) && Allowed(st, call) && Stores(Mount(st.img), sh, files)
    ensures Stores(Mount(Step(st, Do(call)).img), ShapeAfterCall(st, sh, call), Effect(call, Result(st, call).code, files))
  {
    hide Sound, Keyed, Formatted, WriteOp, DeleteOp, ReadOp, AllowedWrite, AllowedDelete, ShapeAfterWrite, ShapeAfterDelete, DecodeFat, Stores, Mount;
    match call
    case Write(req, data, garbage) =>
      WriteDefined(st, sh, req, data, garbage);
      if WriteOp(st.img, req, data, garbage).code == 0 { WriteStores(st, sh, req, data, garbage, files); }
    case Delete(req) => DeleteCallStores(st, sh, req, files);
    case Read(req) =>
  }

  lemma StepStores(st: State, sh: Shape, op: Op, files: Files)
    requires Good(st, sh) && (op.Remount? || Allowed(st, op.call)) && Stores(Mount(st.img), sh, files)
    ensures Stores(Mount(Step(st, op).img), ShapeAfter(st, sh, op), FilesAfter(st, op, files))
  {
    hide Sound, Keyed, Formatted, WriteOp, DeleteOp, ReadOp, AllowedWrite, AllowedDelete, ShapeAfterWrite, ShapeAfterDelete, DecodeFat, Stores, Mount;
    match op
    case Remount(_, _) => RemountKeeps(st, sh, op);
    case Do(call) => CallStores(st, sh, call, files);
    case Crash(call, writes) =>
      if Commits(st, call, writes) && writes >= |Result(st, call).trace| {
        CallStores(st, sh, call, files);
      } else {
        match call
        case Write(req, data, garbage) =>
          WriteDefined(st, sh, req, data, garbage);
          WriteCutStores(st, sh, req, data, garbage, writes, files);
        case Delete(req) =>
          DeleteDefined(st, sh, req);
          if DeleteOp(st.img, st.cache, req).code == 0 {
            DeleteOpTrace(st.img, sh, req);
            if writes == 0 { assert DeleteOp(st.img, st.cache, req).trace[..0] == []; }
            else { DeleteStores(st, sh, req, writes, files); }
          }
        case Read(req) =>
      }
  }

  /** The driver refines the map: over every run, crashes included, the disk stores exactly the files that
      the accepted calls put into the map and left there. */
  lemma {:induction false} RunRefinesMap(st: State, sh: Shape, ops: seq<Op>, files: Files) returns (sh': Shape)
    requires Good(st, sh) && AllowedRun(st, ops) && Stores(Mount(st.img), sh, files)
    ensures Good(Run(st, ops), sh') && Stores(Mount(Run(st, ops).img), sh', FilesAfterRun(st, ops, files))
    decreases |ops|
  {
    hide Good, Step, ShapeAfter, AllowedWrite, AllowedDelete, Stores, FilesAfter;
    if ops == [] {
      sh' := sh;
    } else {
      StepKeepsGood(st, sh, ops[0]);
      StepStores(st, sh, ops[0], files);
      sh' := RunRefinesMap(Step(st, ops[0]), ShapeAfter(st, sh, ops[0]), ops[1..], FilesAfter(st, ops[0], files));
    }
  }

  /** A delete succeeds exactly when the map holds the key. */
  lemma DeleteCodeIsExact(st: State, sh: Shape, req: Request, files: Files)
    requires Good(st, sh) && Allowed(st, Delete(req)) && Stores(Mount(st.img), sh, files)
    ensures DeleteOp(st.img, st.cache, req).code == if Key(req.parent, req.name, req.ext) in files then 0 else 1
  {
    hide Sound, Keyed, Formatted, Doomed, DeleteCount, Erase, DecodeTable, DecodeFat, Contents, AllowedWrite;
    var v := Mount(st.img);
    var t := v.tables[req.parent];
    ReachableIsDir(v, sh, req.parent);
    TableOfDir(v, sh, req.parent);
    var i, s := FileSlot(t, req.name, req.ext, 2), DeleteSlot(t, req.name, req.ext, 1);
    assert FileAt(v, req.parent, req.name, req.ext) == Lookup(files, Key(req.parent, req.name, req.ext));
    assert i < TABLE_SLOTS ==> DeleteStops(t[i], req.name, req.ext);
    assert 2 <= s < TABLE_SLOTS && !IsDir(t[s]) ==> HoldsFile(t[s], req.name, req.ext);
  }

  /** A write never replaces a file, and with enough free clusters it is refused exactly for a taken key (1)
      or a full table (-1). */
  lemma WriteCodeIsExact(st: State, sh: Shape, req: Request, data: Bytes, garbage: Table, files: Files)
    requires Good(st, sh) && Allowed(st, Write(req, data, garbage)) && Stores(Mount(st.img), sh, files)
    ensures var code := WriteOp(st.img, req, data, garbage).code; var t := Mount(st.img).tables[req.parent];
      && (Key(req.parent, req.name, req.ext) in files ==> code == 1)
      && (code == 1 <==> !KeyIsFresh(t, req.name, req.ext))
      && (|FreeList(Mount(st.img).fat)| >= Required(req.size) ==>
           (code == -1 <==> KeyIsFresh(t, req.name, req.ext) && forall s :: Slot(s) ==> Live(t[s])))
  {
    hide Sound, Keyed, Formatted, Allocate, WriteTrace, DecodeTable, DecodeFat, Contents, Required, AllowedDelete;
    var v := Mount(st.img);
    var t := v.tables[req.parent];
    ReachableIsDir(v, sh, req.parent);
    TableOfDir(v, sh, req.parent);
    var i := FileSlot(t, req.name, req.ext, 2);
    assert FileAt(v, req.parent, req.name, req.ext) == Lookup(files, Key(req.parent, req.name, req.ext));
    assert i < TABLE_SLOTS ==> Live(t[i]) && SameKey(t[i], req.name, req.ext);
    assert Duplicate(t, req.name, req.ext) <==> !KeyIsFresh(t, req.name, req.ext);
    if |FreeList(v.fat)| >= Required(req.size) { AllocateLowest(t, v.fat, req.size); }
  }

  /** What `read` returns at the end of any run is what the map holds: exactly the padded clusters last
      written under the key, unless the directory's own name or `..` shadows it or the buffer is too small. */
  lemma ReadAfterRun(st: State, sh: Shape, ops: seq<Op>, files: Files, req: Request)
    requires Good(st, sh) && AllowedRun(st, ops) && Stores(Mount(st.img), sh, files)
    requires Key(req.parent, req.name, req.ext) in FilesAfterRun(st, ops, files)
    ensures req.parent < CLUSTER_MAP_SIZE && ReadSafe(Run(st, ops).img, req)
    ensures var f := FilesAfterRun(st, ops, files)[Key(req.parent, req.name, req.ext)];
      ReadOp(Run(st, ops).img, req) ==
        if Shadowed(Mount(Run(st, ops).img).tables[req.parent], req.name, req.ext) then ReadOutcome(1, [])
        else if f.size > req.size then ReadOutcome(-1, [])
        else ReadOutcome(0, f.blocks)
  {
    hide Sound, FileAt, FilesFirst, AllowedRun, Run, FilesAfterRun, Shadowed, ReadOp, ReadSafe, Mount, Formatted;
    var sh' := RunRefinesMap(st, sh, ops, files);
    OwnedInData(Mount(Run(st, ops).img), sh');
    ReadIsExact(Run(st, ops).img, sh', req);
  }

  // ---------- the stricter first-match rule ----------

  /** The operation creates a directory whose name, with the stale extension of its slot, is the key of a live
      entry. */
  ghost predicate Collides(st: State, op: Op)
    requires op.Remount? || Runnable(st, op.call)
  {
    !op.Remount? && op.call.Write? && op.call.req.size == 0 && Result(st, op.call).code == 0
    && (op.Crash? ==> Commits(st, op.call, op.writes))
    && op.call.req.parent < CLUSTER_MAP_SIZE && Chosen(st.img, op.call.req).slot != -1
    && !EntersFreshKey(st.img, op.call.req)
  }

  lemma GrownMatchedIff(v: Volume, w: Volume, sh: Shape, p: nat, s: nat, e: Entry, cs: seq<nat>)
    requires Sound(v, sh) && Matched(v, sh) && Grown(v, w, sh, p, s, e, cs)
    requires forall i :: 2 <= i < s ==> Live(v.tables[p][i])
    ensures p < CLUSTER_MAP_SIZE
    ensures Matched(w, GrownShape(sh, p, s, e, cs)) <==> KeyIsFresh(v.tables[p], e.name, e.ext)
  {
    hide FirstMatch, FreshTable, KeyIsFresh, Sound, Length, First;
    InsertKeepsFirstMatch(v.tables[p], s, e);
    if IsDir(e) { FreshIsFirstMatch(w.tables[cs[0]], e.name, p); }
  }

  lemma WriteMatchedIff(st: State, sh: Shape, req: Request, data: Bytes, garbage: Table)
    requires Good(st, sh) && Matched(Mount(st.img), sh) && GoodWrite(st.img, sh, req, data, garbage) && req.parent < CLUSTER_MAP_SIZE
    ensures Chosen(st.img, req).slot != -1
    ensures Matched(Mount(Apply(st.img, WriteOp(st.img, req, data, garbage).trace)), ShapeAfterWrite(st.img, sh, req))
      <==> EntersFreshKey(st.img, req)
  {
    hide WriteOp, Created, Sound, Apply, DecodeFat, DecodeTable, Mount, Required, Link, Allocate, GrownShape, Chosen;
    hide AllowedWrite, Formatted, KeyIsFresh, Keyed, Matched;
    Commit(st.img, sh, req, data, garbage);
    AcceptedChoice(st.img, sh, req, data, garbage);
    var a := Chosen(st.img, req);
    GrownMatchedIff(Mount(st.img), Mount(Apply(st.img, WriteOp(st.img, req, data, garbage).trace)), sh,
                    req.parent, a.slot, Created(st.img, req), a.clusters);
  }

  lemma MatchedFrame(v: Volume, w: Volume, sh: Shape)
    requires Sound(v, sh) && SameMeta(v, w, sh) && Matched(v, sh)
    ensures Matched(w, sh)
  {
    hide FirstMatch, Sound;
  }

  lemma ShrunkMatched(v: Volume, w: Volume, sh: Shape, p: nat, s: nat)
    requires Matched(v, sh) && Sized(w) && p in sh.depth && p < CLUSTER_MAP_SIZE && Slot(s)
    requires w.tables[p] == v.tables[p][s := Cleared(v.tables[p][s])]
    requires forall b :: b in sh.depth && b != p && b < CLUSTER_MAP_SIZE ==> w.tables[b] == v.tables[b]
    ensures Matched(w, ShrunkShape(sh, p, s))
  {
    hide FirstMatch;
    ClearKeepsFirstMatch(v.tables[p], s);
  }

  /** The tables after a prefix of a delete's writes. */
  lemma DeleteTables(st: State, sh: Shape, req: Request, j: nat)
    requires Good(st, sh) && GoodDelete(st.img, sh, req) && 1 <= j <= 2
    ensures DeleteSafe(st.img, st.cache, req) && req.parent < CLUSTER_MAP_SIZE && |DeleteOp(st.img, st.cache, req).trace| == 2
    ensures var v, w := Mount(st.img), Mount(Apply(st.img, DeleteOp(st.img, st.cache, req).trace[..j]));
      var s := DeleteSlot(v.tables[req.parent], req.name, req.ext, 1);
      && Slot(s) && w.tables[req.parent] == v.tables[req.parent][s := Cleared(v.tables[req.parent][s])]
      && forall b :: b in sh.depth && b != req.parent && b < CLUSTER_MAP_SIZE ==> w.tables[b] == v.tables[b]
  {
    hide DeleteOp, DeleteSafe, DecodeTable, DecodeFat, DeleteTrace, EntryChain, Sound, Formatted, Erase, DeleteSlot, Keyed, Apply, Cleared;
    var v, p := Mount(st.img), req.parent;
    DeleteTarget(st.img, sh, req);
    DeleteOpTrace(st.img, sh, req);
    DeleteVolumes(st.img, p, DeleteSlot(v.tables[p], req.name, req.ext, 1));
    OwnedInData(v, sh);
  }

  lemma DeleteMatched(st: State, sh: Shape, req: Request, j: nat)
    requires Good(st, sh) && Matched(Mount(st.img), sh) && DeleteSafe(st.img, st.cache, req) && AllowedDelete(st, req)
    requires GoodDelete(st.img, sh, req) && 1 <= j <= 2
    ensures Matched(Mount(Apply(st.img, DeleteOp(st.img, st.cache, req).trace[..j])), ShapeAfterDelete(Mount(st.img), sh, req))
  {
    hide DeleteOp, DeleteSafe, Sound, Formatted, AllowedDelete, Matched, Keyed, Mount, Apply, DeleteSlot, Cleared, ShrunkShape;
    var v, p := Mount(st.img), req.parent;
    DeleteTables(st, sh, req, j);
    ShrunkMatched(v, Mount(Apply(st.img, DeleteOp(st.img, st.cache, req).trace[..j])), sh, p, DeleteSlot(v.tables[p], req.name, req.ext, 1));
  }

  lemma WriteParent(st: State, req: Request, data: Bytes, garbage: Table)
    requires Allowed(st, Write(req, data, garbage))
    ensures req.parent < CLUSTER_MAP_SIZE
  {}

  lemma CallMatchedIff(st: State, sh: Shape, call: Call)
    requires Good(st, sh) && Allowed(st, call) && Matched(Mount(st.img), sh)
    ensures Matched(Mount(Step(st, Do(call)).img), ShapeAfterCall(st, sh, call)) <==> !Collides(st, Do(call))
  {
    hide Sound, Keyed, Matched, Formatted, WriteOp, DeleteOp, ReadOp, AllowedWrite, AllowedDelete, ShapeAfterWrite, ShapeAfterDelete;
    hide DecodeFat, Mount, EntersFreshKey, Chosen;
    match call
    case Write(req, data, garbage) =>
      WriteDefined(st, sh, req, data, garbage);
      if WriteOp(st.img, req, data, garbage).code == 0 {
        WriteParent(st, req, data, garbage);
        WriteMatchedIff(st, sh, req, data, garbage);
        if req.size > 0 { AcceptedKeyFresh(st, req, data, garbage); }
      }
    case Delete(req) =>
      DeleteDefined(st, sh, req);
      if DeleteOp(st.img, st.cache, req).code == 0 {
        DeleteOpTrace(st.img, sh, req);
        var t := DeleteOp(st.img, st.cache, req).trace;
        assert t[..2] == t;
        DeleteMatched(st, sh, req, 2);
      }
    case Read(req) =>
  }

  /** One operation keeps the rule that the first slot carrying a live entry's key is its own if and only if
      it does not create a colliding directory. */
  lemma StepKeepsFirstMatchIff(st: State, sh: Shape, op: Op)
    requires Good(st, sh) && (op.Remount? || Allowed(st, op.call)) && Matched(Mount(st.img), sh)
    ensures Matched(Mount(Step(st, op).img), ShapeAfter(st, sh, op)) <==> !Collides(st, op)
  {
    hide Sound, Keyed, Matched, Formatted, WriteOp, DeleteOp, ReadOp, AllowedWrite, AllowedDelete, ShapeAfterWrite, ShapeAfterDelete;
    hide DecodeFat, Mount, EntersFreshKey, Chosen;
    match op
    case Remount(_, _) => RemountKeeps(st, sh, op);
    case Do(call) => CallMatchedIff(st, sh, call);
    case Crash(call, writes) =>
      if Commits(st, call, writes) && writes >= |Result(st, call).trace| {
        CallMatchedIff(st, sh, call);
      } else {
        match call
        case Write(req, data, garbage) =>
          WriteDefined(st, sh, req, data, garbage);
          BeforeCommit(st.img, sh, req, data, garbage, writes);
          MatchedFrame(Mount(st.img), Mount(Apply(st.img, WriteOp(st.img, req, data, garbage).trace[..writes])), sh);
        case Delete(req) =>
          DeleteDefined(st, sh, req);
          if DeleteOp(st.img, st.cache, req).code == 0 {
            DeleteOpTrace(st.img, sh, req);
            if writes == 0 { assert DeleteOp(st.img, st.cache, req).trace[..0] == []; }
            else { DeleteMatched(st, sh, req, writes); }
          }
        case Read(req) =>
      }
  }

  /** No operation of the run creates a colliding directory. */
  ghost predicate CollisionFree(st: State, ops: seq<Op>)
    requires AllowedRun(st, ops)
    decreases |ops|
  {
    ops == [] || (!Collides(st, ops[0]) && CollisionFree(Step(st, ops[0]), ops[1..]))
  }

  /** First match over runs: in every directory reached, no slot before a live one, live, deleted or never
      used, carries the live slot's key. */
  lemma {:induction false} RunKeepsFirstMatch(st: State, sh: Shape, ops: seq<Op>) returns (sh': Shape)
    requires Good(st, sh) && AllowedRun(st, ops) && Matched(Mount(st.img), sh) && CollisionFree(st, ops)
    ensures Good(Run(st, ops), sh') && Matched(Mount(Run(st, ops).img), sh')
    decreases |ops|
  {
    hide Good, Step, ShapeAfter, AllowedWrite, AllowedDelete, Matched, Collides;
    if ops == [] {
      sh' := sh;
    } else {
      StepKeepsGood(st, sh, ops[0]);
      StepKeepsFirstMatchIff(st, sh, ops[0]);
      sh' := RunKeepsFirstMatch(Step(st, ops[0]), ShapeAfter(st, sh, ops[0]), ops[1..]);
    }
  }

  lemma FormattedRoot(v: Volume, name: Name)
    requires Sized(v) && FreshTable(v.tables[ROOT_CLUSTER], name, ROOT_CLUSTER)
    ensures var t := v.tables[ROOT_CLUSTER];
      && Live(t[0]) && IsDir(t[0]) && (forall s :: 2 <= s < TABLE_SLOTS ==> !Live(t[s]))
      && forall n, x :: KeyIsFresh(t, n, x) && !Duplicate(t, n, x)
  {
    assert forall s :: 2 <= s < TABLE_SLOTS ==> Slot(s);
  }

  /** On a fresh format every first write into the root that needs at most the 509 data clusters is within the
      rules, and it is accepted into slot 2. */
  lemma FirstWriteIsGood(img: Image, was: Table, name: Name, req: Request, data: Bytes, garbage: Table)
    requires Buffered(req, data) && req.parent == ROOT_CLUSTER && Required(req.size) <= CLUSTER_MAP_SIZE - 3
    ensures var st := Boot(Format(img, was, name));
      && Allowed(st, Write(req, data, garbage)) && GoodWrite(st.img, FORMATTED_SHAPE, req, data, garbage)
      && Chosen(st.img, req).slot == 2
  {
    hide Format, Required, Allocate, WriteTrace, DecodeFat, DecodeTable, Sound, Leaked, NewEntry;
    var st := Boot(Format(img, was, name));
    var v := Mount(st.img);
    FormatIsWellFormed(img, was, name);
    FormattedRoot(v, name);
    AllocateLowest(v.tables[ROOT_CLUSTER], v.fat, req.size);
    assert !Live(v.tables[ROOT_CLUSTER][2]);
    assert Walk(v, ROOT_CLUSTER, []) == ROOT_CLUSTER;
  }
}
