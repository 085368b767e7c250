/** Names across the driver and the shell: `write` tells entries apart by name and extension, the walk of `cd`
    by name alone. */
module Naming {
  import opened Words
  import opened FatLayout
  import opened FatShape
  import opened FatOps
  import opened FatTree
  import opened FatAtomic
  import opened FatFiles
  import opened FatLimits
  import opened FatRuns
  import opened FatHiding
  import opened Paths
  import opened PathLaws

  lemma FirstWithName(t: Table, s: nat, e: Entry)
    requires s < TABLE_SLOTS && Live(e)
    ensures NameSlot(t[s := e], e.name, 0) == s <==> forall i :: 0 <= i < s && Live(t[i]) ==> t[i].name != e.name
  {
    var u := t[s := e];
    var n := NameSlot(u, e.name, 0);
    assert Live(u[s]) && u[s].name == e.name;
    assert forall i :: 0 <= i < s ==> u[i] == t[i];
  }

  /** A directory just created is found by its name, in its own slot, if and only if no lower live slot, the
      parent's own entry and `..` included, carries the name; that slot leads to the new cluster. */
  lemma NewDirectoryIsFoundIff(img: Image, sh: Shape, req: Request, data: Bytes, garbage: Table)
    requires Buffered(req, data) && Sound(Mount(img), sh) && req.parent in sh.depth && req.size == 0
    requires WriteOp(img, req, data, garbage).code == 0
    ensures req.parent < CLUSTER_MAP_SIZE && OnDisk(WriteOp(img, req, data, garbage).trace)
    ensures var t, u := Mount(img).tables[req.parent], Mount(Apply(img, WriteOp(img, req, data, garbage).trace)).tables[req.parent];
      var a := Chosen(img, req);
      && Slot(a.slot) && |a.clusters| == 1 && Live(u[a.slot]) && IsDir(u[a.slot]) && First(u[a.slot]) == a.clusters[0]
      && (NameSlot(u, req.name, 0) == a.slot <==> forall i :: 0 <= i < a.slot && Live(t[i]) ==> t[i].name != req.name)
  {
    hide WriteOp, Chosen, Created, Sound, Apply, DecodeFat, DecodeTable, Link;
    ChoiceIsUnowned(img, sh, req, data, garbage);
    LastWrites(img, req, data, garbage);
    CreatedFacts(img, req);
    FirstWithName(Mount(img).tables[req.parent], Chosen(img, req).slot, Created(img, req));
  }

  lemma KeptExtension(was: Table, name: Name)
    ensures InitTable(was, name, ROOT_CLUSTER)[2].ext == was[2].ext
  {}

  /** One cluster taken from an all-free FAT leaves others. */
  lemma OneLinked(f: Fat, cs: seq<nat>)
    requires f == FormatFat() && Mapped(cs) && |cs| == 1
    ensures |FreeList(Link(f, cs, 1))| >= 1
  {
    hide Link, FreeFrom;
    var c: nat := if cs[0] == 3 then 4 else 3;
    assert c !in cs[..1];
    LinkOutside(f, cs, 1, c);
    assert c in FreeList(Link(f, cs, 1));
  }

  /** The root of a fresh disk after one directory has been created in it. */
  lemma AfterFirstDirectory(img: Image, was: Table, name: Name, req: Request, garbage: Table)
    requires req.parent == ROOT_CLUSTER && req.size == 0
    ensures var st := Boot(Format(img, was, name)); var st' := Step(st, Do(Write(req, [], garbage)));
      && Allowed(st, Write(req, [], garbage)) && WriteOp(st.img, req, [], garbage).code == 0
      && (exists sh :: Good(st', sh))
      && var t := Mount(st'.img).tables[ROOT_CLUSTER];
      && Live(t[0]) && IsDir(t[0]) && Live(t[2]) && IsDir(t[2]) && t[2].name == req.name && t[2].ext == was[2].ext
      && (forall s :: 3 <= s < TABLE_SLOTS ==> !Live(t[s])) && |FreeList(Mount(st'.img).fat)| >= 1
  {
    hide Format, WriteOp, Chosen, Created, Sound, Apply, DecodeFat, DecodeTable, Link, FreeFrom, Leaked, Keyed, Formatted, FreshTable;
    hide ShapeAfterWrite, FormatFat, InitTable;
    var st := Boot(Format(img, was, name));
    FirstWriteIsGood(img, was, name, req, [], garbage);
    FormatImage(img, was, name);
    FormatGood(img, was, name);
    FormattedRoot(Mount(st.img), name) by { InitTableIsFresh(was, name, ROOT_CLUSTER); }
    WriteDone(st, FORMATTED_SHAPE, req, [], garbage);
    ChoiceIsUnowned(st.img, FORMATTED_SHAPE, req, [], garbage);
    LastWrites(st.img, req, [], garbage);
    CreatedFacts(st.img, req);
    CreatedKeepsExt(st.img, req);
    KeptExtension(was, name);
    OneLinked(Mount(st.img).fat, Chosen(st.img, req).clusters);
  }

  lemma SecondDirectory(st: State, sh: Shape, req: Request, garbage: Table, stale: Ext)
    requires Good(st, sh) && req.parent == ROOT_CLUSTER && req.size == 0 && req.ext != stale && |FreeList(Mount(st.img).fat)| >= 1
    requires var t := Mount(st.img).tables[ROOT_CLUSTER];
      && Live(t[0]) && IsDir(t[0]) && Live(t[2]) && IsDir(t[2]) && t[2].name == req.name && t[2].ext == stale
      && forall s :: 3 <= s < TABLE_SLOTS ==> !Live(t[s])
    ensures Allowed(st, Write(req, [], garbage)) && WriteOp(st.img, req, [], garbage).code == 0
    ensures Chosen(st.img, req).slot == 3
    ensures var u := Mount(Step(st, Do(Write(req, [], garbage))).img).tables[ROOT_CLUSTER];
      Live(u[3]) && IsDir(u[3]) && NameSlot(u, req.name, 0) < 3
  {
    hide Sound, Created, Apply, DecodeFat, DecodeTable, FreeFrom, Keyed, Formatted, Allocate, WriteTrace, First;
    var t := Mount(st.img).tables[ROOT_CLUSTER];
    AllocateLowest(t, Mount(st.img).fat, 0);
    assert Slot(3) && !Live(t[3]);
    assert !Duplicate(t, req.name, req.ext);
    assert Walk(Mount(st.img), ROOT_CLUSTER, []) == ROOT_CLUSTER;
    RootIsDir(Mount(st.img), sh);
    NewDirectoryIsFoundIff(st.img, sh, req, [], garbage);
    ChoiceIsUnowned(st.img, sh, req, [], garbage);
    LastWrites(st.img, req, [], garbage);
    var u := Mount(Step(st, Do(Write(req, [], garbage))).img).tables[ROOT_CLUSTER];
    assert Live(u[2]) && u[2].name == req.name;
  }

  /** The input: on a fresh disk a second directory of the same name, asked for with another extension than the
      bytes left in the first one's entry, is within the rules and accepted, and the walk never finds it. */
  lemma TwinDirectories(img: Image, was: Table, name: Name, n: Name, ext: Ext, ext': Ext, garbage: Table, garbage': Table)
    requires ext' != was[2].ext
    ensures var st := Boot(Format(img, was, name));
      var first, second := Request(n, ext, ROOT_CLUSTER, 0), Request(n, ext', ROOT_CLUSTER, 0);
      && Allowed(st, Write(first, [], garbage)) && WriteOp(st.img, first, [], garbage).code == 0
      && var st' := Step(st, Do(Write(first, [], garbage)));
      && Allowed(st', Write(second, [], garbage')) && WriteOp(st'.img, second, [], garbage').code == 0
      && Chosen(st'.img, second).slot == 3
      && var u := Mount(Step(st', Do(Write(second, [], garbage'))).img).tables[ROOT_CLUSTER];
      && Live(u[3]) && IsDir(u[3]) && NameSlot(u, n, 0) < 3
  {
    hide Format, Boot, Step, Chosen, Created, Sound, Apply, DecodeFat, DecodeTable, FreeFrom, Keyed, Formatted, Allocate, WriteTrace;
    var first, second := Request(n, ext, ROOT_CLUSTER, 0), Request(n, ext', ROOT_CLUSTER, 0);
    var st := Boot(Format(img, was, name));
    AfterFirstDirectory(img, was, name, first, garbage);
    var st' := Step(st, Do(Write(first, [], garbage)));
    var sh :| Good(st', sh);
    SecondDirectory(st', sh, second, garbage', was[2].ext);
  }

  lemma NamesOfFreshRoot(was: Table, name: Name)
    requires name[0] != 0
    ensures var t := InitTable(was, name, ROOT_CLUSTER);
      forall s :: 0 <= s < TABLE_SLOTS && Live(t[s]) ==> t[s].name != Field([])
  {
    var t := InitTable(was, name, ROOT_CLUSTER);
    assert t[0].name[0] != 0 && t[1].name[0] == '.' as int;
    assert Field([])[0] == 0;
  }

  /** The prompt's path of the root, "/", is not found on a fresh disk. */
  lemma RootPathOnFreshDisk(img: Image, was: Table, name: Name)
    requires name[0] != 0
    ensures var v := Mount(Format(img, was, name));
      Sound(v, FORMATTED_SHAPE) && Go(v, ROOT_CLUSTER, Split([SLASH])) == Arrival(2, ROOT_CLUSTER)
  {
    hide Format, Sound, DecodeFat, DecodeTable, Go, InitTable, FormatFat;
    FormatGood(img, was, name);
    FormatImage(img, was, name);
    NamesOfFreshRoot(was, name);
    RootPathFails(Mount(Format(img, was, name)), FORMATTED_SHAPE);
  }

  // ---------- the parent entry ----------

  predicate NamedDotDot(n: Name) { n == [46, 46, 0, 0, 0, 0, 0, 0] }

  lemma AnswersToDotDot(e: Entry)
    ensures Answers(e, [46, 46]) <==> Live(e) && NamedDotDot(e.name)
  {
    AnswersByField(e, [46, 46]);
    assert Field([46, 46]) == [46, 46, 0, 0, 0, 0, 0, 0];
  }

  lemma FiveZeros(n: Name)
    ensures NamedDotDot([46, 46, 0] + n[3..]) <==> n[3..8] == [0, 0, 0, 0, 0]
  {
    var m := [46, 46, 0] + n[3..];
    assert n[3..] == n[3..8] == m[3..];
    assert n[3..8] == [0, 0, 0, 0, 0] ==> m == [46, 46, 0] + [0, 0, 0, 0, 0];
  }

  /** `..` in a table initialised over arbitrary bytes: only three bytes of the name are written, so the walk finds
      the parent exactly when the other five were zero. */
  lemma DotDotIn(v: Volume, d: nat, garbage: Table, name: Name, parent: u32)
    requires Sized(v) && d < DISK_CLUSTERS && parent < DISK_CLUSTERS && v.tables[d] == InitTable(garbage, name, parent)
    requires !NamedDotDot(name)
    ensures Destination(v, d, [46, 46], true) ==
      if garbage[1].name[3..8] == [0, 0, 0, 0, 0] then Arrival(0, parent) else Arrival(2, d)
  {
    hide Destination, Answers;
    var t, w: Bytes := v.tables[d], [46, 46];
    AnswersToDotDot(t[0]);
    AnswersToDotDot(t[1]);
    FiveZeros(garbage[1].name);
    forall s | 2 <= s < 64
      ensures !Answers(t[s], w)
    {
      AnswersToDotDot(t[s]);
    }
    OneWord(v, d, w);
  }

  /** The table of a directory just created is the initialised one. */
  lemma NewTable(img: Image, sh: Shape, req: Request, data: Bytes, garbage: Table)
    requires GoodWrite(img, sh, req, data, garbage) && req.size == 0
    ensures Slot(Chosen(img, req).slot) && |Chosen(img, req).clusters| == 1 && 3 <= Chosen(img, req).clusters[0] < CLUSTER_MAP_SIZE
    ensures OnDisk(WriteOp(img, req, data, garbage).trace)
    ensures Mount(Apply(img, WriteOp(img, req, data, garbage).trace)).tables[Chosen(img, req).clusters[0]]
      == InitTable(garbage, req.name, req.parent)
  {
    hide WriteOp, Created, Chosen, Sound, Apply, DecodeFat, DecodeTable, EncodeTable, InitTable, Link;
    AcceptedChoice(img, sh, req, data, garbage);
    AcceptedTrace(img, sh, req, data, garbage);
    var t, a, v := WriteOp(img, req, data, garbage).trace, Chosen(img, req), Mount(img);
    assert t[..|t|] == t;
    PhasedPrefix(img, t, a.clusters, Link(v.fat, a.clusters, |a.clusters|), req.parent, v.tables[req.parent][a.slot := Created(img, req)], |t|);
    assert t[0] == t[..1][0];
    TableRoundTrip(InitTable(garbage, req.name, req.parent));
  }

  /** From a directory just created `cd ..` leads to its parent if and only if the last five bytes of the name that
      stood where the parent entry was written were zero; else it finds nothing. */
  lemma DotDotLeadsUpIff(img: Image, sh: Shape, req: Request, data: Bytes, garbage: Table)
    requires GoodWrite(img, sh, req, data, garbage) && req.size == 0 && !NamedDotDot(req.name)
    ensures |Chosen(img, req).clusters| == 1
    ensures var c := Chosen(img, req).clusters[0]; var w := Mount(Apply(img, WriteOp(img, req, data, garbage).trace));
      Destination(w, c, [46, 46], true) ==
        if garbage[1].name[3..8] == [0, 0, 0, 0, 0] then Arrival(0, req.parent) else Arrival(2, c)
  {
    hide WriteOp, Chosen, Sound, Apply, Mount, InitTable, Destination;
    NewTable(img, sh, req, data, garbage);
    DotDotIn(Mount(Apply(img, WriteOp(img, req, data, garbage).trace)), Chosen(img, req).clusters[0], garbage, req.name, req.parent);
  }

  /** In the root of a fresh disk `cd ..` stays in the root under the same condition. */
  lemma DotDotInFreshRoot(img: Image, was: Table, name: Name)
    requires !NamedDotDot(name)
    ensures Destination(Mount(Format(img, was, name)), 2, [46, 46], true) ==
      if was[1].name[3..8] == [0, 0, 0, 0, 0] then Arrival(0, 2) else Arrival(2, 2)
  {
    hide Format, InitTable, Destination;
    FormatImage(img, was, name);
    DotDotIn(Mount(Format(img, was, name)), 2, was, name, 2);
  }
}
