/** The lines that `find` prints are the prompt's paths. */
module Reports {
  import opened Words
  import opened FatLayout
  import opened FatShape
  import opened FatTree
  import opened Paths
  import opened Find

  /** Names from the topmost down. */
  function TopDown(names: seq<Name>): seq<Name> {
    if names == [] then [] else TopDown(names[1..]) + [names[0]]
  }

  lemma {:induction false} RowsSnoc(names: seq<Name>, n: Name)
    ensures Rows(names + [n]) == Rows(names) + NameText(n) + [SLASH]
    decreases |names|
  {
    hide NameText;
    if names == [] {
      assert names + [n] == [n] && [n][1..] == [];
    } else {
      assert (names + [n])[1..] == names[1..] + [n];
      RowsSnoc(names[1..], n);
    }
  }

  lemma {:induction false} RowsAreSpelled(names: seq<Name>)
    requires names != []
    ensures Rows(TopDown(names)) == Spell(names) + [SLASH]
    decreases |names|
  {
    hide NameText;
    RowsSnoc(TopDown(names[1..]), names[0]);
    if |names| == 1 {
      assert names[1..] == [];
    } else {
      RowsAreSpelled(names[1..]);
    }
  }

  /** The line for a directory: the prompt's path, a slash unless it is the root, and a line end. */
  ghost function DirectoryLine(v: Volume, sh: Shape, d: nat): Bytes
    requires Sound(v, sh) && d in sh.depth
  {
    if d == ROOT_CLUSTER then [47, 10] else PathOf(v, sh, d) + [47, 10]
  }

  lemma NoRows()
    ensures Rows([]) == []
  {}

  lemma LineIsPath(v: Volume, sh: Shape, d: nat)
    requires Sound(v, sh) && d in sh.depth
    ensures Line(TopDown(NamesUp(v, sh, d))) == DirectoryLine(v, sh, d)
  {
    hide DirOk, EntriesOk, OwnersOk, Rows, Spell;
    var names := NamesUp(v, sh, d);
    if d == ROOT_CLUSTER {
      assert Rows([]) == [] by { NoRows(); }
    } else {
      ParentIsAbove(v, sh, d);
      RowsAreSpelled(names);
      assert [SLASH] + (Spell(names) + [SLASH]) + [NEWLINE] == [SLASH] + Spell(names) + [47, 10];
    }
  }

  /** Entering a live subdirectory puts its name in front. */
  lemma NamesOfChild(v: Volume, sh: Shape, d: nat, i: nat)
    requires Sound(v, sh) && d in sh.depth && d < CLUSTER_MAP_SIZE && Slot(i) && Live(v.tables[d][i]) && IsDir(v.tables[d][i])
    ensures var e := v.tables[d][i];
      First(e) in sh.depth && First(e) != ROOT_CLUSTER && NamesUp(v, sh, First(e)) == [e.name] + NamesUp(v, sh, d)
  {
    var c := First(v.tables[d][i]);
    assert EntryOk(v, sh, d, i);
    RootIsUnowned(v, sh);
    assert DirOk(v, sh, c);
    ParentIsAbove(v, sh, c);
  }

  /** The report of a match: for a directory its own line, for a file the line of its directory and the name. */
  lemma {:induction false} ReportFrom(v: Volume, sh: Shape, d: nat, path: seq<nat>, item: Name)
    requires Sound(v, sh) && d in sh.depth && Match(v, d, path, item)
    ensures var p := Walk(v, d, path[..|path| - 1]); var i := path[|path| - 1];
      && p in sh.depth && p < CLUSTER_MAP_SIZE && Slot(i) && var e := v.tables[p][i];
      && (IsDir(e) ==> First(e) in sh.depth && First(e) != ROOT_CLUSTER)
      && Report(v, d, TopDown(NamesUp(v, sh, d)), path) ==
           if IsDir(e) then DirectoryLine(v, sh, First(e)) else DirectoryLine(v, sh, p) + NameText(e.name)
    decreases |path|
  {
    hide DirsOk, EntriesOk, OwnersOk, Line, DirectoryLine, NameText;
    assert d < CLUSTER_MAP_SIZE;
    var e := v.tables[d][path[0]];
    var names := NamesUp(v, sh, d);
    if IsDir(e) {
      NamesOfChild(v, sh, d, path[0]);
      assert ([e.name] + names)[1..] == names;
    }
    if |path| > 1 {
      assert path[1..][..|path| - 2] == path[..|path| - 1][1..];
      ReportFrom(v, sh, First(e), path[1..], item);
    } else if IsDir(e) {
      LineIsPath(v, sh, First(e));
    } else {
      LineIsPath(v, sh, d);
    }
  }

  /** What `find` prints for a path it reports, from the root: a directory as the prompt spells it with a slash and
      a line end behind it, a file as that line of its directory followed by its name. */
  lemma ReportIsPath(v: Volume, sh: Shape, path: seq<nat>, item: Name)
    requires Sound(v, sh) && ROOT_CLUSTER in sh.depth && Match(v, ROOT_CLUSTER, path, item)
    ensures var p := Walk(v, ROOT_CLUSTER, path[..|path| - 1]); var i := path[|path| - 1];
      && p in sh.depth && p < CLUSTER_MAP_SIZE && Slot(i) && var e := v.tables[p][i];
      && (IsDir(e) ==> First(e) in sh.depth && First(e) != ROOT_CLUSTER)
      && Report(v, ROOT_CLUSTER, [], path) ==
           if IsDir(e) then PathOf(v, sh, First(e)) + [47, 10]
           else if p == ROOT_CLUSTER then [47, 10] + NameText(e.name)
           else PathOf(v, sh, p) + [47, 10] + NameText(e.name)
  {
    hide Sound, Report, Match, PathOf, NameText;
    ReportFrom(v, sh, ROOT_CLUSTER, path, item);
  }

  lemma OneStep(v: Volume, p: nat, s: nat)
    requires Sized(v) && p < CLUSTER_MAP_SIZE && Walk(v, p, [s]) != -1
    ensures Slot(s) && Live(v.tables[p][s]) && IsDir(v.tables[p][s]) && Walk(v, p, [s]) == First(v.tables[p][s])
  {
    assert [s][1..] == [];
  }

  /** `cd` on the line printed for an addressable directory, without its last slash and line end, leads there. */
  lemma ReportedPathLeadsBack(v: Volume, sh: Shape, path: seq<nat>, item: Name, d: nat, start: nat)
    requires Sound(v, sh) && ROOT_CLUSTER in sh.depth && Match(v, ROOT_CLUSTER, path, item)
    requires Walk(v, ROOT_CLUSTER, path) == d && d in sh.depth && Addressable(v, sh, d)
    ensures var r := Report(v, ROOT_CLUSTER, [], path);
      |r| >= 2 && Destination(v, start, r[..|r| - 2], true) == Arrival(0, d)
  {
    hide DirsOk, EntriesOk, OwnersOk, Report, PathOf, Addressable, Walk, Destination;
    var n := |path| - 1;
    ReportIsPath(v, sh, path, item);
    assert path == path[..n] + [path[n]];
    WalkSnoc(v, ROOT_CLUSTER, path[..n], path[n]);
    OneStep(v, Walk(v, ROOT_CLUSTER, path[..n]), path[n]);
    assert (PathOf(v, sh, d) + [47, 10])[..|PathOf(v, sh, d)|] == PathOf(v, sh, d);
    PathRoundTrip(v, sh, d, start);
  }

  /** The reports are printed one after the other. */
  lemma OneReport(v: Volume, d: nat, prefix: seq<Name>, hit: seq<nat>, more: seq<seq<nat>>)
    requires Sized(v)
    ensures Transcript(v, d, prefix, []) == []
    ensures Transcript(v, d, prefix, [hit] + more) == Report(v, d, prefix, hit) + Transcript(v, d, prefix, more)
  {
    assert ([hit] + more)[1..] == more;
  }
}
