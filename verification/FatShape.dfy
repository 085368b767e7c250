/** The heap-like invariant of a volume: every live entry of every directory owns an acyclic chain of
    clusters of exactly the length its size demands, no cluster has two owners, and the directories form
    a tree rooted at cluster 2.  Growing the volume by one entry and removing a file keep it. */
module FatShape {
  import opened Words
  import opened FatLayout

  /** A disk image seen through the driver's eyes: the decoded FAT, each cluster read as a directory
      table, and each cluster read as data. */
  datatype Volume = Volume(fat: Fat, tables: seq<Table>, data: seq<Cluster>)

  /** Position `pos` of the chain of the entry in `slot` of directory `dir`. */
  datatype Loc = Loc(dir: nat, slot: nat, pos: nat)

  /** Who owns each cluster, and how deep each directory lies below the root. */
  datatype Shape = Shape(own: map<nat, Loc>, depth: map<nat, nat>)

  ghost predicate Sized(v: Volume) { |v.tables| == DISK_CLUSTERS && |v.data| == DISK_CLUSTERS }

  predicate Slot(s: int) { 2 <= s < TABLE_SLOTS }

  // ---------- free clusters, links and chains ----------

  /** The free clusters from `j` up, in ascending order. */
  function FreeFrom(f: Fat, j: nat): (r: seq<nat>)
    requires 3 <= j <= CLUSTER_MAP_SIZE
    ensures forall c :: c in r <==> j <= c < CLUSTER_MAP_SIZE && f[c] == EMPTY_ENTRY
    ensures forall k :: 0 <= k < |r| ==> j <= r[k] < CLUSTER_MAP_SIZE
    ensures forall a, b :: 0 <= a < b < |r| ==> r[a] < r[b]
    decreases CLUSTER_MAP_SIZE - j
  {
    if j == CLUSTER_MAP_SIZE then []
    else if f[j] == EMPTY_ENTRY then [j] + FreeFrom(f, j + 1)
    else FreeFrom(f, j + 1)
  }

  function FreeList(f: Fat): seq<nat> { FreeFrom(f, 3) }

  predicate Mapped(cs: seq<nat>) { forall k :: 0 <= k < |cs| ==> 3 <= cs[k] < CLUSTER_MAP_SIZE }

  ghost predicate Distinct(cs: seq<nat>) { forall a, b :: 0 <= a < b < |cs| ==> cs[a] != cs[b] }

  /** A sequence without repetitions is no longer than a pool it draws from. */
  lemma {:induction false} DistinctInPool(cs: seq<nat>, pool: seq<nat>)
    requires Distinct(cs) && forall k :: 0 <= k < |cs| ==> cs[k] in pool
    ensures |cs| <= |pool|
    decreases |cs|
  {
    if cs != [] {
      var c, rest := cs[|cs| - 1], cs[..|cs| - 1];
      assert c in pool;
      var k :| 0 <= k < |pool| && pool[k] == c;
      var less := pool[..k] + pool[k + 1..];
      forall j | 0 <= j < |rest|
        ensures rest[j] in less
      {
        assert cs[j] in pool;
        var i :| 0 <= i < |pool| && pool[i] == cs[j];
        assert less[if i < k then i else i - 1] == cs[j];
      }
      DistinctInPool(rest, less);
    }
  }

  function Next(cs: seq<nat>, k: nat): u32
    requires k < |cs| && Mapped(cs)
  {
    if k + 1 < |cs| then cs[k + 1] else END_OF_FILE
  }

  /** The FAT after the first `n` links of the chain `cs` have been stored. */
  function Link(f: Fat, cs: seq<nat>, n: nat): Fat
    requires n <= |cs| && Mapped(cs)
  {
    if n == 0 then f else Link(f, cs, n - 1)[cs[n - 1] := Next(cs, n - 1)]
  }

  lemma {:induction false} LinkOutside(f: Fat, cs: seq<nat>, n: nat, c: nat)
    requires n <= |cs| && Mapped(cs) && c < CLUSTER_MAP_SIZE && c !in cs[..n]
    ensures Link(f, cs, n)[c] == f[c]
  {
    if n > 0 {
      assert cs[..n] == cs[..n - 1] + [cs[n - 1]];
      LinkOutside(f, cs, n - 1, c);
    }
  }

  lemma {:induction false} LinkInside(f: Fat, cs: seq<nat>, n: nat, k: nat)
    requires k < n <= |cs| && Mapped(cs) && Distinct(cs)
    ensures Link(f, cs, n)[cs[k]] == Next(cs, k)
  {
    if k < n - 1 {
      assert cs[k] != cs[n - 1];
      LinkInside(f, cs, n - 1, k);
    }
  }

  lemma {:induction false} LinkTargets(f: Fat, cs: seq<nat>, n: nat, c: nat)
    requires n <= |cs| && Mapped(cs) && c in cs[..n]
    ensures c < CLUSTER_MAP_SIZE && (Link(f, cs, n)[c] == END_OF_FILE || Link(f, cs, n)[c] in cs)
  {
    assert cs[..n] == cs[..n - 1] + [cs[n - 1]];
    if c != cs[n - 1] { LinkTargets(f, cs, n - 1, c); }
  }

  lemma LinkValues(f: Fat, cs: seq<nat>, n: nat)
    requires n <= |cs| && Mapped(cs)
    ensures forall c :: 0 <= c < CLUSTER_MAP_SIZE && c !in cs[..n] ==> Link(f, cs, n)[c] == f[c]
    ensures Distinct(cs) ==> forall k :: 0 <= k < n ==> Link(f, cs, n)[cs[k]] == Next(cs, k)
    ensures forall c :: c in cs[..n] ==>
      Link(f, cs, n)[c] == END_OF_FILE || Link(f, cs, n)[c] in cs
  {
    hide Link, Distinct, Next;
    forall c | 0 <= c < CLUSTER_MAP_SIZE && c !in cs[..n]
      ensures Link(f, cs, n)[c] == f[c]
    {
      LinkOutside(f, cs, n, c);
    }
    forall k | 0 <= k < n && Distinct(cs)
      ensures Link(f, cs, n)[cs[k]] == Next(cs, k)
    {
      LinkInside(f, cs, n, k);
    }
    forall c | c in cs[..n]
      ensures Link(f, cs, n)[c] == END_OF_FILE || Link(f, cs, n)[c] in cs
    {
      LinkTargets(f, cs, n, c);
    }
  }

  /** The first `n` clusters met by following the FAT from `c`. */
  function Chain(f: Fat, c: nat, n: nat): (r: seq<nat>)
    ensures |r| <= n
    decreases n
  {
    if n == 0 then []
    else if n == 1 || c >= CLUSTER_MAP_SIZE then [c]
    else [c] + Chain(f, f[c], n - 1)
  }

  // ---------- the invariant ----------

  /** A directory other than the root is the cluster of a live directory entry, which its slot-1 pointer
      leads back to and whose name its slot 0 repeats. */
  ghost predicate LinkedDir(v: Volume, sh: Shape, d: nat)
    requires Sized(v) && d < CLUSTER_MAP_SIZE
  {
    && d in sh.own && sh.own[d].pos == 0
    && var l := sh.own[d];
    && l.dir in sh.depth && l.dir < CLUSTER_MAP_SIZE && Slot(l.slot)
    && d in sh.depth && sh.depth[d] == sh.depth[l.dir] + 1
    && First(v.tables[d][1]) == l.dir
    && IsDir(v.tables[l.dir][l.slot])
    && v.tables[d][0].name == v.tables[l.dir][l.slot].name
  }

  ghost predicate DirOk(v: Volume, sh: Shape, d: nat)
    requires Sized(v) && d < CLUSTER_MAP_SIZE
  {
    && Live(v.tables[d][0]) && IsDir(v.tables[d][0])
    && Live(v.tables[d][1]) && IsDir(v.tables[d][1])
    && if d == ROOT_CLUSTER then First(v.tables[d][1]) == ROOT_CLUSTER else LinkedDir(v, sh, d)
  }

  ghost predicate DirsOk(v: Volume, sh: Shape)
    requires Sized(v)
  {
    && ROOT_CLUSTER in sh.depth && sh.depth[ROOT_CLUSTER] == 0
    && (forall d :: d in sh.depth ==> 2 <= d < CLUSTER_MAP_SIZE)
    && (forall d {:trigger DirOk(v, sh, d)} :: d in sh.depth ==> DirOk(v, sh, d))
  }

  ghost predicate EntryOk(v: Volume, sh: Shape, d: nat, s: nat)
    requires Sized(v) && d < CLUSTER_MAP_SIZE && Slot(s)
  {
    var e := v.tables[d][s];
    && First(e) in sh.own && sh.own[First(e)] == Loc(d, s, 0)
    && (if IsDir(e) then First(e) in sh.depth else e.filesize > 0)
  }

  ghost predicate EntriesOk(v: Volume, sh: Shape)
    requires Sized(v)
  {
    forall d, s {:trigger EntryOk(v, sh, d, s)} ::
      d in sh.depth && d < CLUSTER_MAP_SIZE && Slot(s) && Live(v.tables[d][s]) ==> EntryOk(v, sh, d, s)
  }

  /** The cluster's owner is live and long enough, and the FAT cell holds the next position or the end. */
  ghost predicate OwnerOk(v: Volume, sh: Shape, c: nat)
    requires Sized(v) && c in sh.own
  {
    var l := sh.own[c];
    && 3 <= c < CLUSTER_MAP_SIZE && v.fat[c] != EMPTY_ENTRY
    && l.dir in sh.depth && l.dir < CLUSTER_MAP_SIZE && Slot(l.slot)
    && var e := v.tables[l.dir][l.slot];
    && Live(e) && l.pos < Length(e)
    && (l.pos == 0 ==> First(e) == c)
    && (l.pos + 1 == Length(e) ==> v.fat[c] == END_OF_FILE)
    && (l.pos + 1 < Length(e) ==> v.fat[c] in sh.own && sh.own[v.fat[c]] == Loc(l.dir, l.slot, l.pos + 1))
  }

  ghost predicate OwnersOk(v: Volume, sh: Shape)
    requires Sized(v)
  {
    && (forall c {:trigger OwnerOk(v, sh, c)} :: c in sh.own ==> OwnerOk(v, sh, c))
    && (forall a, b :: a in sh.own && b in sh.own && sh.own[a] == sh.own[b] ==> a == b)
  }

  ghost predicate ReservedOk(f: Fat) {
    f[0] == CLUSTER_0_VALUE && f[1] == CLUSTER_1_VALUE && f[2] == END_OF_FILE
  }

  /** Structurally sound: nothing is damaged, but some clusters may be leaked (marked and unowned). */
  ghost predicate Sound(v: Volume, sh: Shape) {
    Sized(v) && ReservedOk(v.fat) && DirsOk(v, sh) && EntriesOk(v, sh) && OwnersOk(v, sh)
  }

  ghost function Leaked(v: Volume, sh: Shape): set<nat> {
    set c: nat | 3 <= c < CLUSTER_MAP_SIZE && v.fat[c] != EMPTY_ENTRY && c !in sh.own
  }

  /** Sound and without leaks: every non-free cluster is on exactly one chain. */
  ghost predicate WellFormed(v: Volume, sh: Shape) { Sound(v, sh) && Leaked(v, sh) == {} }

  // ---------- what the invariant says about chains ----------

  /** `r` lists the clusters owned by positions `l.pos, l.pos + 1, ...` of one entry, linked to the end. */
  ghost predicate Run(v: Volume, sh: Shape, l: Loc, r: seq<nat>) {
    && (forall k :: 0 <= k < |r| ==> r[k] in sh.own && sh.own[r[k]] == Loc(l.dir, l.slot, l.pos + k))
    && Mapped(r)
    && (forall k {:trigger Next(r, k)} :: 0 <= k < |r| ==> v.fat[r[k]] == Next(r, k))
  }

  lemma RunCons(v: Volume, sh: Shape, l: Loc, c: nat, r: seq<nat>)
    requires c in sh.own && sh.own[c] == l && 3 <= c < CLUSTER_MAP_SIZE
    requires Run(v, sh, Loc(l.dir, l.slot, l.pos + 1), r)
    requires v.fat[c] == if |r| == 0 then END_OF_FILE else r[0]
    ensures Run(v, sh, l, [c] + r)
  {
    var q := [c] + r;
    forall k | 0 <= k < |q|
      ensures 3 <= q[k] < CLUSTER_MAP_SIZE
      ensures q[k] in sh.own && sh.own[q[k]] == Loc(l.dir, l.slot, l.pos + k)
    {
      if k > 0 { assert q[k] == r[k - 1]; }
    }
    forall k {:trigger Next(q, k)} | 0 <= k < |q|
      ensures v.fat[q[k]] == Next(q, k)
    {
      if k > 0 { assert q[k] == r[k - 1] && v.fat[r[k - 1]] == Next(r, k - 1); }
    }
  }

  lemma {:induction false} ChainFrom(v: Volume, sh: Shape, c: nat, n: nat)
    requires Sized(v) && OwnersOk(v, sh) && c in sh.own
    requires OwnerOk(v, sh, c) && n == Length(v.tables[sh.own[c].dir][sh.own[c].slot]) - sh.own[c].pos
    ensures |Chain(v.fat, c, n)| == n > 0 && Chain(v.fat, c, n)[0] == c
    ensures Run(v, sh, sh.own[c], Chain(v.fat, c, n))
    decreases n
  {
    hide Length;
    var l := sh.own[c];
    var c' := v.fat[c];
    var r := Chain(v.fat, c', n - 1);
    if n > 1 {
      assert OwnerOk(v, sh, c');
      ChainFrom(v, sh, c', n - 1);
      RunCons(v, sh, l, c, r);
    } else {
      RunCons(v, sh, l, c, []);
      assert [c] + [] == [c];
    }
  }

  /** The chain of the live entry in slot `s` of directory `d`. */
  ghost function EntryChain(v: Volume, d: nat, s: nat): seq<nat>
    requires Sized(v) && d < CLUSTER_MAP_SIZE && Slot(s)
  {
    var e := v.tables[d][s];
    Chain(v.fat, First(e), Length(e))
  }

  /** Each live entry starts an acyclic chain of exactly the length its size demands, ending at the
      end-of-file mark and staying inside the data clusters. */
  lemma ChainsAreProper(v: Volume, sh: Shape, d: nat, s: nat)
    requires Sound(v, sh) && d in sh.depth && Slot(s) && Live(v.tables[d][s])
    ensures var r := EntryChain(v, d, s);
      && |r| == Length(v.tables[d][s]) > 0 && Mapped(r) && Distinct(r)
      && (forall k :: 0 <= k < |r| ==> r[k] in sh.own && sh.own[r[k]] == Loc(d, s, k))
      && (forall k {:trigger Next(r, k)} :: 0 <= k < |r| ==> v.fat[r[k]] == Next(r, k))
  {
    hide Required;
    assert EntryOk(v, sh, d, s);
    var e := v.tables[d][s];
    assert OwnerOk(v, sh, First(e));
    ChainFrom(v, sh, First(e), Length(e));
  }

  /** Chains of different live entries share no cluster. */
  lemma ChainsAreDisjoint(v: Volume, sh: Shape, d: nat, s: nat, d': nat, s': nat)
    requires Sound(v, sh) && d in sh.depth && Slot(s) && Live(v.tables[d][s])
    requires d' in sh.depth && Slot(s') && Live(v.tables[d'][s'])
    requires (d, s) != (d', s')
    ensures forall c :: !(c in EntryChain(v, d, s) && c in EntryChain(v, d', s'))
  {
    ChainsAreProper(v, sh, d, s);
    ChainsAreProper(v, sh, d', s');
  }

  /** Every non-free data cluster that is not leaked lies on the chain of a live entry. */
  lemma NonFreeIsOnAChain(v: Volume, sh: Shape, c: nat)
    requires Sound(v, sh) && 3 <= c < CLUSTER_MAP_SIZE && v.fat[c] != EMPTY_ENTRY && c !in Leaked(v, sh)
    ensures exists d, s :: d in sh.depth && d < CLUSTER_MAP_SIZE && Slot(s) && Live(v.tables[d][s]) && c in EntryChain(v, d, s)
  {
    assert OwnerOk(v, sh, c);
    var l := sh.own[c];
    ChainsAreProper(v, sh, l.dir, l.slot);
    assert sh.own[EntryChain(v, l.dir, l.slot)[l.pos]] == l;
  }

  lemma TableOfDir(v: Volume, sh: Shape, d: nat)
    requires Sound(v, sh) && d in sh.depth && d < CLUSTER_MAP_SIZE
    ensures Live(v.tables[d][0]) && IsDir(v.tables[d][0]) && Live(v.tables[d][1]) && IsDir(v.tables[d][1])
  {
    assert DirOk(v, sh, d);
  }

  // ---------- writes outside the reachable part ----------

  /** The two volumes agree on everything reachable: directory tables and owned FAT cells. */
  ghost predicate SameMeta(v: Volume, w: Volume, sh: Shape) {
    && Sized(v) && Sized(w)
    && (forall d :: d in sh.depth && d < CLUSTER_MAP_SIZE ==> w.tables[d] == v.tables[d])
    && (forall c :: c in sh.own && c < CLUSTER_MAP_SIZE ==> w.fat[c] == v.fat[c])
    && (forall c :: 0 <= c < 3 ==> w.fat[c] == v.fat[c])
  }

  lemma DirCarries(v: Volume, w: Volume, sh: Shape, sh': Shape, d: nat)
    requires Sized(v) && Sized(w) && d < CLUSTER_MAP_SIZE && DirOk(v, sh, d)
    requires w.tables[d][0] == v.tables[d][0] && w.tables[d][1] == v.tables[d][1]
    requires d != ROOT_CLUSTER ==>
      && d in sh'.own && sh'.own[d] == sh.own[d] && d in sh'.depth && sh'.depth[d] == sh.depth[d]
      && var p := sh.own[d].dir; var s := sh.own[d].slot;
      && p in sh'.depth && sh'.depth[p] == sh.depth[p]
      && w.tables[p][s].name == v.tables[p][s].name && IsDir(w.tables[p][s])
    ensures DirOk(w, sh', d)
  {}

  lemma OwnerCarries(v: Volume, w: Volume, sh: Shape, sh': Shape, c: nat)
    requires Sized(v) && Sized(w) && c in sh.own && OwnerOk(v, sh, c)
    requires c in sh'.own && sh'.own[c] == sh.own[c] && sh.own[c].dir in sh'.depth
    requires w.fat[c] == v.fat[c]
    requires var l := sh.own[c]; w.tables[l.dir][l.slot] == v.tables[l.dir][l.slot]
    requires var c' := v.fat[c]; var l := sh.own[c];
      c' in sh.own && sh.own[c'] == Loc(l.dir, l.slot, l.pos + 1) ==> c' in sh'.own && sh'.own[c'] == sh.own[c']
    ensures OwnerOk(w, sh', c)
  {
    hide Length, First;
  }

  lemma SoundFrame(v: Volume, w: Volume, sh: Shape)
    requires Sound(v, sh) && SameMeta(v, w, sh)
    ensures Sound(w, sh)
  {
    forall d | d in sh.depth
      ensures DirOk(w, sh, d)
    {
      assert DirOk(v, sh, d);
      DirCarries(v, w, sh, sh, d);
    }
    forall d, s | d in sh.depth && d < CLUSTER_MAP_SIZE && Slot(s) && Live(w.tables[d][s])
      ensures EntryOk(w, sh, d, s)
    {
      assert EntryOk(v, sh, d, s);
    }
    forall c | c in sh.own
      ensures OwnerOk(w, sh, c)
    {
      assert OwnerOk(v, sh, c);
      OwnerCarries(v, w, sh, sh, c);
    }
  }

  // ---------- adding one entry ----------

  /** A freshly initialised directory table: itself, its parent, and nothing live. */
  ghost predicate FreshTable(t: Table, name: Name, parent: nat) {
    && Live(t[0]) && IsDir(t[0]) && t[0].name == name
    && Live(t[1]) && IsDir(t[1]) && First(t[1]) == parent
    && forall s :: Slot(s) ==> !Live(t[s])
  }

  ghost function IndexIn(cs: seq<nat>, c: nat): nat
    requires c in cs
    ensures IndexIn(cs, c) < |cs| && cs[IndexIn(cs, c)] == c
  {
    var k :| 0 <= k < |cs| && cs[k] == c;
    k
  }

  ghost function GrownShape(sh: Shape, p: nat, s: nat, e: Entry, cs: seq<nat>): Shape
    requires |cs| > 0 && p in sh.depth
  {
    Shape(map c: nat | c in sh.own.Keys + (set k | 0 <= k < |cs| :: cs[k]) ::
            if c in cs then Loc(p, s, IndexIn(cs, c)) else sh.own[c],
          if IsDir(e) then sh.depth[cs[0] := sh.depth[p] + 1] else sh.depth)
  }

  /** `w` is `v` with entry `e` put into the empty slot `s` of directory `p`, its chain `cs` linked. */
  ghost predicate Grown(v: Volume, w: Volume, sh: Shape, p: nat, s: nat, e: Entry, cs: seq<nat>) {
    && Sized(v) && Sized(w) && p in sh.depth && p < CLUSTER_MAP_SIZE && Slot(s) && !Live(v.tables[p][s])
    && Live(e) && |cs| == Length(e) && |cs| > 0 && Mapped(cs) && Distinct(cs) && First(e) == cs[0]
    && (!IsDir(e) ==> e.filesize > 0)
    && (forall k :: 0 <= k < |cs| ==> v.fat[cs[k]] == EMPTY_ENTRY)
    && (forall k {:trigger Next(cs, k)} :: 0 <= k < |cs| ==> w.fat[cs[k]] == Next(cs, k))
    && (forall c :: 0 <= c < CLUSTER_MAP_SIZE && c !in cs ==> w.fat[c] == v.fat[c])
    && w.tables[p] == v.tables[p][s := e]
    && (forall d :: d in sh.depth && d < CLUSTER_MAP_SIZE && d != p ==> w.tables[d] == v.tables[d])
    && (IsDir(e) ==> FreshTable(w.tables[cs[0]], e.name, p))
  }

  lemma FreeIsUnowned(v: Volume, sh: Shape, cs: seq<nat>)
    requires Sound(v, sh) && Mapped(cs) && forall k :: 0 <= k < |cs| ==> v.fat[cs[k]] == EMPTY_ENTRY
    ensures forall c :: c in cs ==> c !in sh.own && c !in sh.depth
  {
    forall c | c in sh.own
      ensures c < CLUSTER_MAP_SIZE && v.fat[c] != EMPTY_ENTRY
    {
      assert OwnerOk(v, sh, c);
    }
    forall c | c in sh.depth && c != ROOT_CLUSTER
      ensures c in sh.own
    {
      assert DirOk(v, sh, c);
    }
  }

  lemma GrownFacts(sh: Shape, p: nat, s: nat, e: Entry, cs: seq<nat>)
    requires |cs| > 0 && p in sh.depth && Distinct(cs)
    ensures var sh' := GrownShape(sh, p, s, e, cs);
      && (forall c :: c in sh'.own <==> c in sh.own || c in cs)
      && (forall c :: c in sh.own && c !in cs ==> sh'.own[c] == sh.own[c])
      && (forall k :: 0 <= k < |cs| ==> sh'.own[cs[k]] == Loc(p, s, k))
      && sh'.depth == (if IsDir(e) then sh.depth[cs[0] := sh.depth[p] + 1] else sh.depth)
  {
    forall k | 0 <= k < |cs|
      ensures IndexIn(cs, cs[k]) == k
    {}
  }

  lemma GrowOldDir(v: Volume, w: Volume, sh: Shape, p: nat, s: nat, e: Entry, cs: seq<nat>, d: nat)
    requires Sound(v, sh) && Grown(v, w, sh, p, s, e, cs) && d in sh.depth
    ensures var sh' := GrownShape(sh, p, s, e, cs);
      d < CLUSTER_MAP_SIZE && d in sh'.depth && sh'.depth[d] == sh.depth[d] && DirOk(w, sh', d)
  {
    hide Length, First, FreshTable, GrownShape, EntriesOk;
    var sh' := GrownShape(sh, p, s, e, cs);
    GrownFacts(sh, p, s, e, cs);
    FreeIsUnowned(v, sh, cs);
    assert DirOk(v, sh, d);
    if d != ROOT_CLUSTER {
      assert OwnerOk(v, sh, d);
      var l := sh.own[d];
      assert IsDir(w.tables[l.dir][l.slot]) && w.tables[l.dir][l.slot].name == v.tables[l.dir][l.slot].name;
    }
    DirCarries(v, w, sh, sh', d);
  }

  lemma GrowNewDir(v: Volume, w: Volume, sh: Shape, p: nat, s: nat, e: Entry, cs: seq<nat>)
    requires Sound(v, sh) && Grown(v, w, sh, p, s, e, cs)
    ensures var sh' := GrownShape(sh, p, s, e, cs);
      forall d :: d in sh'.depth && d !in sh.depth ==> 2 < d < CLUSTER_MAP_SIZE && DirOk(w, sh', d)
  {
    hide Length, OwnersOk, EntriesOk;
    FreeIsUnowned(v, sh, cs);
    assert IndexIn(cs, cs[0]) == 0;
  }

  lemma GrowDirs(v: Volume, w: Volume, sh: Shape, p: nat, s: nat, e: Entry, cs: seq<nat>)
    requires Sound(v, sh) && Grown(v, w, sh, p, s, e, cs)
    ensures DirsOk(w, GrownShape(sh, p, s, e, cs))
  {
    hide GrownShape, DirOk, Length, EntriesOk, OwnersOk;
    var sh' := GrownShape(sh, p, s, e, cs);
    forall d | d in sh.depth
      ensures d < CLUSTER_MAP_SIZE && d in sh'.depth && sh'.depth[d] == sh.depth[d] && DirOk(w, sh', d)
    {
      GrowOldDir(v, w, sh, p, s, e, cs, d);
    }
    GrowNewDir(v, w, sh, p, s, e, cs);
  }

  lemma GrowEntries(v: Volume, w: Volume, sh: Shape, p: nat, s: nat, e: Entry, cs: seq<nat>)
    requires Sound(v, sh) && Grown(v, w, sh, p, s, e, cs)
    ensures EntriesOk(w, GrownShape(sh, p, s, e, cs))
  {
    hide GrownShape;
    var sh' := GrownShape(sh, p, s, e, cs);
    GrownFacts(sh, p, s, e, cs);
    FreeIsUnowned(v, sh, cs);
    forall d, i | d in sh'.depth && d < CLUSTER_MAP_SIZE && Slot(i) && Live(w.tables[d][i])
      ensures EntryOk(w, sh', d, i)
    {
      if d != p || i != s {
        assert d in sh.depth;
        assert w.tables[d][i] == v.tables[d][i];
        assert EntryOk(v, sh, d, i);
      }
    }
  }

  lemma GrowInjective(v: Volume, w: Volume, sh: Shape, p: nat, s: nat, e: Entry, cs: seq<nat>)
    requires Sound(v, sh) && Grown(v, w, sh, p, s, e, cs)
    ensures var sh' := GrownShape(sh, p, s, e, cs);
      forall a, b :: a in sh'.own && b in sh'.own && sh'.own[a] == sh'.own[b] ==> a == b
  {
    hide Length, First, FreshTable, IsDir, GrownShape, EntriesOk, DirsOk;
    GrownFacts(sh, p, s, e, cs);
    forall c | c in sh.own
      ensures (sh.own[c].dir, sh.own[c].slot) != (p, s)
    {
      assert OwnerOk(v, sh, c);
    }
  }

  lemma GrowNewOwner(v: Volume, w: Volume, sh: Shape, p: nat, s: nat, e: Entry, cs: seq<nat>, c: nat)
    requires Grown(v, w, sh, p, s, e, cs) && c in cs
    ensures OwnerOk(w, GrownShape(sh, p, s, e, cs), c)
  {
    hide Length, First, FreshTable, IsDir, GrownShape;
    GrownFacts(sh, p, s, e, cs);
    var k := IndexIn(cs, c);
    assert w.fat[c] == Next(cs, k);
  }

  lemma GrowOldOwner(v: Volume, w: Volume, sh: Shape, p: nat, s: nat, e: Entry, cs: seq<nat>, c: nat)
    requires Sound(v, sh) && Grown(v, w, sh, p, s, e, cs) && c in sh.own && c !in cs
    ensures OwnerOk(w, GrownShape(sh, p, s, e, cs), c)
  {
    hide Length, First, FreshTable, IsDir, DirsOk, EntriesOk, GrownShape;
    GrownFacts(sh, p, s, e, cs);
    FreeIsUnowned(v, sh, cs);
    assert OwnerOk(v, sh, c);
    OwnerCarries(v, w, sh, GrownShape(sh, p, s, e, cs), c);
  }

  lemma GrowOwners(v: Volume, w: Volume, sh: Shape, p: nat, s: nat, e: Entry, cs: seq<nat>)
    requires Sound(v, sh) && Grown(v, w, sh, p, s, e, cs)
    ensures OwnersOk(w, GrownShape(sh, p, s, e, cs))
  {
    hide Length, First, FreshTable, IsDir, GrownShape;
    var sh' := GrownShape(sh, p, s, e, cs);
    GrownFacts(sh, p, s, e, cs);
    forall c | c in sh'.own
      ensures OwnerOk(w, sh', c)
    {
      if c in cs {
        GrowNewOwner(v, w, sh, p, s, e, cs, c);
      } else {
        GrowOldOwner(v, w, sh, p, s, e, cs, c);
      }
    }
    GrowInjective(v, w, sh, p, s, e, cs);
  }

  /** Adding an entry with a freshly linked chain of free clusters keeps the volume sound, and leaks
      neither gain nor lose a cluster. */
  lemma GrowKeepsSound(v: Volume, w: Volume, sh: Shape, p: nat, s: nat, e: Entry, cs: seq<nat>)
    requires Sound(v, sh) && Grown(v, w, sh, p, s, e, cs)
    ensures Sound(w, GrownShape(sh, p, s, e, cs))
    ensures Leaked(w, GrownShape(sh, p, s, e, cs)) == Leaked(v, sh)
  {
    hide GrownShape;
    var sh' := GrownShape(sh, p, s, e, cs);
    GrownFacts(sh, p, s, e, cs);
    FreeIsUnowned(v, sh, cs);
    GrowDirs(v, w, sh, p, s, e, cs);
    GrowEntries(v, w, sh, p, s, e, cs);
    GrowOwners(v, w, sh, p, s, e, cs);
  }

  // ---------- removing one file ----------

  function Cleared(e: Entry): Entry { e.(userAttribute := 0, undelete := 1) }

  ghost function ShrunkShape(sh: Shape, d: nat, s: nat): Shape {
    sh.(own := map c | c in sh.own && !(sh.own[c].dir == d && sh.own[c].slot == s) :: sh.own[c])
  }

  lemma ShrinkRest(v: Volume, w: Volume, sh: Shape, d: nat, s: nat)
    requires Sound(v, sh) && Sized(w) && d in sh.depth && Slot(s) && Live(v.tables[d][s])
    requires w.tables[d] == v.tables[d][s := Cleared(v.tables[d][s])]
    requires forall b :: b in sh.depth && b != d ==> w.tables[b] == v.tables[b]
    requires w.fat == v.fat
    ensures EntriesOk(w, ShrunkShape(sh, d, s)) && OwnersOk(w, ShrunkShape(sh, d, s))
  {
    hide Length, First, DirOk;
    var sh' := ShrunkShape(sh, d, s);
    forall b, i | b in sh.depth && b < CLUSTER_MAP_SIZE && Slot(i) && Live(w.tables[b][i])
      ensures EntryOk(w, sh', b, i)
    {
      assert EntryOk(v, sh, b, i);
    }
    forall c | c in sh'.own
      ensures OwnerOk(w, sh', c)
    {
      assert OwnerOk(v, sh, c);
      OwnerCarries(v, w, sh, sh', c);
    }
  }

  lemma ShrinkLeaks(v: Volume, sh: Shape, d: nat, s: nat)
    requires Sound(v, sh) && d in sh.depth && d < CLUSTER_MAP_SIZE && Slot(s) && Live(v.tables[d][s])
    ensures Leaked(v, ShrunkShape(sh, d, s)) == Leaked(v, sh) + (set c | c in EntryChain(v, d, s))
  {
    hide Length, First, DirsOk, EntriesOk, LinkedDir;
    var r := EntryChain(v, d, s);
    ChainsAreProper(v, sh, d, s);
    forall c | c in sh.own
      ensures 3 <= c < CLUSTER_MAP_SIZE && v.fat[c] != EMPTY_ENTRY
      ensures sh.own[c].dir == d && sh.own[c].slot == s ==> c in r
    {
      assert OwnerOk(v, sh, c);
      if sh.own[c].dir == d && sh.own[c].slot == s {
        assert sh.own[r[sh.own[c].pos]] == sh.own[c];
      }
    }
  }

  /** Once the entry of a file is cleared, its chain is leaked and everything else is still sound. */
  lemma ShrinkKeepsSound(v: Volume, w: Volume, sh: Shape, d: nat, s: nat)
    requires Sound(v, sh) && Sized(w) && d in sh.depth && Slot(s) && Live(v.tables[d][s]) && !IsDir(v.tables[d][s])
    requires w.tables[d] == v.tables[d][s := Cleared(v.tables[d][s])]
    requires forall b :: b in sh.depth && b != d ==> w.tables[b] == v.tables[b]
    requires w.fat == v.fat
    ensures Sound(w, ShrunkShape(sh, d, s))
    ensures Leaked(w, ShrunkShape(sh, d, s)) == Leaked(v, sh) + (set c | c in EntryChain(v, d, s))
  {
    hide Length, First;
    var sh' := ShrunkShape(sh, d, s);
    forall b | b in sh.depth
      ensures DirOk(w, sh', b)
    {
      assert DirOk(v, sh, b);
      if b != ROOT_CLUSTER { assert OwnerOk(v, sh, b); }
      DirCarries(v, w, sh, sh', b);
    }
    ShrinkRest(v, w, sh, d, s);
    ShrinkLeaks(v, sh, d, s);
  }
}
