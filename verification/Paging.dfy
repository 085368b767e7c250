/** Physical frames and page directories: what each paging call does to the state, and the ownership
    invariant that ties used frames to page-directory entries. */
module Paging {
  import opened Words

  const PAGE_FRAME_SIZE := 0x40_0000
  const FRAME_COUNT := 32
  const DIRECTORY_COUNT := 32
  const ENTRY_COUNT := 1024
  const KERNEL_BASE := 0xC000_0000
  const WORD := 0x1_0000_0000

  type FrameNumber = x: int | 0 <= x < 1024

  /** The flags the kernel sets, and the ten-bit frame number. */
  datatype PageEntry = PageEntry(present: bool, writable: bool, user: bool, large: bool, frame: FrameNumber)

  const NO_ENTRY := PageEntry(false, false, false, false, 0)
  const KERNEL_ENTRY := PageEntry(true, true, false, true, 0)

  type PageDirectory = d: seq<PageEntry> | |d| == ENTRY_COUNT witness seq(ENTRY_COUNT, _ => NO_ENTRY)

  /** A page-directory pointer: the boot directory or one of the list. */
  datatype DirRef = KernelDir | UserDir(index: nat)

  datatype Pages = Pages(used: seq<bool>, free: u32, dirUsed: seq<bool>, dirs: seq<PageDirectory>, kernelDir: PageDirectory)

  predicate Sized(p: Pages) {
    |p.used| == FRAME_COUNT && |p.dirUsed| == DIRECTORY_COUNT && |p.dirs| == DIRECTORY_COUNT
  }

  predicate ValidRef(d: DirRef) { d.UserDir? ==> d.index < DIRECTORY_COUNT }

  function DirAt(p: Pages, d: DirRef): PageDirectory
    requires Sized(p) && ValidRef(d)
  {
    if d.KernelDir? then p.kernelDir else p.dirs[d.index]
  }

  function SetDir(p: Pages, d: DirRef, dir: PageDirectory): Pages
    requires Sized(p) && ValidRef(d)
  {
    if d.KernelDir? then p.(kernelDir := dir) else p.(dirs := p.dirs[d.index := dir])
  }

  function PageIndex(address: u32): nat
    ensures PageIndex(address) < ENTRY_COUNT
  {
    address / PAGE_FRAME_SIZE
  }

  // ---------- the operations ----------

  /** The first clear entry from `i`, or the length. */
  function FirstClear(s: seq<bool>, i: nat): (r: nat)
    requires i <= |s|
    ensures i <= r <= |s| && (r < |s| ==> !s[r]) && forall k :: i <= k < r ==> s[k]
    decreases |s| - i
  {
    if i == |s| || !s[i] then i else FirstClear(s, i + 1)
  }

  function UserEntry(frame: FrameNumber): PageEntry { PageEntry(true, true, true, true, frame) }

  /** Allocates the lowest free frame and maps it; returns its physical address, or 0 when none is free. */
  function AllocateFrame(p: Pages, d: DirRef, address: u32): (r: (Pages, u32))
    requires Sized(p) && ValidRef(d)
    ensures Sized(r.0)
  {
    var f := FirstClear(p.used, 0);
    if f == FRAME_COUNT then (p, 0)
    else
      var q := p.(used := p.used[f := true], free := (p.free - 1) % WORD);
      (SetDir(q, d, DirAt(q, d)[PageIndex(address) := UserEntry(f)]), f * PAGE_FRAME_SIZE)
  }

  /** Unmaps a present entry and releases its frame. */
  function FreeFrame(p: Pages, d: DirRef, address: u32): (r: (Pages, bool))
    requires Sized(p) && ValidRef(d)
    requires DirAt(p, d)[PageIndex(address)].present ==> DirAt(p, d)[PageIndex(address)].frame < FRAME_COUNT
    ensures Sized(r.0)
  {
    var i := PageIndex(address);
    var e := DirAt(p, d)[i];
    if !e.present then (p, false)
    else
      var q := p.(used := p.used[e.frame := false], free := (p.free + 1) % WORD);
      (SetDir(q, d, DirAt(q, d)[i := e.(present := false)]), true)
  }

  function NewDirectory(): PageDirectory {
    seq(ENTRY_COUNT, i => if i == 0 || i == 0x300 then KERNEL_ENTRY else NO_ENTRY)
  }

  /** Takes the first unused directory of the list; no result when all are in use. */
  function CreateDirectory(p: Pages): (r: (Pages, int))
    requires Sized(p)
    ensures Sized(r.0) && -1 <= r.1 < DIRECTORY_COUNT
  {
    var i: int := FirstClear(p.dirUsed, 0);
    if i == DIRECTORY_COUNT then (p, -1)
    else (p.(dirUsed := p.dirUsed[i := true], dirs := p.dirs[i := NewDirectory()]), i)
  }

  /** The test before a process is created: `amount` is meant to be in bytes. */
  function AllocateCheck(p: Pages, amount: u32): bool {
    (PAGE_FRAME_SIZE + amount - 1) % WORD / PAGE_FRAME_SIZE <= p.free
  }

  // ---------- CR3 ----------

  /** Where the directories lie in kernel memory. */
  datatype Layout = Layout(list: u32, kernelDir: u32)

  predicate ValidLayout(m: Layout) {
    && KERNEL_BASE < m.list && m.list + 0x1000 * DIRECTORY_COUNT <= WORD && KERNEL_BASE < m.kernelDir
    && forall i :: 0 <= i < DIRECTORY_COUNT ==> m.list + 0x1000 * i != m.kernelDir
  }

  function AddressOf(m: Layout, d: DirRef): u32
    requires ValidLayout(m) && ValidRef(d)
  {
    if d.KernelDir? then m.kernelDir else m.list + 0x1000 * d.index
  }

  function ToCr3(virtual: u32): u32 { if virtual > KERNEL_BASE then virtual - KERNEL_BASE else virtual }

  function FromCr3(cr3: u32): u32 { (cr3 + KERNEL_BASE) % WORD }

  /** Loading CR3 from a directory address and reading the address back gives the same address exactly for
      addresses above the kernel base. */
  lemma Cr3RoundTrip(virtual: u32)
    ensures FromCr3(ToCr3(virtual)) == virtual <==> virtual > KERNEL_BASE
  {}

  lemma AddressesDiffer(m: Layout, d: DirRef, e: DirRef)
    requires ValidLayout(m) && ValidRef(d) && ValidRef(e)
    ensures AddressOf(m, d) == AddressOf(m, e) <==> d == e
    ensures ToCr3(AddressOf(m, d)) == ToCr3(AddressOf(m, e)) <==> d == e
    ensures FromCr3(ToCr3(AddressOf(m, d))) == AddressOf(m, d)
  {
    if d.UserDir? && e.UserDir? && d.index != e.index {
      assert 0x1000 * d.index != 0x1000 * e.index;
    }
  }

  /** The first directory of the list from `i` lying at the address, or the count. */
  function DirectoryAt(m: Layout, address: u32, i: nat): (n: nat)
    requires i <= DIRECTORY_COUNT
    ensures i <= n <= DIRECTORY_COUNT
    ensures n < DIRECTORY_COUNT ==> m.list + 0x1000 * n == address
    ensures forall j :: i <= j < n ==> m.list + 0x1000 * j != address
    decreases DIRECTORY_COUNT - i
  {
    if i == DIRECTORY_COUNT || m.list + 0x1000 * i == address then i else DirectoryAt(m, address, i + 1)
  }

  /** Gives a directory of the list back; its mappings and their frames are not touched. */
  function FreeDirectory(m: Layout, p: Pages, address: u32): (r: (Pages, bool))
    requires Sized(p)
    ensures Sized(r.0)
  {
    var i := DirectoryAt(m, address, 0);
    if i == DIRECTORY_COUNT then (p, false) else (p.(dirUsed := p.dirUsed[i := false]), true)
  }

  // ---------- ownership ----------

  /** The entry that maps a frame. */
  datatype Owner = Owner(dir: DirRef, index: nat)

  predicate UserMapped(e: PageEntry) { e.present && e.user }

  ghost function EntryAt(p: Pages, o: Owner): PageEntry
    requires Sized(p) && ValidRef(o.dir) && o.index < ENTRY_COUNT
  {
    DirAt(p, o.dir)[o.index]
  }

  function Count(s: seq<bool>): nat {
    if s == [] then 0 else Count(s[..|s| - 1]) + (if s[|s| - 1] then 1 else 0)
  }

  ghost predicate OwnsFrame(p: Pages, own: map<nat, Owner>, f: nat)
    requires Sized(p) && f in own
  {
    && 1 <= f < FRAME_COUNT && p.used[f]
    && ValidRef(own[f].dir) && own[f].index < ENTRY_COUNT
    && UserMapped(EntryAt(p, own[f])) && EntryAt(p, own[f]).frame == f
  }

  ghost predicate EntryOwns(p: Pages, own: map<nat, Owner>, d: DirRef, i: nat)
    requires Sized(p) && ValidRef(d) && i < ENTRY_COUNT
  {
    UserMapped(DirAt(p, d)[i]) ==> DirAt(p, d)[i].frame in own && own[DirAt(p, d)[i].frame] == Owner(d, i)
  }

  /** Every user mapping has a frame of its own, which is marked used; frame 0 is never one of them; the free
      count is the number of clear map bits; unused directories map nothing. */
  ghost predicate Owned(p: Pages, own: map<nat, Owner>) {
    && Sized(p) && p.used[0] && p.free == FRAME_COUNT - Count(p.used)
    && (forall f {:trigger OwnsFrame(p, own, f)} :: f in own ==> OwnsFrame(p, own, f))
    && (forall d, i {:trigger EntryOwns(p, own, d, i)} :: ValidRef(d) && 0 <= i < ENTRY_COUNT ==> EntryOwns(p, own, d, i))
    && (forall k, i :: 0 <= k < DIRECTORY_COUNT && !p.dirUsed[k] && 0 <= i < ENTRY_COUNT ==> !UserMapped(p.dirs[k][i]))
  }

  /** Frames marked used that no entry maps. */
  ghost function Lost(p: Pages, own: map<nat, Owner>): set<nat>
    requires Sized(p)
  {
    set f: nat | 1 <= f < FRAME_COUNT && p.used[f] && f !in own
  }

  lemma {:induction false} CountBounds(s: seq<bool>)
    ensures Count(s) <= |s|
    ensures (forall k :: 0 <= k < |s| ==> s[k]) <==> Count(s) == |s|
  {
    if s != [] {
      var t := s[..|s| - 1];
      CountBounds(t);
      if forall k :: 0 <= k < |t| ==> t[k] {
        assert (forall k :: 0 <= k < |s| ==> s[k]) <==> s[|s| - 1];
      } else {
        var k :| 0 <= k < |t| && !t[k];
        assert !s[k];
      }
    }
  }

  lemma {:induction false} CountUpdate(s: seq<bool>, k: nat, b: bool)
    requires k < |s|
    ensures Count(s[k := b]) == Count(s) + (if b then 1 else 0) - (if s[k] then 1 else 0)
  {
    var n := |s| - 1;
    if k == n {
      assert s[k := b][..n] == s[..n];
    } else {
      assert s[k := b][..n] == s[..n][k := b];
      CountUpdate(s[..n], k, b);
    }
  }

  ghost function OwnAfterAllocate(p: Pages, own: map<nat, Owner>, d: DirRef, address: u32): map<nat, Owner>
    requires Sized(p) && ValidRef(d)
  {
    var f := FirstClear(p.used, 0);
    var e := DirAt(p, d)[PageIndex(address)];
    if f == FRAME_COUNT then own
    else (if UserMapped(e) then own - {e.frame as nat} else own)[f := Owner(d, PageIndex(address))]
  }

  /** The frame of a user mapping that an allocation overwrites. */
  ghost function Displaced(p: Pages, d: DirRef, address: u32): set<nat>
    requires Sized(p) && ValidRef(d)
  {
    var e := DirAt(p, d)[PageIndex(address)];
    if UserMapped(e) && FirstClear(p.used, 0) != FRAME_COUNT then {e.frame as nat} else {}
  }

  /** The returned physical address is a whole frame that had no owner and now belongs to the entry. */
  ghost predicate HandedOut(own: map<nat, Owner>, own': map<nat, Owner>, d: DirRef, address: u32, r: u32) {
    var f := r / PAGE_FRAME_SIZE;
    r == f * PAGE_FRAME_SIZE && 1 <= f < FRAME_COUNT && f !in own && f in own' && own'[f] == Owner(d, PageIndex(address))
  }

  lemma AllocateCounts(p: Pages, own: map<nat, Owner>)
    requires Owned(p, own)
    ensures var f := FirstClear(p.used, 0);
      && f > 0 && (f == FRAME_COUNT <==> p.free == 0)
      && (f < FRAME_COUNT ==> Count(p.used[f := true]) == Count(p.used) + 1 <= FRAME_COUNT)
  {
    var f := FirstClear(p.used, 0);
    CountBounds(p.used);
    if f < FRAME_COUNT {
      CountUpdate(p.used, f, true);
      CountBounds(p.used[f := true]);
    }
  }

  lemma AllocateLost(p: Pages, own: map<nat, Owner>, d: DirRef, address: u32)
    requires Owned(p, own) && ValidRef(d) && FirstClear(p.used, 0) < FRAME_COUNT
    ensures var q := AllocateFrame(p, d, address).0;
      Lost(q, OwnAfterAllocate(p, own, d, address)) == Lost(p, own) + Displaced(p, d, address)
  {
    var q := AllocateFrame(p, d, address).0;
    var f := FirstClear(p.used, 0);
    var e := DirAt(p, d)[PageIndex(address)];
    assert q.used == p.used[f := true];
    assert EntryOwns(p, own, d, PageIndex(address));
    assert UserMapped(e) ==> OwnsFrame(p, own, e.frame);
    assert f in own ==> OwnsFrame(p, own, f);
  }

  lemma AllocateOwns(p: Pages, own: map<nat, Owner>, d: DirRef, address: u32, g: nat)
    requires Owned(p, own) && ValidRef(d) && FirstClear(p.used, 0) < FRAME_COUNT && g in OwnAfterAllocate(p, own, d, address)
    ensures OwnsFrame(AllocateFrame(p, d, address).0, OwnAfterAllocate(p, own, d, address), g)
  {
    var x := PageIndex(address);
    assert EntryOwns(p, own, d, x);
    if g != FirstClear(p.used, 0) {
      assert OwnsFrame(p, own, g);
      assert own[g] != Owner(d, x);
    }
  }

  lemma AllocateEntry(p: Pages, own: map<nat, Owner>, d: DirRef, address: u32, c: DirRef, i: nat)
    requires Owned(p, own) && ValidRef(d) && FirstClear(p.used, 0) < FRAME_COUNT && ValidRef(c) && i < ENTRY_COUNT
    ensures EntryOwns(AllocateFrame(p, d, address).0, OwnAfterAllocate(p, own, d, address), c, i)
  {
    assert EntryOwns(p, own, c, i);
    assert EntryOwns(p, own, d, PageIndex(address));
    if (c, i) != (d, PageIndex(address)) && UserMapped(DirAt(p, c)[i]) {
      assert OwnsFrame(p, own, DirAt(p, c)[i].frame);
    }
  }

  lemma AllocateEntries(p: Pages, own: map<nat, Owner>, d: DirRef, address: u32)
    requires Owned(p, own) && ValidRef(d) && FirstClear(p.used, 0) < FRAME_COUNT
    ensures var q := AllocateFrame(p, d, address).0; var own' := OwnAfterAllocate(p, own, d, address);
      && (forall f :: f in own' ==> OwnsFrame(q, own', f))
      && (forall c, i :: ValidRef(c) && 0 <= i < ENTRY_COUNT ==> EntryOwns(q, own', c, i))
      && FirstClear(p.used, 0) !in own
  {
    var q := AllocateFrame(p, d, address).0;
    var own' := OwnAfterAllocate(p, own, d, address);
    var f := FirstClear(p.used, 0);
    assert f in own ==> OwnsFrame(p, own, f);
    forall g | g in own'
      ensures OwnsFrame(q, own', g)
    {
      AllocateOwns(p, own, d, address, g);
    }
    forall c, i | ValidRef(c) && 0 <= i < ENTRY_COUNT
      ensures EntryOwns(q, own', c, i)
    {
      AllocateEntry(p, own, d, address, c, i);
    }
  }

  /** An allocation hands out a frame no one has, never frame 0, and returns 0 exactly when all are used.
      Ownership stays exact; the only frame that can be lost is the one a user mapping is overwritten for. */
  lemma AllocateKeepsOwned(p: Pages, own: map<nat, Owner>, d: DirRef, address: u32)
    requires Owned(p, own) && ValidRef(d) && (d.UserDir? ==> p.dirUsed[d.index])
    ensures var (q, r) := AllocateFrame(p, d, address); var own' := OwnAfterAllocate(p, own, d, address);
      && Owned(q, own') && Lost(q, own') == Lost(p, own) + Displaced(p, d, address)
      && q.dirUsed == p.dirUsed
      && if r == 0 then p.free == 0 && q == p else p.free > 0 && q.free == p.free - 1 && HandedOut(own, own', d, address, r)
  {
    hide EntryOwns, OwnsFrame;
    AllocateCounts(p, own);
    if FirstClear(p.used, 0) < FRAME_COUNT {
      AllocateEntries(p, own, d, address);
      AllocateLost(p, own, d, address);
    }
  }

  lemma FreeCounts(p: Pages, own: map<nat, Owner>, d: DirRef, address: u32)
    requires Owned(p, own) && ValidRef(d) && UserMapped(DirAt(p, d)[PageIndex(address)])
    ensures var e := DirAt(p, d)[PageIndex(address)];
      && 1 <= e.frame < FRAME_COUNT && e.frame in own && own[e.frame] == Owner(d, PageIndex(address)) && p.used[e.frame]
      && Count(p.used[e.frame := false]) == Count(p.used) - 1 && p.free < FRAME_COUNT
  {
    var e := DirAt(p, d)[PageIndex(address)];
    assert EntryOwns(p, own, d, PageIndex(address));
    assert OwnsFrame(p, own, e.frame);
    CountUpdate(p.used, e.frame, false);
  }

  lemma FreeEntries(p: Pages, own: map<nat, Owner>, d: DirRef, address: u32)
    requires Owned(p, own) && ValidRef(d) && UserMapped(DirAt(p, d)[PageIndex(address)])
    requires DirAt(p, d)[PageIndex(address)].frame < FRAME_COUNT && DirAt(p, d)[PageIndex(address)].frame in own
    requires own[DirAt(p, d)[PageIndex(address)].frame] == Owner(d, PageIndex(address))
    ensures var q := FreeFrame(p, d, address).0; var own' := own - {DirAt(p, d)[PageIndex(address)].frame as nat};
      && (forall f :: f in own' ==> OwnsFrame(q, own', f))
      && (forall c, i :: ValidRef(c) && 0 <= i < ENTRY_COUNT ==> EntryOwns(q, own', c, i))
  {
    var q := FreeFrame(p, d, address).0;
    var own' := own - {DirAt(p, d)[PageIndex(address)].frame as nat};
    forall g | g in own'
      ensures OwnsFrame(q, own', g)
    {
      assert OwnsFrame(p, own, g);
    }
    forall c, i | ValidRef(c) && 0 <= i < ENTRY_COUNT
      ensures EntryOwns(q, own', c, i)
    {
      assert EntryOwns(p, own, c, i);
    }
  }

  /** Freeing a user-mapped entry releases exactly its frame. */
  lemma FreeKeepsOwned(p: Pages, own: map<nat, Owner>, d: DirRef, address: u32)
    requires Owned(p, own) && ValidRef(d) && UserMapped(DirAt(p, d)[PageIndex(address)])
    ensures DirAt(p, d)[PageIndex(address)].frame < FRAME_COUNT && DirAt(p, d)[PageIndex(address)].frame in own
    ensures var e := DirAt(p, d)[PageIndex(address)]; var (q, ok) := FreeFrame(p, d, address);
      ok && Owned(q, own - {e.frame as nat}) && q.free == p.free + 1 && !q.used[e.frame]
      && Lost(q, own - {e.frame as nat}) == Lost(p, own)
  {
    hide EntryOwns, OwnsFrame, Count;
    FreeCounts(p, own, d, address);
    FreeEntries(p, own, d, address);
  }

  /** A new directory maps no user frame. */
  lemma CreateKeepsOwned(p: Pages, own: map<nat, Owner>)
    requires Owned(p, own)
    ensures var (q, i) := CreateDirectory(p);
      && Owned(q, own) && Lost(q, own) == Lost(p, own) && q.free == p.free
      && (i == -1 <==> Count(p.dirUsed) == DIRECTORY_COUNT)
      && (i != -1 ==> !p.dirUsed[i] && q.dirUsed == p.dirUsed[i := true] && Count(q.dirUsed) == Count(p.dirUsed) + 1)
      && (i != -1 ==> q.dirs == p.dirs[i := NewDirectory()] && q.kernelDir == p.kernelDir)
      && (i != -1 ==> forall k :: 0 <= k < ENTRY_COUNT ==> !UserMapped(q.dirs[i][k]))
  {
    var (q, i) := CreateDirectory(p);
    CountBounds(p.dirUsed);
    if i != -1 {
      CountUpdate(p.dirUsed, i, true);
      forall f | f in own
        ensures OwnsFrame(q, own, f)
      {
        assert OwnsFrame(p, own, f);
      }
      forall c, k | ValidRef(c) && 0 <= k < ENTRY_COUNT
        ensures EntryOwns(q, own, c, k)
      {
        assert EntryOwns(p, own, c, k);
      }
    }
  }

  lemma DirectoryFreed(p: Pages, q: Pages, own: map<nat, Owner>)
    requires Owned(p, own) && q == p.(dirUsed := q.dirUsed) && |q.dirUsed| == DIRECTORY_COUNT
    requires forall k, i :: 0 <= k < DIRECTORY_COUNT && !q.dirUsed[k] && 0 <= i < ENTRY_COUNT ==> !UserMapped(p.dirs[k][i])
    ensures Owned(q, own)
  {
    forall f | f in own
      ensures OwnsFrame(q, own, f)
    {
      assert OwnsFrame(p, own, f);
    }
    forall c, i | ValidRef(c) && 0 <= i < ENTRY_COUNT
      ensures EntryOwns(q, own, c, i)
    {
      assert EntryOwns(p, own, c, i);
    }
  }

  /** Giving a directory back keeps ownership in order exactly when it maps no user frame any more; the boot
      directory is never found in the list. */
  lemma FreeDirectoryKeepsOwnedIff(m: Layout, p: Pages, own: map<nat, Owner>, d: DirRef)
    requires ValidLayout(m) && Owned(p, own) && ValidRef(d)
    ensures var (q, ok) := FreeDirectory(m, p, AddressOf(m, d));
      && (ok <==> d.UserDir?) && (ok ==> q.dirUsed == p.dirUsed[d.index := false])
      && (Owned(q, own) <==> !ok || forall i :: 0 <= i < ENTRY_COUNT ==> !UserMapped(p.dirs[d.index][i]))
  {
    var (q, ok) := FreeDirectory(m, p, AddressOf(m, d));
    if d.UserDir? {
      var n := DirectoryAt(m, AddressOf(m, d), 0);
      assert n <= d.index;
      assert n == d.index;
      if forall i :: 0 <= i < ENTRY_COUNT ==> !UserMapped(p.dirs[d.index][i]) {
        DirectoryFreed(p, q, own);
      } else {
        assert !q.dirUsed[d.index];
      }
    }
  }

  /** Two different entries never map the same frame: different address spaces share no user memory. */
  lemma NoSharedFrames(p: Pages, own: map<nat, Owner>, d: DirRef, i: nat, e: DirRef, j: nat)
    requires Owned(p, own) && ValidRef(d) && ValidRef(e) && i < ENTRY_COUNT && j < ENTRY_COUNT && (d, i) != (e, j)
    requires UserMapped(DirAt(p, d)[i]) && UserMapped(DirAt(p, e)[j])
    ensures DirAt(p, d)[i].frame != DirAt(p, e)[j].frame
  {
    assert EntryOwns(p, own, d, i);
    assert EntryOwns(p, own, e, j);
  }

  // ---------- whole runs ----------

  datatype PageCall = Allocate(d: DirRef, address: u32) | Free(d: DirRef, address: u32) | NewDir | Release(m: Layout, d: DirRef)

  /** Frames are allocated into entries of directories in use that map no user frame, and freed from entries
      that map one; a directory of the list is released when it maps none. */
  ghost predicate Proper(p: Pages, call: PageCall)
    requires Sized(p)
  {
    match call
    case Allocate(d, address) => ValidRef(d) && (d.UserDir? ==> p.dirUsed[d.index]) && !UserMapped(DirAt(p, d)[PageIndex(address)])
    case Free(d, address) => ValidRef(d) && UserMapped(DirAt(p, d)[PageIndex(address)])
    case NewDir => true
    case Release(m, d) => ValidLayout(m) && ValidRef(d) && (d.UserDir? ==> forall i :: 0 <= i < ENTRY_COUNT ==> !UserMapped(p.dirs[d.index][i]))
  }

  /** Freeing stays inside the frame map. */
  ghost predicate InMap(p: Pages, call: PageCall)
    requires Sized(p) && Proper(p, call)
  {
    call.Free? ==> DirAt(p, call.d)[PageIndex(call.address)].frame < FRAME_COUNT
  }

  ghost function AfterCall(p: Pages, call: PageCall): (q: Pages)
    requires Sized(p) && Proper(p, call) && InMap(p, call)
    ensures Sized(q)
  {
    match call
    case Allocate(d, address) => AllocateFrame(p, d, address).0
    case Free(d, address) => FreeFrame(p, d, address).0
    case NewDir => CreateDirectory(p).0
    case Release(m, d) => FreeDirectory(m, p, AddressOf(m, d)).0
  }

  ghost predicate ProperRun(p: Pages, calls: seq<PageCall>)
    requires Sized(p)
    decreases |calls|
  {
    calls == [] || (Proper(p, calls[0]) && (InMap(p, calls[0]) ==> ProperRun(AfterCall(p, calls[0]), calls[1..])))
  }

  ghost predicate StaysInMap(p: Pages, calls: seq<PageCall>)
    requires Sized(p) && ProperRun(p, calls)
    decreases |calls|
  {
    calls == [] || (InMap(p, calls[0]) && StaysInMap(AfterCall(p, calls[0]), calls[1..]))
  }

  ghost function AfterCalls(p: Pages, calls: seq<PageCall>): (q: Pages)
    requires Sized(p) && ProperRun(p, calls) && StaysInMap(p, calls)
    ensures Sized(q)
    decreases |calls|
  {
    if calls == [] then p else AfterCalls(AfterCall(p, calls[0]), calls[1..])
  }

  /** The frames marked used, frame 0 aside, are exactly the mapped ones, each mapped by one entry only. */
  ghost predicate Exact(p: Pages, own: map<nat, Owner>) {
    && Owned(p, own)
    && forall f :: 1 <= f < FRAME_COUNT ==> (p.used[f] <==> f in own)
  }

  lemma ReleasedFrames(m: Layout, p: Pages, d: DirRef)
    requires Sized(p) && ValidLayout(m) && ValidRef(d)
    ensures FreeDirectory(m, p, AddressOf(m, d)).0.used == p.used
  {}

  lemma NothingLost(p: Pages, own: map<nat, Owner>)
    requires Owned(p, own)
    ensures Lost(p, own) == {} <==> Exact(p, own)
  {
    forall f | f in own
      ensures 1 <= f < FRAME_COUNT && p.used[f]
    {
      assert OwnsFrame(p, own, f);
    }
    if Lost(p, own) == {} {
      assert forall f: nat :: 1 <= f < FRAME_COUNT && p.used[f] && f !in own ==> f in Lost(p, own);
    }
  }

  lemma PageStep(p: Pages, own: map<nat, Owner>, call: PageCall) returns (own': map<nat, Owner>)
    requires Exact(p, own) && Proper(p, call)
    ensures InMap(p, call) && Exact(AfterCall(p, call), own')
  {
    hide EntryOwns, OwnsFrame, Count, Lost, AllocateFrame, FreeFrame, CreateDirectory, OwnAfterAllocate;
    NothingLost(p, own);
    match call
    case Allocate(d, address) =>
      AllocateKeepsOwned(p, own, d, address);
      own' := OwnAfterAllocate(p, own, d, address);
      NothingLost(AfterCall(p, call), own');
    case Free(d, address) =>
      FreeKeepsOwned(p, own, d, address);
      own' := own - {DirAt(p, d)[PageIndex(address)].frame as nat};
      NothingLost(AfterCall(p, call), own');
    case NewDir =>
      CreateKeepsOwned(p, own);
      own' := own;
      NothingLost(AfterCall(p, call), own');
    case Release(m, d) =>
      FreeDirectoryKeepsOwnedIff(m, p, own, d);
      own' := own;
      ReleasedFrames(m, p, d);
  }

  /** Over any sequence of allocations, frees, new and released directories, frames and mappings stay in exact
      correspondence, the free count is right, and no free leaves the frame map. */
  lemma {:induction false} PageRun(p: Pages, own: map<nat, Owner>, calls: seq<PageCall>) returns (own': map<nat, Owner>)
    requires Exact(p, own) && ProperRun(p, calls)
    ensures StaysInMap(p, calls) && Exact(AfterCalls(p, calls), own')
    ensures AfterCalls(p, calls).free == FRAME_COUNT - Count(AfterCalls(p, calls).used)
    decreases |calls|
  {
    hide OwnsFrame, EntryOwns;
    if calls == [] {
      own' := own;
    } else {
      var next := PageStep(p, own, calls[0]);
      own' := PageRun(AfterCall(p, calls[0]), next, calls[1..]);
    }
  }
}
