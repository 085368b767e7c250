/** What page directories hold, what a create answers and maps, and which words are saved: in numbers. */
module KernelLaws {
  import opened Words
  import opened Paging
  import opened Context
  import opened Processes
  import opened KernelRuns
  import opened Isolation

  // ---------- page directories ----------

  /** A new directory maps the first 4 MiB and the kernel's 4 MiB at 0xC0000000 to frame 0, writable, without user
      access, as large pages, and nothing else. */
  lemma NewDirectoryMaps(p: Pages)
    requires Paging.Sized(p)
    ensures var (q, j) := CreateDirectory(p);
      j != -1 ==>
        && q.dirs[j][0] == PageEntry(true, true, false, true, 0) && q.dirs[j][0x300] == PageEntry(true, true, false, true, 0)
        && forall i :: 0 <= i < 1024 && i != 0 && i != 0x300 ==> !q.dirs[j][i].present
  {}

  /** An allocation takes the lowest clear frame and changes one entry: present, writable, user, 4 MiB, that frame;
      with no clear frame it changes nothing and returns 0. */
  lemma AllocationMaps(p: Pages, d: DirRef, address: u32)
    requires Paging.Sized(p) && ValidRef(d)
    ensures var (q, r) := AllocateFrame(p, d, address);
      && ((forall f :: 0 <= f < 32 ==> p.used[f]) ==> q == p && r == 0)
      && forall f :: 0 <= f < 32 && !p.used[f] && (forall g :: 0 <= g < f ==> p.used[g]) ==>
           && r == f * 0x40_0000 && q.used == p.used[f := true] && q.free == (p.free - 1) % 0x1_0000_0000 && q.dirUsed == p.dirUsed
           && DirAt(q, d) == DirAt(p, d)[address / 0x40_0000 := PageEntry(true, true, true, true, f)]
           && forall c :: ValidRef(c) && c != d ==> DirAt(q, c) == DirAt(p, c)
  {
    forall f | 0 <= f < 32 && !p.used[f] && (forall g :: 0 <= g < f ==> p.used[g])
      ensures f == FirstClear(p.used, 0)
    {}
  }

  /** A free clears the present flag of one entry and the bit of its frame, or changes nothing. */
  lemma FreeUnmaps(p: Pages, d: DirRef, address: u32)
    requires Paging.Sized(p) && ValidRef(d)
    requires var e := DirAt(p, d)[address / 0x40_0000]; e.present ==> e.frame < 32
    ensures var (q, ok) := FreeFrame(p, d, address); var e := DirAt(p, d)[address / 0x40_0000];
      && ok == e.present && (!ok ==> q == p)
      && (ok ==>
           && q.used == p.used[e.frame := false] && q.free == (p.free + 1) % 0x1_0000_0000 && q.dirUsed == p.dirUsed
           && DirAt(q, d) == DirAt(p, d)[address / 0x40_0000 := PageEntry(false, e.writable, e.user, e.large, e.frame)]
           && forall c :: ValidRef(c) && c != d ==> DirAt(q, c) == DirAt(p, c))
  {}

  /** CR3 holds the address below the kernel base. */
  lemma Cr3IsPhysical(m: Layout, d: DirRef)
    requires ValidLayout(m) && ValidRef(d)
    ensures ToCr3(AddressOf(m, d)) == (if d.KernelDir? then m.kernelDir else m.list + 4096 * d.index) - 0xC000_0000
  {}

  // ---------- create ----------

  /** More than eight frames, in 32-bit arithmetic: sizes above 28 MiB, but not the last 4 MiB of sizes, for which
      the sum wraps around. */
  lemma FramesLimit(size: u32)
    ensures FramesNeeded(size) <= 8 <==> size <= 0x1C0_0000 || size > 0xFFC0_0000
  {}

  /** The refusals in any kernel state, in their order: 1 for sixteen counted processes, 2 for an entry point in the
      kernel's half, 3 for no free frame or too large a size; a refused create changes nothing. */
  lemma RefusedIff(m: Layout, k: Kernel, e: Executable, readStatus: int)
    requires ValidLayout(m) && Shaped(k) && |e.name| == 8 && CreateSafe(k, e, readStatus)
    ensures var code :=
        if k.active >= 16 then 1
        else if e.address >= 0xC000_0000 then 2
        else if k.pages.free == 0 || !(e.size <= 0x1C0_0000 || e.size > 0xFFC0_0000) then 3
        else 0;
      if code != 0 then Create(m, k, e, readStatus) == (k, code) else Create(m, k, e, readStatus).1 in {0, 4, 5}
  {
    hide TakePages, FramesNeeded, AllocateCheck, AddressOf, ToCr3, FromCr3, NewPcb;
    FramesLimit(e.size);
    CheckMeansOneFrame(k.pages, e.size);
  }

  /** The answer of every create, on the inputs and the number of free frames: 2 for an entry point in the kernel's
      half, 3 for a size over the limit or no free frame, 5 when only one is free, 4 when the executable cannot be
      read, and otherwise success. */
  lemma CreateCodeIsExact(m: Layout, k: Kernel, own: map<nat, Owner>, e: Executable, readStatus: int)
    requires ValidLayout(m) && Inv(k, own) && |e.name| == 8
    ensures CreateSafe(k, e, readStatus)
    ensures Create(m, k, e, readStatus).1 ==
      if e.address >= 0xC000_0000 then 2
      else if k.pages.free == 0 || !(e.size <= 0x1C0_0000 || e.size > 0xFFC0_0000) then 3
      else if k.pages.free == 1 then 5
      else if readStatus != 0 then 4
      else 0
  {
    hide TakePages, Owned, Scheduled, FramesNeeded, AllocateCheck, AddressOf, ToCr3, FromCr3, NewPcb, Count;
    RunningIsSlot(k, own);
    CreateIsSafe(k, own, e, readStatus);
    CountBounds(k.used);
    FramesLimit(e.size);
    CheckMeansOneFrame(k.pages, e.size);
    if Refusal(k, e) == 0 { TakeKeepsOwned(k, own, e); }
  }

  /** The directory that a create fills: the image's frame at the image, the stack's below the kernel, the kernel at
      0x300, the first 4 MiB unless the image lies there, and nothing else. */
  ghost predicate Maps(dir: PageDirectory, address: u32, image: FrameNumber, stack: FrameNumber) {
    var i := address / 0x40_0000;
    && dir[0x2FF] == PageEntry(true, true, true, true, stack)
    && (i != 0x2FF ==> dir[i] == PageEntry(true, true, true, true, image))
    && dir[0x300] == PageEntry(true, true, false, true, 0)
    && (i != 0 ==> dir[0] == PageEntry(true, true, false, true, 0))
    && forall x :: 0 <= x < 1024 && x != 0 && x != i && x != 0x2FF && x != 0x300 ==> !dir[x].present
  }

  lemma LowestAfterLowest(used: seq<bool>)
    requires |used| == 32 && used[0]
    ensures var f := FirstClear(used, 0); f >= 1 && (f < 32 ==> f < FirstClear(used[f := true], 0))
  {
    var f := FirstClear(used, 0);
    if f < 32 {
      var u := used[f := true];
      assert forall g :: 0 <= g < f ==> u[g];
    }
  }

  lemma TakenMaps(p: Pages, address: u32)
    requires Paging.Sized(p) && address < 0xC000_0000 && p.used[0]
    ensures var t := TakePages(p, address);
      t.dir != -1 ==>
        && t.pages.dirs[t.dir][0x300] == PageEntry(true, true, false, true, 0)
        && (t.image != 0 && t.stack != 0 ==>
             && 1 <= t.image / 0x40_0000 < t.stack / 0x40_0000 < 32
             && t.image == t.image / 0x40_0000 * 0x40_0000 && t.stack == t.stack / 0x40_0000 * 0x40_0000
             && Maps(t.pages.dirs[t.dir], address, t.image / 0x40_0000, t.stack / 0x40_0000))
  {
    hide FirstClear;
    var (p1, i) := CreateDirectory(p);
    if i != -1 {
      NewDirectoryMaps(p);
      var (p2, image) := AllocateFrame(p1, UserDir(i), address);
      var (p3, stack) := AllocateFrame(p2, UserDir(i), USER_STACK);
      assert address / 0x40_0000 < 0x300 && USER_STACK / 0x40_0000 == 0x2FF;
      LowestAfterLowest(p.used);
    }
  }

  lemma FrameZeroIsUsed(p: Pages, own: map<nat, Owner>)
    requires Owned(p, own)
    ensures Paging.Sized(p) && p.used[0]
  {}

  /** A successful create: a directory that was free, filled as above and named by the new process; its two frames
      recorded as kernel addresses; its name, and the pid of its slot. */
  lemma CreateMapsMemory(m: Layout, k: Kernel, own: map<nat, Owner>, e: Executable)
    requires ValidLayout(m) && Inv(k, own) && |e.name| == 8
    ensures CreateSafe(k, e, 0)
    ensures var (r, code) := Create(m, k, e, 0); var i := FirstClear(k.used, 0); var j := TakePages(k.pages, e.address).dir;
      code == 0 ==>
        && 0 <= i < 16 && 0 <= j < 32 && !k.pages.dirUsed[j] && r.pages.dirUsed[j]
        && r.procs[i].pid == i && r.procs[i].name == e.name + [0, 0] && r.procs[i].state == READY && r.procs[i].frameCount == 2
        && r.procs[i].context.pageDirectory == m.list + 4096 * j
        && exists image: FrameNumber, stack: FrameNumber ::
             && 1 <= image < stack < 32 && Maps(r.pages.dirs[j], e.address, image, stack)
             && r.procs[i].frames[0] == 0xC000_0000 + image * 0x40_0000 && r.procs[i].frames[1] == 0xC000_0000 + stack * 0x40_0000
  {
    hide TakePages, Owned, FramesNeeded, AllocateCheck, ToCr3, FromCr3, Maps, Count;
    CreateIsSafe(k, own, e, 0);
    RunningIsSlot(k, own);
    if Refusal(k, e) == 0 {
      TakeKeepsOwned(k, own, e);
      FrameZeroIsUsed(k.pages, own);
      TakenMaps(k.pages, e.address);
    }
  }

  // ---------- destroy ----------

  /** A destroyed slot is zero in every word and killed; nothing else of the process table changes, and no frame or
      directory comes back. */
  lemma DestroyBlanks(k: Kernel, pid: u32)
    requires Scheduled(k) && 1 <= pid < 16 && k.used[pid]
    ensures SlotOfPid(k.procs, pid, 0) == pid
    ensures var (r, ok) := Destroy(k, pid); var p := r.procs[pid];
      && ok && p.pid == 0 && p.state == KILLED && p.frameCount == 0 && |p.name| == 10 && |p.frames| == 8
      && (forall i :: 0 <= i < 10 ==> p.name[i] == 0) && (forall i :: 0 <= i < 8 ==> p.frames[i] == 0)
      && (forall i :: 0 <= i < 17 ==> Flatten(p.context)[i] == 0)
      && (forall i :: 0 <= i < 16 && i != pid ==> r.procs[i] == k.procs[i] && r.used[i] == k.used[i]) && !r.used[pid]
      && r.active == (k.active - 1) % 0x1_0000_0000 && r.pages == k.pages && r.cpu == k.cpu && r.running == k.running
  {
    DestroyIsExact(k, pid);
    assert SlotOk(k, pid);
    assert forall j :: 0 <= j < pid ==> SlotOk(k, j) ==> k.procs[j].pid != pid;
  }

  // ---------- the kernel is mapped everywhere ----------

  /** The boot directory and every directory in use map the kernel at 0xC0000000: present, writable, supervisor,
      4 MiB, frame 0. */
  ghost predicate KernelMapped(p: Pages)
    requires Paging.Sized(p)
  {
    && p.kernelDir[0x300] == PageEntry(true, true, false, true, 0)
    && forall j :: 0 <= j < DIRECTORY_COUNT && p.dirUsed[j] ==> p.dirs[j][0x300] == PageEntry(true, true, false, true, 0)
  }

  lemma CreateKeepsKernelMapped(m: Layout, k: Kernel, own: map<nat, Owner>, e: Executable, readStatus: int)
    requires ValidLayout(m) && Inv(k, own) && |e.name| == 8 && Shaped(k) && KernelMapped(k.pages)
    ensures CreateSafe(k, e, readStatus) && KernelMapped(Create(m, k, e, readStatus).0.pages)
  {
    hide TakePages, Owned, FramesNeeded, AllocateCheck, ToCr3, FromCr3, Maps, Count, NewPcb, AddressOf;
    CreateIsSafe(k, own, e, readStatus);
    if Refusal(k, e) == 0 {
      TakeKeepsOwned(k, own, e);
      FrameZeroIsUsed(k.pages, own);
      TakenMaps(k.pages, e.address);
    }
  }

  lemma StepKeepsKernelMapped(m: Layout, k: Kernel, own: map<nat, Owner>, ev: Event)
    requires ValidLayout(m) && Inv(k, own) && Permitted(k, ev) && Defined(k, ev) && KernelMapped(k.pages)
    ensures KernelMapped(Step(m, k, ev).pages)
  {
    hide Owned, Scheduled, Budgeted, Create, KernelMapped, CreateSafe;
    if ev.CreateProcess? { CreateKeepsKernelMapped(m, k, own, ev.e, ev.readStatus); }
  }

  lemma {:induction false} RunKeepsKernelMapped(m: Layout, k: Kernel, own: map<nat, Owner>, events: seq<Event>)
    requires ValidLayout(m) && Inv(k, own) && DefinedRun(m, k, events) && Shaped(k) && KernelMapped(k.pages)
    ensures Shaped(Run(m, k, events)) && KernelMapped(Run(m, k, events).pages)
    decreases |events|
  {
    hide Inv, Step, OwnAfter, Defined, KernelMapped;
    if events != [] {
      StepKeeps(m, k, own, events[0]);
      StepKeepsKernelMapped(m, k, own, events[0]);
      RunningIsSlot(Step(m, k, events[0]), OwnAfter(k, own, events[0]));
      RunKeepsKernelMapped(m, Step(m, k, events[0]), OwnAfter(k, own, events[0]), events[1..]);
    }
  }

  lemma NothingMappedBefore(m: Layout, cpu: Cpu)
    requires ValidLayout(m)
    ensures Paging.Sized(BeforeShell(m, cpu).pages) && KernelMapped(BeforeShell(m, cpu).pages)
  {}

  lemma BootedMapsKernel(m: Layout, cpu: Cpu)
    requires ValidLayout(m)
    ensures Shaped(Booted(m, cpu, 0)) && KernelMapped(Booted(m, cpu, 0).pages)
  {
    hide TakePages, AllocateFrame, Owned, FramesNeeded, AllocateCheck, AddressOf, ToCr3, NewPcb, Maps;
    var own := BeforeShellOwns(m, cpu);
    var k := BeforeShell(m, cpu);
    NothingMappedBefore(m, cpu);
    BootIsSafe(m, cpu, 0);
    CheckMeansOneFrame(k.pages, SHELL.size);
    if Refusal(k, SHELL) == 0 {
      TakeKeepsOwned(k, own, SHELL);
      FrameZeroIsUsed(k.pages, own);
      TakenMaps(k.pages, SHELL.address);
    }
  }

  /** From boot, over every run, the boot directory and every directory in use map the kernel, so a timer interrupt finds its handler in
      whichever address space it strikes. */
  lemma KernelIsAlwaysMapped(m: Layout, cpu: Cpu, events: seq<Event>)
    requires ValidLayout(m) && PermittedRun(m, Booted(m, cpu, 0), events)
    ensures DefinedRun(m, Booted(m, cpu, 0), events) && Shaped(Run(m, Booted(m, cpu, 0), events))
    ensures var p := Run(m, Booted(m, cpu, 0), events).pages;
      && p.kernelDir[0x300] == PageEntry(true, true, false, true, 0)
      && forall j :: 0 <= j < 32 && p.dirUsed[j] ==> p.dirs[j][0x300] == PageEntry(true, true, false, true, 0)
  {
    hide Inv, Addressed, Booted;
    var own := BootEstablishes(m, cpu);
    var own' := RunKeeps(m, Booted(m, cpu, 0), own, events);
    BootedMapsKernel(m, cpu);
    RunKeepsKernelMapped(m, Booted(m, cpu, 0), own, events);
  }

  // ---------- boot in numbers ----------

  lemma FirstIs(s: seq<bool>, n: nat)
    requires n < |s| && !s[n] && forall k :: 0 <= k < n ==> s[k]
    ensures FirstClear(s, 0) == n
  {}

  lemma PagesBeforeShell(m: Layout, cpu: Cpu)
    requires ValidLayout(m)
    ensures var k := BeforeShell(m, cpu); var p := k.pages;
      && Shaped(k) && (forall f :: 0 <= f < 32 ==> p.used[f] == (f < 2)) && (forall j :: 0 <= j < 32 ==> !p.dirUsed[j])
      && p.kernelDir[0] == PageEntry(true, true, true, true, 1) && p.kernelDir[0x300] == PageEntry(true, true, false, true, 0)
      && (forall i :: 0 <= i < 16 ==> k.procs[i] == NO_PCB && !k.used[i])
  {
    FirstIs(PowerOn(m, cpu).pages.used, 1);
  }

  lemma ShellTakes(p: Pages)
    requires Paging.Sized(p) && (forall f :: 0 <= f < 32 ==> p.used[f] == (f < 2)) && forall j :: 0 <= j < 32 ==> !p.dirUsed[j]
    ensures var t := TakePages(p, 0);
      && t.dir == 0 && t.image == 0x80_0000 && t.stack == 0xC0_0000 && t.pages.kernelDir == p.kernelDir
      && (forall f :: 0 <= f < 32 ==> t.pages.used[f] == (f < 4)) && (forall j :: 0 <= j < 32 ==> t.pages.dirUsed[j] == (j == 0))
      && Maps(t.pages.dirs[0], 0, 2, 3)
  {
    hide Maps;
    TakenMaps(p, 0);
    FirstIs(p.dirUsed, 0);
    FirstIs(p.used, 2);
    FirstIs(p.used[2 := true], 3);
  }

  /** The shell's process as boot leaves it. */
  ghost predicate ShellRuns(k: Kernel, cr3: u32) {
    && Shaped(k) && k.running == 0 && k.active == 0 && (forall i :: 0 <= i < 16 ==> k.used[i] == (i == 0))
    && k.procs[0].pid == 0 && k.procs[0].name == ['s' as int, 'h' as int, 'e' as int, 'l' as int, 'l' as int, 0, 0, 0, 0, 0]
    && k.procs[0].state == RUNNING && k.procs[0].frames[0] == 0xC080_0000 && k.procs[0].frames[1] == 0xC0C0_0000
    && k.cpu == Cpu(0, 0, 0xBFFF_FFFC, 0xBFFF_FFFC, 0, 0, 0, 0, 0x23, 0x23, 0x23, 0x23, 0, 0x202, 0x1B, 0x23, cr3)
  }

  lemma FirstSwitch(k: Kernel, directory: u32)
    requires Shaped(k) && k.running == 0 && k.active == 0 && forall i :: 0 <= i < 16 ==> k.used[i] == (i == 0)
    requires forall i :: 1 <= i < 16 ==> k.procs[i] == NO_PCB
    requires k.procs[0] == NewPcb(NO_PCB, 0, SHELL, directory, 0x80_0000, 0xC0_0000)
    ensures ShellRuns(SwitchToNext(k), ToCr3(directory)) && SwitchToNext(k).pages == k.pages
  {
    hide NextFrom, Restored, ToCr3, NewContext;
    NothingReady(k.procs, 1);
    FreshContext(0, directory);
  }

  /** After boot: frame 0 is the kernel's, 1 the boot directory's, 2 and 3 the shell's image and stack, all other
      frames and directories are free, and the processor is about to run the shell at address 0 in ring 3. */
  lemma BootInNumbers(m: Layout, cpu: Cpu)
    requires ValidLayout(m)
    ensures var k := Booted(m, cpu, 0);
      && ShellRuns(k, m.list - 0xC000_0000)
      && (forall f :: 0 <= f < 32 ==> k.pages.used[f] == (f < 4)) && (forall j :: 0 <= j < 32 ==> k.pages.dirUsed[j] == (j == 0))
      && k.pages.kernelDir[0] == PageEntry(true, true, true, true, 1) && k.pages.kernelDir[0x300] == PageEntry(true, true, false, true, 0)
      && Maps(k.pages.dirs[0], 0, 2, 3)
  {
    hide BeforeShell, FramesNeeded, AllocateCheck, TakePages, SwitchToNext, NewPcb, Count, Owned, Inv, Addressed, Lost, Maps, ShellRuns, ToCr3;
    BootIsSafe(m, cpu, 0);
    var own := BootEstablishes(m, cpu);
    PagesBeforeShell(m, cpu);
    var k := BeforeShell(m, cpu);
    ShellTakes(k.pages);
    FirstIs(k.used, 0);
    Cr3IsPhysical(m, UserDir(0));
    FirstSwitch(Create(m, k, SHELL, 0).0.(active := 0, running := 0), AddressOf(m, UserDir(0)));
  }

  // ---------- saved words ----------

  /** The words of the saved context: the twelve register words as they lie on the stack, then flags, code address,
      the user stack selector, the code selector, and CR3 above the kernel base. */
  lemma SavedWords(s: seq<u32>, top: nat, cr3: u32)
    requires top + 17 <= |s|
    ensures var w := Flatten(ContextOf(FrameAt(s, top), cr3));
      && w[..12] == s[top..top + 12] && w[12] == s[top + 16] && w[13] == s[top + 14] && w[14] == 0x23 && w[15] == s[top + 15]
      && w[16] == (cr3 + 0xC000_0000) % 0x1_0000_0000
  {}
}
