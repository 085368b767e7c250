/** What a process finds when it runs again: its registers, its page directory and its memory map. */
module Isolation {
  import opened Words
  import opened Paging
  import opened Context
  import opened Processes
  import opened KernelRuns

  // ---------- address spaces ----------

  ghost predicate Serves(m: Layout, k: Kernel, i: nat, j: nat)
    requires ValidLayout(m) && Shaped(k) && i < PROCESS_MAX
  {
    j < DIRECTORY_COUNT && k.pages.dirUsed[j] && k.procs[i].context.pageDirectory == AddressOf(m, UserDir(j))
  }

  /** Every process has a directory of its own, in use, and CR3 holds the running one's. */
  ghost predicate Addressed(m: Layout, k: Kernel)
    requires ValidLayout(m)
  {
    && Shaped(k)
    && (forall i :: 0 <= i < PROCESS_MAX && k.used[i] ==> exists j :: Serves(m, k, i, j))
    && (forall i, j :: 0 <= i < j < PROCESS_MAX && k.used[i] && k.used[j] ==>
          k.procs[i].context.pageDirectory != k.procs[j].context.pageDirectory)
    && k.cpu.cr3 == ToCr3(k.procs[k.running].context.pageDirectory)
  }

  /** Directory addresses survive the trip through CR3. */
  lemma RunningDirectory(m: Layout, k: Kernel)
    requires ValidLayout(m) && Scheduled(k) && Addressed(m, k)
    ensures FromCr3(k.cpu.cr3) == k.procs[k.running].context.pageDirectory
    ensures 0 < k.cpu.cr3 < WORD - KERNEL_BASE
  {
    var j :| Serves(m, k, k.running, j);
    AddressesDiffer(m, UserDir(j), UserDir(j));
  }

  /** The state of a tick, slot by slot. */
  lemma TickState(k: Kernel, own: map<nat, Owner>, kernelEsp: u32)
    requires Inv(k, own)
    ensures FirstRunning(k.procs, 0) < PROCESS_MAX
    ensures var r := Tick(k, kernelEsp); var ctx := ContextOf(TrapFrame(k.cpu, 0x20, kernelEsp), k.cpu.cr3);
      && r.pages == k.pages && r.used == k.used && r.running < PROCESS_MAX && k.used[r.running]
      && (forall i :: 0 <= i < PROCESS_MAX ==> r.procs[i].context == if i == k.running then ctx else k.procs[i].context)
      && r.cpu == Restored(r.procs[r.running].context)
  {
    hide Owned, ContextOf, TrapFrame, Restored;
    RunningSlot(k);
    TickRuns(k, kernelEsp);
    ChoiceIsLive(k);
  }

  lemma TickKeepsAddressed(m: Layout, k: Kernel, own: map<nat, Owner>, kernelEsp: u32)
    requires ValidLayout(m) && Inv(k, own) && Addressed(m, k)
    ensures FirstRunning(k.procs, 0) < PROCESS_MAX && Addressed(m, Tick(k, kernelEsp))
  {
    hide Tick, Owned, AddressOf;
    TickState(k, own, kernelEsp);
    RunningDirectory(m, k);
    var r := Tick(k, kernelEsp);
    forall i | 0 <= i < PROCESS_MAX && r.used[i]
      ensures exists j :: Serves(m, r, i, j)
    {
      var j :| Serves(m, k, i, j);
      assert Serves(m, r, i, j);
    }
  }

  /** A create that passes its checks, finds both its frames, and cannot read its executable. */
  predicate ReadFails(k: Kernel, e: Executable, readStatus: int) {
    Refusal(k, e) == 0 && k.pages.free >= 2 && readStatus != 0
  }

  lemma NewDirectoryIsNew(m: Layout, k: Kernel, d: nat)
    requires ValidLayout(m) && Scheduled(k) && Addressed(m, k) && d < DIRECTORY_COUNT && !k.pages.dirUsed[d]
    ensures forall i :: 0 <= i < PROCESS_MAX && k.used[i] ==> k.procs[i].context.pageDirectory != AddressOf(m, UserDir(d))
    ensures ToCr3(AddressOf(m, UserDir(d))) != k.cpu.cr3
  {
    hide AddressOf, ToCr3;
    forall i | 0 <= i < PROCESS_MAX && k.used[i]
      ensures k.procs[i].context.pageDirectory != AddressOf(m, UserDir(d))
      ensures ToCr3(k.procs[i].context.pageDirectory) != ToCr3(AddressOf(m, UserDir(d)))
    {
      var j :| Serves(m, k, i, j);
      AddressesDiffer(m, UserDir(j), UserDir(d));
    }
  }

  lemma CreateServes(m: Layout, k: Kernel, r: Kernel, d: nat, n: nat, created: bool)
    requires ValidLayout(m) && Shaped(k) && Addressed(m, k) && Shaped(r) && d < DIRECTORY_COUNT
    requires r.pages.dirUsed == k.pages.dirUsed[d := true] && r.running == k.running && r.cpu.cr3 == k.cpu.cr3
    requires k.used[k.running]
    requires !created ==> r.procs == k.procs && r.used == k.used
    requires created ==> n < PROCESS_MAX && !k.used[n] && r.used == k.used[n := true] && r.procs == k.procs[n := r.procs[n]]
    requires created ==> r.procs[n].context.pageDirectory == AddressOf(m, UserDir(d))
    requires forall i :: 0 <= i < PROCESS_MAX && k.used[i] ==> k.procs[i].context.pageDirectory != AddressOf(m, UserDir(d))
    ensures Addressed(m, r)
  {
    hide AddressOf;
    forall i | 0 <= i < PROCESS_MAX && r.used[i]
      ensures exists j :: Serves(m, r, i, j)
    {
      if created && i == n {
        assert Serves(m, r, i, d);
      } else {
        var j :| Serves(m, k, i, j);
        assert Serves(m, r, i, j);
      }
    }
  }

  /** A create keeps the address spaces straight in every case but this one, in which CR3 is left on the
      directory that was being built. */
  lemma CreateKeepsAddressedIff(m: Layout, k: Kernel, own: map<nat, Owner>, e: Executable, readStatus: int)
    requires ValidLayout(m) && Inv(k, own) && Addressed(m, k) && |e.name| == 8
    ensures CreateSafe(k, e, readStatus)
    ensures Addressed(m, Create(m, k, e, readStatus).0) <==> !ReadFails(k, e, readStatus)
  {
    hide TakePages, Owned, AllocateCheck, FramesNeeded, NewPcb, AddressOf, ToCr3, FromCr3, OrFlags;
    CreateIsSafe(k, own, e, readStatus);
    var (r, code) := Create(m, k, e, readStatus);
    if Refusal(k, e) == 0 {
      TakeKeepsOwned(k, own, e);
      var t := TakePages(k.pages, e.address);
      RunningDirectory(m, k);
      NewDirectoryIsNew(m, k, t.dir);
      if code == FAIL_FS_READ {
        assert r.procs == k.procs && r.running == k.running;
      } else {
        if code == CREATE_SUCCESS { CreatedPcb(m, k, e, FirstClear(k.used, 0)); }
        CreateServes(m, k, r, t.dir, FirstClear(k.used, 0), code == CREATE_SUCCESS);
      }
    }
  }

  lemma DestroyKeepsAddressed(m: Layout, k: Kernel, pid: u32)
    requires ValidLayout(m) && Scheduled(k) && Addressed(m, k) && pid != 0 && pid != k.running
    ensures SlotOfPid(k.procs, pid, 0) < PROCESS_MAX ==> pid < PROCESS_MAX
    ensures Addressed(m, Destroy(k, pid).0)
  {
    hide AddressOf, Destroy, Scheduled, SlotOfPid;
    DestroyIsExact(k, pid);
    var r := Destroy(k, pid).0;
    forall i | 0 <= i < PROCESS_MAX && r.used[i]
      ensures exists j :: Serves(m, r, i, j)
    {
      var j :| Serves(m, k, i, j);
      assert Serves(m, r, i, j);
    }
  }

  /** Runs in which every executable that a create gets to read is read. */
  ghost predicate ReadsSucceed(m: Layout, k: Kernel, events: seq<Event>)
    requires ValidLayout(m) && DefinedRun(m, k, events)
    decreases |events|
  {
    events == [] ||
    (  (events[0].CreateProcess? ==> !ReadFails(k, events[0].e, events[0].readStatus))
    && ReadsSucceed(m, Step(m, k, events[0]), events[1..]))
  }

  lemma StepKeepsAddressed(m: Layout, k: Kernel, own: map<nat, Owner>, ev: Event)
    requires ValidLayout(m) && Inv(k, own) && Addressed(m, k) && Permitted(k, ev) && Defined(k, ev)
    requires ev.CreateProcess? ==> !ReadFails(k, ev.e, ev.readStatus)
    ensures Addressed(m, Step(m, k, ev))
  {
    hide Owned, Create, Destroy, Tick, CreateSafe, AddressOf;
    match ev
    case Timer(kernelEsp) => TickKeepsAddressed(m, k, own, kernelEsp);
    case CreateProcess(e, readStatus) => CreateKeepsAddressedIff(m, k, own, e, readStatus);
    case DestroyProcess(pid) => DestroyKeepsAddressed(m, k, pid);
    case UserCode(cpu) =>
      forall i | 0 <= i < PROCESS_MAX && k.used[i]
        ensures exists j :: Serves(m, k.(cpu := cpu), i, j)
      {
        var j :| Serves(m, k, i, j);
        assert Serves(m, k.(cpu := cpu), i, j);
      }
  }

  /** Whenever user code runs, CR3 names the running process's own directory. */
  lemma {:induction false} RunKeepsAddressed(m: Layout, k: Kernel, own: map<nat, Owner>, events: seq<Event>)
    requires ValidLayout(m) && Inv(k, own) && Addressed(m, k) && DefinedRun(m, k, events) && ReadsSucceed(m, k, events)
    ensures Addressed(m, Run(m, k, events))
    decreases |events|
  {
    hide Inv, Step, OwnAfter, Addressed;
    if events != [] {
      RunningIsSlot(k, own);
      StepKeeps(m, k, own, events[0]);
      StepKeepsAddressed(m, k, own, events[0]);
      RunKeepsAddressed(m, Step(m, k, events[0]), OwnAfter(k, own, events[0]), events[1..]);
    }
  }

  lemma StepKeepsDirectories(m: Layout, k: Kernel, own: map<nat, Owner>, ev: Event, j: nat)
    requires ValidLayout(m) && Inv(k, own) && Permitted(k, ev) && Defined(k, ev) && j < DIRECTORY_COUNT && k.pages.dirUsed[j]
    ensures Shaped(Step(m, k, ev)) && Step(m, k, ev).pages.dirUsed[j] && Step(m, k, ev).pages.dirs[j] == k.pages.dirs[j]
  {
    hide Owned, TakePages, NewPcb, AllocateCheck, FramesNeeded, AddressOf;
    if ev.CreateProcess? && Refusal(k, ev.e) == 0 { TakeKeepsOwned(k, own, ev.e); }
  }

  /** No event touches the contents of a directory that is in use. */
  lemma {:induction false} DirectoriesKept(m: Layout, k: Kernel, own: map<nat, Owner>, events: seq<Event>, j: nat)
    requires ValidLayout(m) && Inv(k, own) && DefinedRun(m, k, events) && j < DIRECTORY_COUNT && k.pages.dirUsed[j]
    ensures Shaped(Run(m, k, events))
    ensures Run(m, k, events).pages.dirUsed[j] && Run(m, k, events).pages.dirs[j] == k.pages.dirs[j]
    decreases |events|
  {
    hide Owned, Scheduled, Budgeted, Step, OwnAfter;
    RunningIsSlot(k, own);
    if events != [] {
      StepKeeps(m, k, own, events[0]);
      StepKeepsDirectories(m, k, own, events[0], j);
      RunningIsSlot(Step(m, k, events[0]), OwnAfter(k, own, events[0]));
      DirectoriesKept(m, Step(m, k, events[0]), OwnAfter(k, own, events[0]), events[1..], j);
    }
  }

  // ---------- registers ----------

  lemma StepKeepsContext(m: Layout, k: Kernel, own: map<nat, Owner>, ev: Event, p: nat)
    requires ValidLayout(m) && Inv(k, own) && Permitted(k, ev) && Defined(k, ev)
    requires p < PROCESS_MAX && k.used[p] && p != k.running && ev != DestroyProcess(p)
    ensures Shaped(Step(m, k, ev)) && Step(m, k, ev).used[p] && Step(m, k, ev).procs[p].context == k.procs[p].context
    ensures Step(m, k, ev).running == p ==> ev.Timer? && Step(m, k, ev).cpu == Restored(k.procs[p].context)
  {
    hide Owned, TakePages, NewPcb, AllocateCheck, FramesNeeded, AddressOf, Tick, Destroy, Restored;
    match ev
    case Timer(kernelEsp) => TickState(k, own, kernelEsp);
    case CreateProcess(e, readStatus) =>
    case DestroyProcess(pid) => DestroyIsExact(k, pid);
    case UserCode(cpu) =>
  }

  /** The run dispatches `p` with its last event and not before. */
  ghost predicate DispatchedLast(m: Layout, k: Kernel, events: seq<Event>, p: nat)
    requires ValidLayout(m) && DefinedRun(m, k, events)
    decreases |events|
  {
    events != [] &&
    var next := Step(m, k, events[0]);
    if next.running == p then events[1..] == [] else DispatchedLast(m, next, events[1..], p)
  }

  /** A waiting process is dispatched with exactly the context it was left with, whatever the others do. */
  lemma {:induction false} ContextSurvives(m: Layout, k: Kernel, own: map<nat, Owner>, events: seq<Event>, p: nat)
    requires ValidLayout(m) && Inv(k, own) && DefinedRun(m, k, events)
    requires p < PROCESS_MAX && Spares(events, p) && k.used[p] && p != k.running && DispatchedLast(m, k, events, p)
    ensures Run(m, k, events).running == p && Run(m, k, events).cpu == Restored(k.procs[p].context)
    decreases |events|
  {
    hide Owned, Scheduled, Budgeted, Step, OwnAfter, Restored, Defined;
    StepKeeps(m, k, own, events[0]);
    RunningIsSlot(k, own);
    StepKeepsContext(m, k, own, events[0], p);
    var next, rest := Step(m, k, events[0]), events[1..];
    assert Spares(rest, p) by { assert forall i :: 0 <= i < |rest| ==> rest[i] == events[i + 1]; }
    if next.running != p {
      ContextSurvives(m, next, OwnAfter(k, own, events[0]), rest, p);
    }
  }

  lemma RunningUsed(k: Kernel)
    requires Scheduled(k)
    ensures Shaped(k) && k.running < PROCESS_MAX && k.used[k.running]
  {}

  /** Context isolation.  A process preempted by a timer tick with its data selector in ring 3 finds, when it is
      next dispatched, the processor exactly as it left it: all registers, code address, flags, code selector
      and page directory (and the user stack selector normalised). */
  lemma ResumesExactly(m: Layout, k: Kernel, own: map<nat, Owner>, kernelEsp: u32, events: seq<Event>)
    requires ValidLayout(m) && Inv(k, own) && Addressed(m, k) && k.cpu.ds % 4 != 0
    requires FirstRunning(k.procs, 0) < PROCESS_MAX && DefinedRun(m, Tick(k, kernelEsp), events)
    requires Spares(events, k.running)
    requires if Tick(k, kernelEsp).running == k.running then events == []
      else DispatchedLast(m, Tick(k, kernelEsp), events, k.running)
    ensures Run(m, Tick(k, kernelEsp), events).running == k.running
    ensures Run(m, Tick(k, kernelEsp), events).cpu == k.cpu.(ss := 0x23)
  {
    hide Owned, Budgeted, Scheduled, Tick, Restored, ContextOf, TrapFrame, ToCr3, Addressed;
    RunningUsed(k);
    TickKeeps(k, own, kernelEsp);
    var next := Tick(k, kernelEsp);
    TickState(k, own, kernelEsp);
    RunningDirectory(m, k);
    RunningUsed(k);
    SaveRestore(k.cpu, 0x20, kernelEsp);
    if next.running != k.running {
      ContextSurvives(m, next, own, events, k.running);
    }
  }

  lemma FreshContext(address: u32, directory: u32)
    ensures Restored(NewContext(NO_CONTEXT, address, directory)) ==
      Cpu(0, 0, 0xBFFF_FFFC, 0xBFFF_FFFC, 0, 0, 0, 0, 0x23, 0x23, 0x23, 0x23, address, 0x202, 0x1B, 0x23, ToCr3(directory))
  {}

  /** A created process starts at its image address on a fresh user stack in ring 3, interrupts enabled, all
      other registers zero, with its own directory loaded. */
  lemma StartsFresh(m: Layout, k: Kernel, own: map<nat, Owner>, e: Executable)
    requires ValidLayout(m) && Inv(k, own) && |e.name| == 8
    ensures CreateSafe(k, e, 0)
    ensures var (r, code) := Create(m, k, e, 0); var i := FirstClear(k.used, 0); var t := TakePages(k.pages, e.address);
      code == CREATE_SUCCESS ==>
        && i < PROCESS_MAX && i != r.running && r.used[i] && !k.used[i]
        && Restored(r.procs[i].context) ==
             Cpu(0, 0, 0xBFFF_FFFC, 0xBFFF_FFFC, 0, 0, 0, 0, 0x23, 0x23, 0x23, 0x23, e.address, 0x202, 0x1B, 0x23,
                 ToCr3(AddressOf(m, UserDir(t.dir))))
  {
    hide TakePages, Owned, AllocateCheck, FramesNeeded, AddressOf, ToCr3, Restored, NewContext, NewPcb;
    CreateIsSafe(k, own, e, 0);
    if Refusal(k, e) == 0 {
      var t := TakePages(k.pages, e.address);
      FreshContext(e.address, AddressOf(m, UserDir(t.dir)));
      if FirstClear(k.used, 0) < PROCESS_MAX { CreatedPcb(m, k, e, FirstClear(k.used, 0)); }
    }
  }

  // ---------- boot ----------

  function NoMappings(): PageDirectory { seq(ENTRY_COUNT, _ => NO_ENTRY) }

  /** The statically initialised state: frame 0 taken, the identity mapping of the boot directory removed. */
  ghost function PowerOn(m: Layout, cpu: Cpu): Kernel
    requires ValidLayout(m)
  {
    var kernelDir := seq(ENTRY_COUNT, i => if i == 0x300 then KERNEL_ENTRY else NO_ENTRY);
    var pages := Pages(seq(FRAME_COUNT, i => i == 0), FRAME_COUNT - 1, seq(DIRECTORY_COUNT, _ => false),
                       seq(DIRECTORY_COUNT, _ => NoMappings()), kernelDir);
    Kernel(pages, seq(PROCESS_MAX, _ => NO_PCB), seq(PROCESS_MAX, _ => false), 0, 0, cpu.(cr3 := ToCr3(AddressOf(m, KernelDir))))
  }

  const SHELL := Executable(0, 0x10_0000, ['s' as int, 'h' as int, 'e' as int, 'l' as int, 'l' as int, 0, 0, 0])

  /** `kernel_setup` before the first create: the boot directory gets a frame for its first 4 MiB. */
  ghost function BeforeShell(m: Layout, cpu: Cpu): Kernel
    requires ValidLayout(m)
  {
    var k := PowerOn(m, cpu);
    k.(pages := AllocateFrame(k.pages, KernelDir, 0).0)
  }

  lemma {:induction false} CountNone(s: seq<bool>)
    requires forall i :: 0 <= i < |s| ==> !s[i]
    ensures Count(s) == 0
    decreases |s|
  {
    if s != [] { CountNone(s[..|s| - 1]); }
  }

  lemma PowerOnOwnsNothing(m: Layout, cpu: Cpu)
    requires ValidLayout(m)
    ensures var k := PowerOn(m, cpu);
      Shaped(k) && Owned(k.pages, map[]) && k.pages.free == 31 && Count(k.pages.dirUsed) == 0 && Count(k.used) == 0
  {
    var k := PowerOn(m, cpu);
    var none := seq(FRAME_COUNT, _ => false);
    CountNone(none);
    CountUpdate(none, 0, true);
    assert k.pages.used == none[0 := true];
    CountNone(k.pages.dirUsed);
    CountNone(k.used);
  }

  lemma BeforeShellOwns(m: Layout, cpu: Cpu) returns (own: map<nat, Owner>)
    requires ValidLayout(m)
    ensures var k := BeforeShell(m, cpu);
      && Shaped(k) && Owned(k.pages, own) && Lost(k.pages, own) == {} && k.pages.free == 30
      && Count(k.pages.dirUsed) == 0 && Count(k.used) == 0
      && k.procs == PowerOn(m, cpu).procs && k.used == PowerOn(m, cpu).used && k.active == 0 && k.cpu.cr3 == ToCr3(AddressOf(m, KernelDir))
  {
    hide Owned, AddressOf, ToCr3;
    PowerOnOwnsNothing(m, cpu);
    var k := PowerOn(m, cpu);
    own := OwnAfterAllocate(k.pages, map[], KernelDir, 0);
    AllocateKeepsOwned(k.pages, map[], KernelDir, 0);
  }

  lemma BootIsSafe(m: Layout, cpu: Cpu, readStatus: int)
    requires ValidLayout(m)
    ensures CreateSafe(BeforeShell(m, cpu), SHELL, readStatus)
  {
    hide Owned, AddressOf, ToCr3, TakePages, AllocateFrame, Lost;
    var own := BeforeShellOwns(m, cpu);
    var k := BeforeShell(m, cpu);
    CheckMeansOneFrame(k.pages, SHELL.size);
    TakeKeepsOwned(k, own, SHELL);
    assert FirstClear(k.used, 0) == 0;
  }

  /** `scheduler_init` resets the process count after the shell has been counted, then slot 0 is started;
      `readStatus` is what reading the shell's executable returned, which nobody checks. */
  ghost function Booted(m: Layout, cpu: Cpu, readStatus: int): Kernel
    requires ValidLayout(m)
  {
    BootIsSafe(m, cpu, readStatus);
    SwitchToNext(Create(m, BeforeShell(m, cpu), SHELL, readStatus).0.(active := 0, running := 0))
  }

  lemma NoShell(m: Layout, cpu: Cpu, readStatus: int)
    requires ValidLayout(m) && readStatus != 0
    ensures !Booted(m, cpu, readStatus).used[0]
  {
    hide TakePages, AllocateFrame, AddressOf, ToCr3, Restored, NextFrom;
    BootIsSafe(m, cpu, readStatus);
    assert !BeforeShell(m, cpu).used[0];
  }

  lemma {:induction false} NothingReady(procs: seq<Pcb>, i: nat)
    requires |procs| == PROCESS_MAX && 1 <= i <= PROCESS_MAX && forall j :: 1 <= j < PROCESS_MAX ==> procs[j].state != READY
    ensures NextFrom(procs, 0, i) == 0
    decreases PROCESS_MAX - i
  {
    if i < PROCESS_MAX { NothingReady(procs, i + 1); }
  }

  lemma ShellAlone(m: Layout, k: Kernel, d: nat)
    requires ValidLayout(m) && Shaped(k) && k.running == 0 && d < DIRECTORY_COUNT && k.pages.dirUsed[d]
    requires k.used == seq(PROCESS_MAX, i => i == 0)
    requires forall i :: 1 <= i < PROCESS_MAX ==> k.procs[i] == NO_PCB
    requires k.procs[0].pid == 0 && k.procs[0].context.pageDirectory == AddressOf(m, UserDir(d))
    ensures var r := SwitchToNext(k);
      Scheduled(r) && Addressed(m, r) && r.running == 0 && r.used == k.used && r.active == k.active && r.pages == k.pages
  {
    hide AddressOf;
    NextFromNone(k.procs, 0, 1);
    NothingReady(k.procs, 1);
    var r := SwitchToNext(k);
    assert Serves(m, r, 0, d);
  }

  lemma SmallShell()
    ensures FramesNeeded(SHELL.size) == 2
  {}

  /** The shell's process as its create leaves it. */
  lemma ShellCreated(m: Layout, cpu: Cpu, own: map<nat, Owner>)
    requires ValidLayout(m) && var k := BeforeShell(m, cpu);
      && Shaped(k) && Owned(k.pages, own) && Lost(k.pages, own) == {} && k.pages.free == 30
      && Count(k.pages.dirUsed) == 0 && Count(k.used) == 0
    ensures var k := BeforeShell(m, cpu); var own' := OwnAfterCreate(k, own, SHELL);
      && CreateSafe(k, SHELL, 0) && var (r, code) := Create(m, k, SHELL, 0); var dir := TakePages(k.pages, SHELL.address).dir;
      && code == CREATE_SUCCESS && Owned(r.pages, own') && Lost(r.pages, own') == {} && r.pages.free == 28
      && Count(r.pages.dirUsed) == 1 && Count(r.used) == 1 && 0 <= dir < DIRECTORY_COUNT && r.pages.dirUsed[dir]
      && r.used == k.used[0 := true] && r.procs[1..] == k.procs[1..]
      && r.procs[0].pid == 0 && r.procs[0].context.pageDirectory == AddressOf(m, UserDir(dir))
  {
    hide Owned, AddressOf, ToCr3, TakePages, AllocateFrame, Lost, OwnAfterCreate, OrFlags, Count, FirstClear, FramesNeeded, AllocateCheck;
    var k := BeforeShell(m, cpu);
    CheckMeansOneFrame(k.pages, SHELL.size);
    SmallShell();
    assert Refusal(k, SHELL) == 0;
    TakeKeepsOwned(k, own, SHELL);
    CountUpdate(k.used, 0, true);
    assert FirstClear(k.used, 0) == 0;
  }

  /** With the shell read, boot leaves it running in slot 0 and no frame lost. */
  lemma BootEstablishes(m: Layout, cpu: Cpu) returns (own: map<nat, Owner>)
    requires ValidLayout(m)
    ensures CreateSafe(BeforeShell(m, cpu), SHELL, 0) && Create(m, BeforeShell(m, cpu), SHELL, 0).1 == CREATE_SUCCESS
    ensures Inv(Booted(m, cpu, 0), own) && Addressed(m, Booted(m, cpu, 0)) && Booted(m, cpu, 0).running == 0
    ensures Lost(Booted(m, cpu, 0).pages, own) == {} && Booted(m, cpu, 0).pages.free == 28
  {
    hide Owned, AddressOf, ToCr3, TakePages, AllocateFrame, Lost, OwnAfterCreate, Create, SwitchToNext, Count;
    var own0 := BeforeShellOwns(m, cpu);
    var k := BeforeShell(m, cpu);
    own := OwnAfterCreate(k, own0, SHELL);
    ShellCreated(m, cpu, own0);
    var r := Create(m, k, SHELL, 0).0;
    forall i | 1 <= i < PROCESS_MAX
      ensures r.procs[i] == NO_PCB
    {
      assert r.procs[i] == r.procs[1..][i - 1];
    }
    ShellAlone(m, r.(active := 0, running := 0), TakePages(k.pages, SHELL.address).dir);
  }

  /** Boot establishes the invariants if and only if the shell's executable was read: a failed read starts the
      blank slot 0. */
  lemma BootsIff(m: Layout, cpu: Cpu, readStatus: int)
    requires ValidLayout(m)
    ensures (exists own :: Inv(Booted(m, cpu, readStatus), own)) <==> readStatus == 0
  {
    if readStatus == 0 {
      var own := BootEstablishes(m, cpu);
    } else {
      NoShell(m, cpu, readStatus);
    }
  }

  /** From boot, over every run: the kernel never goes wrong and every invariant holds; when no executable
      fails to be read, CR3 is right at every user step too. */
  lemma RunsFromBoot(m: Layout, cpu: Cpu, events: seq<Event>) returns (own: map<nat, Owner>)
    requires ValidLayout(m) && PermittedRun(m, Booted(m, cpu, 0), events)
    ensures DefinedRun(m, Booted(m, cpu, 0), events) && Inv(Run(m, Booted(m, cpu, 0), events), own)
    ensures ReadsSucceed(m, Booted(m, cpu, 0), events) ==> Addressed(m, Run(m, Booted(m, cpu, 0), events))
  {
    hide Inv, Addressed;
    var own0 := BootEstablishes(m, cpu);
    own := RunKeeps(m, Booted(m, cpu, 0), own0, events);
    if ReadsSucceed(m, Booted(m, cpu, 0), events) {
      RunKeepsAddressed(m, Booted(m, cpu, 0), own0, events);
    }
  }

  /** The failing input: right after boot a create of an executable that cannot be read leaves CR3 on another
      directory than the running shell's. */
  lemma FailedReadLosesCr3(m: Layout, cpu: Cpu, readStatus: int)
    requires ValidLayout(m) && readStatus != 0
    ensures var k := Booted(m, cpu, 0);
      && Addressed(m, k) && CreateSafe(k, SHELL, readStatus) && Create(m, k, SHELL, readStatus).1 == FAIL_FS_READ
      && var r := Create(m, k, SHELL, readStatus).0;
      r.running == k.running && r.procs == k.procs && !Addressed(m, r)
  {
    hide Booted, TakePages, Addressed, Owned, AddressOf, ToCr3;
    var own := BootEstablishes(m, cpu);
    var k := Booted(m, cpu, 0);
    CheckMeansOneFrame(k.pages, SHELL.size);
    assert Refusal(k, SHELL) == 0;
    TakeKeepsOwned(k, own, SHELL);
    CreateKeepsAddressedIff(m, k, own, SHELL, readStatus);
  }

  /** After boot at most fourteen further creates ever succeed, however many processes are destroyed. */
  lemma AtMostFourteenCreates(m: Layout, cpu: Cpu, events: seq<Event>)
    requires ValidLayout(m) && PermittedRun(m, Booted(m, cpu, 0), events)
    ensures DefinedRun(m, Booted(m, cpu, 0), events) && Successes(m, Booted(m, cpu, 0), events) <= 14
  {
    hide Inv, Addressed, Booted;
    var own := BootEstablishes(m, cpu);
    var own' := RunKeeps(m, Booted(m, cpu, 0), own, events);
    SuccessesAreBounded(m, Booted(m, cpu, 0), own, events);
  }
}
