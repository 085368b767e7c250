/** The kernel's tables, updated in place: page frames and directories, the process list, the scheduler and
    the timer interrupt.  Every method is tied to the functions of Paging and Processes. */
module KernelCode {
  import opened Words
  import opened Paging
  import opened Context
  import opened Processes
  import opened Isolation

  class Pager {
    const frameUsed: array<bool>    // page_frame_map
    var free: u32                   // free_page_frame_count
    const dirUsed: array<bool>      // page_directory_used
    const dirs: array<PageDirectory>
    var kernelDir: PageDirectory

    ghost predicate Valid()
      reads this
    {
      && frameUsed.Length == FRAME_COUNT && dirUsed.Length == DIRECTORY_COUNT && dirs.Length == DIRECTORY_COUNT
      && frameUsed != dirUsed
    }

    ghost function Abs(): (p: Pages)
      requires Valid()
      reads this, frameUsed, dirUsed, dirs
      ensures Paging.Sized(p)
    {
      Pages(frameUsed[..], free, dirUsed[..], dirs[..], kernelDir)
    }

    constructor (kernelDir: PageDirectory)
      ensures Valid() && fresh(frameUsed) && fresh(dirUsed) && fresh(dirs)
      ensures Abs() == Pages(seq(FRAME_COUNT, i => i == 0), FRAME_COUNT - 1, seq(DIRECTORY_COUNT, _ => false),
                             seq(DIRECTORY_COUNT, _ => seq(ENTRY_COUNT, _ => NO_ENTRY)), kernelDir)
    {
      frameUsed := new bool[FRAME_COUNT](i => i == 0);
      free := FRAME_COUNT - 1;
      dirUsed := new bool[DIRECTORY_COUNT](_ => false);
      dirs := new PageDirectory[DIRECTORY_COUNT](_ => seq(ENTRY_COUNT, _ => NO_ENTRY));
      this.kernelDir := kernelDir;
    }

    method CreateNewPageDirectory() returns (index: int)
      requires Valid()
      modifies dirUsed, dirs
      ensures Valid() && (Abs(), index) == CreateDirectory(old(Abs()))
    {
      for i := 0 to DIRECTORY_COUNT
        invariant FirstClear(dirUsed[..], 0) == FirstClear(dirUsed[..], i)
        invariant dirUsed[..] == old(dirUsed[..]) && dirs[..] == old(dirs[..])
      {
        if !dirUsed[i] {
          dirUsed[i] := true;
          dirs[i] := NewDirectory();
          return i;
        }
      }
      return -1;
    }

    method UpdatePageDirectoryEntry(d: DirRef, address: u32, e: PageEntry)
      requires Valid() && ValidRef(d)
      modifies `kernelDir, dirs
      ensures Valid() && Abs() == SetDir(old(Abs()), d, DirAt(old(Abs()), d)[PageIndex(address) := e])
    {
      match d
      case KernelDir => kernelDir := kernelDir[PageIndex(address) := e];
      case UserDir(i) => dirs[i] := dirs[i][PageIndex(address) := e];
    }

    method AllocateUserPageFrame(d: DirRef, address: u32) returns (physical: u32)
      requires Valid() && ValidRef(d)
      modifies frameUsed, `free, `kernelDir, dirs
      ensures Valid() && (Abs(), physical) == AllocateFrame(old(Abs()), d, address)
    {
      for i := 0 to FRAME_COUNT
        invariant FirstClear(frameUsed[..], 0) == FirstClear(frameUsed[..], i)
        invariant Abs() == old(Abs())
      {
        if !frameUsed[i] {
          frameUsed[i] := true;
          free := (free - 1) % WORD;
          physical := i * PAGE_FRAME_SIZE;
          UpdatePageDirectoryEntry(d, address, UserEntry(physical / PAGE_FRAME_SIZE));
          return;
        }
      }
      return 0;
    }

    /** The three allocations of a create: a directory, a frame for the image and one for the stack. */
    method TakeProcessPages(address: u32) returns (dir: int, image: u32, stackFrame: u32)
      requires Valid() && TakePages(Abs(), address).dir != -1
      modifies this, frameUsed, dirUsed, dirs
      ensures Valid() && Taken(Abs(), dir, image, stackFrame) == TakePages(old(Abs()), address)
    {
      hide AllocateFrame, CreateDirectory;
      dir := CreateNewPageDirectory();
      image := AllocateUserPageFrame(UserDir(dir), address);
      stackFrame := AllocateUserPageFrame(UserDir(dir), USER_STACK);
    }

    method FreeUserPageFrame(d: DirRef, address: u32) returns (ok: bool)
      requires Valid() && ValidRef(d)
      requires var e := DirAt(Abs(), d)[PageIndex(address)]; e.present ==> e.frame < FRAME_COUNT
      modifies frameUsed, `free, `kernelDir, dirs
      ensures Valid() && (Abs(), ok) == FreeFrame(old(Abs()), d, address)
    {
      var e := match d case KernelDir => kernelDir[PageIndex(address)] case UserDir(i) => dirs[i][PageIndex(address)];
      if e.present {
        frameUsed[e.frame] := false;
        free := (free + 1) % WORD;
        UpdatePageDirectoryEntry(d, address, e.(present := false));
        return true;
      }
      return false;
    }

    method FreePageDirectory(m: Layout, address: u32) returns (ok: bool)
      requires Valid()
      modifies dirUsed
      ensures Valid() && (Abs(), ok) == FreeDirectory(m, old(Abs()), address)
    {
      for i := 0 to DIRECTORY_COUNT
        invariant DirectoryAt(m, address, 0) == DirectoryAt(m, address, i) && Abs() == old(Abs())
      {
        if m.list + 0x1000 * i == address {
          dirUsed[i] := false;
          return true;
        }
      }
      return false;
    }
  }

  /** The kernel's stack pointer before `pushad`: seven words and four segment registers below the top. */
  const TRAP_ESP: u32 := 4 * 53

  class KernelState {
    const layout: Layout
    const pager: Pager
    const procs: array<Pcb>     // _process_list
    const used: array<bool>     // used_process
    var active: u32             // active_process_count
    var running: nat            // running_process_idx
    var cpu: Cpu
    const stack: KernelStack

    ghost predicate Valid()
      reads this, pager, stack
    {
      && pager.Valid() && procs.Length == PROCESS_MAX && used.Length == PROCESS_MAX && running < PROCESS_MAX
      && ValidLayout(layout) && stack.Valid() && stack.words.Length == 64
      && used != pager.frameUsed && used != pager.dirUsed
    }

    ghost function Abs(): Kernel
      requires Valid()
      reads this, pager, stack, procs, used, pager.frameUsed, pager.dirUsed, pager.dirs
    {
      Kernel(pager.Abs(), procs[..], used[..], active, running, cpu)
    }

    constructor (layout: Layout, cpu: Cpu)
      requires ValidLayout(layout)
      ensures Valid() && this.layout == layout && Abs() == PowerOn(layout, cpu)
      ensures fresh(pager) && fresh(pager.frameUsed) && fresh(pager.dirUsed) && fresh(pager.dirs)
      ensures fresh(procs) && fresh(used) && fresh(stack) && fresh(stack.words)
    {
      this.layout := layout;
      pager := new Pager(seq(ENTRY_COUNT, i => if i == 0x300 then KERNEL_ENTRY else NO_ENTRY));
      procs := new Pcb[PROCESS_MAX](_ => NO_PCB);
      used := new bool[PROCESS_MAX](_ => false);
      active, running := 0, 0;
      this.cpu := cpu.(cr3 := ToCr3(layout.kernelDir));
      stack := new KernelStack(64);
    }

    /** The first slot in state RUNNING, or -1. */
    method GetCurrentRunningPcb() returns (index: int)
      requires Valid()
      ensures index == if FirstRunning(procs[..], 0) == PROCESS_MAX then -1 else FirstRunning(procs[..], 0)
    {
      for i := 0 to PROCESS_MAX
        invariant FirstRunning(procs[..], 0) == FirstRunning(procs[..], i)
      {
        if procs[i].state == RUNNING { return i; }
      }
      return -1;
    }

    method GetInactiveIndex() returns (index: int)
      requires Valid()
      ensures index == if FirstClear(used[..], 0) == PROCESS_MAX then -1 else FirstClear(used[..], 0)
    {
      for i := 0 to PROCESS_MAX
        invariant FirstClear(used[..], 0) == FirstClear(used[..], i)
      {
        if !used[i] { return i; }
      }
      return -1;
    }

    method Destroy(pid: u32) returns (ok: bool)
      requires Valid() && Shaped(Abs())
      requires SlotOfPid(procs[..], pid, 0) < PROCESS_MAX ==> pid < PROCESS_MAX
      modifies procs, used, `active
      ensures Valid() && (Abs(), ok) == Processes.Destroy(old(Abs()), pid)
    {
      for i := 0 to PROCESS_MAX
        invariant SlotOfPid(procs[..], pid, 0) == SlotOfPid(procs[..], pid, i)
        invariant Abs() == old(Abs())
      {
        if procs[i].pid == pid {
          procs[i] := NO_PCB;
          used[pid] := false;
          active := (active - 1) % WORD;
          return true;
        }
      }
      return false;
    }

    method SaveContext(ctx: Saved)
      requires Valid() && FirstRunning(procs[..], 0) < PROCESS_MAX
      modifies procs
      ensures Valid()
      ensures var s := FirstRunning(old(procs[..]), 0); procs[..] == old(procs[..])[s := old(procs[..])[s].(context := ctx)]
    {
      var i := GetCurrentRunningPcb();
      procs[i] := procs[i].(context := ctx);
    }

    /** Picks the next ready slot, cyclically, and loads its context. */
    method SwitchToNextProcess()
      requires Valid() && Shaped(Abs()) && 5 <= stack.sp
      modifies procs, `running, `cpu, stack`sp, stack.words
      ensures Valid() && Abs() == SwitchToNext(old(Abs()))
    {
      var choice := 0;
      for i := 1 to PROCESS_MAX
        invariant choice == 0 && NextReady(procs[..], running) == NextFrom(procs[..], running, i)
      {
        if procs[(i + running) % PROCESS_MAX].state == READY {
          choice := (i + running) % PROCESS_MAX;
          break;
        }
      }
      ghost var k := Abs();
      assert choice == NextReady(k.procs, k.running);
      procs[running] := procs[running].(state := READY);
      running := choice;
      procs[running] := procs[running].(state := RUNNING);
      var ctx := procs[running].context;
      var cr3 := ToCr3(ctx.pageDirectory);
      cpu := ContextSwitch(Flatten(ctx), cr3, stack);
    }

    /** The timer interrupt from user code, from the first word pushed to the last register loaded.  Each
        interrupt starts on the same kernel stack. */
    method TimerInterrupt(flags: u32)
      requires Valid() && Shaped(Abs()) && FirstRunning(procs[..], 0) < PROCESS_MAX
      modifies procs, `running, `cpu, stack`sp, stack.words
      ensures Valid() && Abs() == Tick(old(Abs()), TRAP_ESP)
    {
      stack.sp := 64;
      stack.RaiseInterrupt(cpu, 0x20);
      stack.EnterHandler(cpu, flags);
      var frame := FrameAt(stack.words[..], stack.sp);
      assert frame == TrapFrame(cpu, 0x20, TRAP_ESP);
      var ctx := ContextOf(frame, cpu.cr3);
      SaveContext(ctx);
      SwitchToNextProcess();
    }

    method SchedulerInit()
      modifies `active, `running
      ensures active == 0 && running == 0
    {
      active := 0;
      running := 0;
    }

    /** Fills in the new process's control block field by field. */
    method FillPcb(i: nat, e: Executable, directory: u32, image: u32, stackFrame: u32)
      requires Valid() && i < PROCESS_MAX && |e.name| == 8 && |procs[i].frames| == PROCESS_FRAMES_MAX
      modifies procs
      ensures Valid() && procs[..] == old(procs[..])[i := NewPcb(old(procs[i]), i, e, directory, image, stackFrame)]
    {
      procs[i] := procs[i].(frames := procs[i].frames[0 := (image + KERNEL_BASE) % WORD]);
      procs[i] := procs[i].(frames := procs[i].frames[1 := (stackFrame + KERNEL_BASE) % WORD]);
      procs[i] := procs[i].(frameCount := 2);
      var c := procs[i].context;
      c := c.(eip := e.address);
      c := c.(ebp := USER_STACK);
      c := c.(esp := USER_STACK);
      c := c.(eflags := OrFlags(c.eflags));
      c := c.(gs := USER_DATA, fs := USER_DATA, es := USER_DATA, ds := USER_DATA);
      c := c.(ss := USER_DATA);
      c := c.(cs := USER_CODE);
      c := c.(pageDirectory := directory);
      procs[i] := procs[i].(context := c);
      procs[i] := procs[i].(pid := i);
      procs[i] := procs[i].(name := [0, 0, 0, 0, 0, 0, 0, 0, 0, 0]);
      procs[i] := procs[i].(name := e.name + procs[i].name[8..]);
      procs[i] := procs[i].(state := READY);
    }

    /** Takes the first inactive slot for the new process. */
    method Enter(e: Executable, directory: u32, image: u32, stackFrame: u32)
      requires Valid() && Shaped(Abs()) && |e.name| == 8 && FirstClear(used[..], 0) < PROCESS_MAX
      modifies procs, used
      ensures Valid() && pager.Abs() == old(pager.Abs())
      ensures var i := FirstClear(old(used[..]), 0);
        && used[..] == old(used[..])[i := true]
        && procs[..] == old(procs[..])[i := NewPcb(old(procs[..])[i], i, e, directory, image, stackFrame)]
    {
      var i := GetInactiveIndex();
      used[i] := true;
      FillPcb(i, e, directory, image, stackFrame);
    }

    method CreateUserProcess(e: Executable, readStatus: int) returns (code: int)
      requires Valid() && Shaped(Abs()) && |e.name| == 8 && CreateSafe(Abs(), e, readStatus)
      modifies procs, used, `active, `cpu, pager, pager.frameUsed, pager.dirUsed, pager.dirs
      ensures Valid() && (Abs(), code) == Create(layout, old(Abs()), e, readStatus)
    {
      hide TakePages, NewPcb, FramesNeeded, AddressOf, ToCr3, FromCr3;
      if active >= PROCESS_MAX { return FAIL_MAX_PROCESS; }
      if e.address >= KERNEL_BASE { return FAIL_ENTRYPOINT; }
      var needed := FramesNeeded(e.size);
      var required := (PAGE_FRAME_SIZE + needed - 1) % WORD / PAGE_FRAME_SIZE;
      if required > pager.free || needed > PROCESS_FRAMES_MAX { return FAIL_MEMORY; }
      var current := FromCr3(cpu.cr3);
      var dir, image, stackFrame := pager.TakeProcessPages(e.address);
      if stackFrame == 0 || image == 0 { return FAIL_PAGING; }
      var directory := AddressOf(layout, UserDir(dir));
      cpu := cpu.(cr3 := ToCr3(directory));
      if readStatus != 0 { return FAIL_FS_READ; }
      Enter(e, directory, image, stackFrame);
      cpu := cpu.(cr3 := ToCr3(current));
      active := (active + 1) % WORD;
      return CREATE_SUCCESS;
    }

    /** `kernel_setup` from the first frame allocation on: a frame for the boot directory, the shell's process,
        the scheduler, and the switch to slot 0, whatever reading the shell's executable returned. */
    method KernelSetup(readStatus: int)
      requires Valid() && exists c :: Abs() == PowerOn(layout, c)
      modifies this, procs, used, pager, pager.frameUsed, pager.dirUsed, pager.dirs, stack, stack.words
      ensures Valid() && exists c :: Abs() == Booted(layout, c, readStatus)
    {
      hide Create, PowerOn, AllocateFrame, SwitchToNext;
      ghost var c :| Abs() == PowerOn(layout, c);
      PowerOnOwnsNothing(layout, c);
      var physical := pager.AllocateUserPageFrame(KernelDir, 0);
      assert Abs() == BeforeShell(layout, c);
      BootIsSafe(layout, c, readStatus);
      var code := CreateUserProcess(SHELL, readStatus);
      SchedulerInit();
      stack.sp := 64;
      SwitchToNextProcess();
      assert Abs() == Booted(layout, c, readStatus);
    }
  }
}
