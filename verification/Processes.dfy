/** The process table, the scheduler and process creation as functions of the kernel state, and the
    invariants every run keeps. */
module Processes {
  import opened Words
  import opened Paging
  import opened Context

  const PROCESS_MAX := 16
  const PROCESS_FRAMES_MAX := 8

  const CREATE_SUCCESS := 0
  const FAIL_MAX_PROCESS := 1
  const FAIL_ENTRYPOINT := 2
  const FAIL_MEMORY := 3
  const FAIL_FS_READ := 4
  const FAIL_PAGING := 5

  datatype State = KILLED | RUNNING | READY | BLOCKED

  datatype Pcb = Pcb(pid: u32, name: Bytes, state: State, context: Saved, frames: seq<u32>, frameCount: u32)

  const NO_PCB := Pcb(0, [0, 0, 0, 0, 0, 0, 0, 0, 0, 0], KILLED, NO_CONTEXT, [0, 0, 0, 0, 0, 0, 0, 0], 0)

  /** The request of a create: where the image goes, its size, and the eight name bytes. */
  datatype Executable = Executable(address: u32, size: u32, name: Bytes)

  datatype Kernel = Kernel(pages: Pages, procs: seq<Pcb>, used: seq<bool>, active: u32, running: nat, cpu: Cpu)

  predicate Shaped(k: Kernel) {
    && Paging.Sized(k.pages) && |k.procs| == PROCESS_MAX && |k.used| == PROCESS_MAX && k.running < PROCESS_MAX
    && forall i :: 0 <= i < PROCESS_MAX ==> |k.procs[i].name| == 10 && |k.procs[i].frames| == PROCESS_FRAMES_MAX
  }

  // ---------- scheduling ----------

  /** The slot at distance `i` or more, cyclically after `r`, that is ready; slot 0 if there is none. */
  function NextFrom(procs: seq<Pcb>, r: nat, i: nat): (n: nat)
    requires |procs| == PROCESS_MAX && 1 <= i <= PROCESS_MAX
    ensures n < PROCESS_MAX
    decreases PROCESS_MAX - i
  {
    if i == PROCESS_MAX then 0
    else if procs[(i + r) % PROCESS_MAX].state == READY then (i + r) % PROCESS_MAX
    else NextFrom(procs, r, i + 1)
  }

  function NextReady(procs: seq<Pcb>, r: nat): nat
    requires |procs| == PROCESS_MAX
  {
    NextFrom(procs, r, 1)
  }

  /** The first slot in state RUNNING, or the length. */
  function FirstRunning(procs: seq<Pcb>, i: nat): (n: nat)
    requires i <= |procs|
    ensures i <= n <= |procs| && (n < |procs| ==> procs[n].state == RUNNING)
    ensures forall j :: i <= j < n ==> procs[j].state != RUNNING
    decreases |procs| - i
  {
    if i == |procs| || procs[i].state == RUNNING then i else FirstRunning(procs, i + 1)
  }

  /** The previous slot becomes READY whatever it was, the next one RUNNING, and its context is loaded. */
  function SwitchToNext(k: Kernel): (r: Kernel)
    requires Shaped(k)
    ensures Shaped(r)
  {
    var n := NextReady(k.procs, k.running);
    var procs := k.procs[k.running := k.procs[k.running].(state := READY)];
    k.(procs := procs[n := procs[n].(state := RUNNING)], running := n, cpu := Restored(procs[n].context))
  }

  /** A timer interrupt taken in user mode: save the context in the running slot, switch to the next. */
  function Tick(k: Kernel, kernelEsp: u32): (r: Kernel)
    requires Shaped(k) && FirstRunning(k.procs, 0) < PROCESS_MAX
    ensures Shaped(r)
  {
    var s := FirstRunning(k.procs, 0);
    var ctx := ContextOf(TrapFrame(k.cpu, 0x20, kernelEsp), k.cpu.cr3);
    SwitchToNext(k.(procs := k.procs[s := k.procs[s].(context := ctx)]))
  }

  // ---------- creation and destruction ----------

  /** `ceil_div`, in 32-bit arithmetic. */
  function CeilDiv(x: u32, y: u32): u32
    requires y > 1
  {
    1 + (x - 1) % WORD / y
  }

  function FramesNeeded(size: u32): u32 { CeilDiv((size + PAGE_FRAME_SIZE) % WORD, PAGE_FRAME_SIZE) }

  /** The early exits of a create, before anything is changed; 0 if none is taken. */
  function Refusal(k: Kernel, e: Executable): int {
    if k.active >= PROCESS_MAX then FAIL_MAX_PROCESS
    else if e.address >= KERNEL_BASE then FAIL_ENTRYPOINT
    else if !AllocateCheck(k.pages, FramesNeeded(e.size)) || FramesNeeded(e.size) > PROCESS_FRAMES_MAX then FAIL_MEMORY
    else 0
  }

  const EFLAGS_NEW := 0x202   // base flag and interrupt enable

  /** Sets bits 1 and 9. */
  function OrFlags(x: u32): u32 {
    x + (if x / 2 % 2 == 0 then 0x2 else 0) + (if x / 0x200 % 2 == 0 then 0x200 else 0)
  }

  function NewContext(was: Saved, address: u32, directory: u32): Saved {
    was.(eip := address, ebp := USER_STACK, esp := USER_STACK, eflags := OrFlags(was.eflags),
         gs := USER_DATA, fs := USER_DATA, es := USER_DATA, ds := USER_DATA, ss := USER_DATA, cs := USER_CODE,
         pageDirectory := directory)
  }

  function NewPcb(was: Pcb, pid: u32, e: Executable, directory: u32, image: u32, stack: u32): Pcb
    requires |was.frames| == PROCESS_FRAMES_MAX && |e.name| == 8
  {
    Pcb(pid, e.name + [0, 0], READY, NewContext(was.context, e.address, directory),
        was.frames[0 := (image + KERNEL_BASE) % WORD][1 := (stack + KERNEL_BASE) % WORD], 2)
  }

  /** Directory, image frame and stack frame taken by a create that passed its checks. */
  datatype Taken = Taken(pages: Pages, dir: int, image: u32, stack: u32)

  function TakePages(p: Pages, address: u32): (t: Taken)
    requires Paging.Sized(p)
    ensures Paging.Sized(t.pages) && -1 <= t.dir < DIRECTORY_COUNT
  {
    var (p1, i) := CreateDirectory(p);
    if i == -1 then Taken(p1, -1, 0, 0)
    else
      var (p2, image) := AllocateFrame(p1, UserDir(i), address);
      var (p3, stack) := AllocateFrame(p2, UserDir(i), USER_STACK);
      Taken(p3, i, image, stack)
  }

  /** A create finds a directory and, if it gets that far, a free slot. */
  predicate CreateSafe(k: Kernel, e: Executable, readStatus: int)
    requires Shaped(k)
  {
    Refusal(k, e) == 0 ==>
      var t := TakePages(k.pages, e.address);
      t.dir != -1 && (t.image != 0 && t.stack != 0 && readStatus == 0 ==> FirstClear(k.used, 0) < PROCESS_MAX)
  }

  /** `process_create_user_process`, given what reading the executable returned. */
  function Create(m: Layout, k: Kernel, e: Executable, readStatus: int): (r: (Kernel, int))
    requires ValidLayout(m) && Shaped(k) && |e.name| == 8 && CreateSafe(k, e, readStatus)
    ensures Shaped(r.0)
  {
    if Refusal(k, e) != 0 then (k, Refusal(k, e))
    else
      var t := TakePages(k.pages, e.address);
      var directory := AddressOf(m, UserDir(t.dir));
      if t.image == 0 || t.stack == 0 then (k.(pages := t.pages), FAIL_PAGING)
      else if readStatus != 0 then
        // the new directory stays loaded
        (k.(pages := t.pages, cpu := k.cpu.(cr3 := ToCr3(directory))), FAIL_FS_READ)
      else
        var i := FirstClear(k.used, 0);
        (k.(pages := t.pages,
            procs := k.procs[i := NewPcb(k.procs[i], i, e, directory, t.image, t.stack)],
            used := k.used[i := true],
            active := (k.active + 1) % WORD,
            cpu := k.cpu.(cr3 := ToCr3(FromCr3(k.cpu.cr3)))), CREATE_SUCCESS)
  }

  /** The first slot holding the pid, or the length. */
  function SlotOfPid(procs: seq<Pcb>, pid: u32, i: nat): (n: nat)
    requires i <= |procs|
    ensures i <= n <= |procs| && (n < |procs| ==> procs[n].pid == pid) && forall j :: i <= j < n ==> procs[j].pid != pid
    decreases |procs| - i
  {
    if i == |procs| || procs[i].pid == pid then i else SlotOfPid(procs, pid, i + 1)
  }

  /** `process_destroy`; frames and directories stay taken. */
  function Destroy(k: Kernel, pid: u32): (r: (Kernel, bool))
    requires Shaped(k)
    requires SlotOfPid(k.procs, pid, 0) < PROCESS_MAX ==> pid < PROCESS_MAX
    ensures Shaped(r.0)
  {
    var i := SlotOfPid(k.procs, pid, 0);
    if i == PROCESS_MAX then (k, false)
    else (k.(procs := k.procs[i := NO_PCB], used := k.used[pid := false], active := (k.active - 1) % WORD), true)
  }

  // ---------- the invariant ----------

  ghost predicate SlotOk(k: Kernel, i: nat)
    requires |k.procs| == |k.used| == PROCESS_MAX && i < PROCESS_MAX
  {
    if k.used[i] then k.procs[i].pid == i && k.procs[i].state == (if i == k.running then RUNNING else READY)
    else k.procs[i] == NO_PCB
  }

  /** Exactly one slot runs, and it is the one the scheduler names; used slots are the READY and RUNNING ones
      and hold their own index as pid; the others are blank; slot 0 is used. */
  ghost predicate Scheduled(k: Kernel) {
    && Shaped(k) && k.used[0] && k.used[k.running]
    && forall i :: 0 <= i < PROCESS_MAX ==> SlotOk(k, i)
  }

  /** Frames pay for everything: each used slot has taken two of the thirty that were free after boot, each
      directory at least one, and none comes back. */
  ghost predicate Budgeted(k: Kernel) {
    && Paging.Sized(k.pages)
    && 2 * Count(k.used) + k.pages.free <= 30
    && Count(k.pages.dirUsed) + k.pages.free <= 30
    && k.active == Count(k.used) - 1
  }

  ghost predicate Inv(k: Kernel, own: map<nat, Owner>) {
    Scheduled(k) && Budgeted(k) && Owned(k.pages, own)
  }
}
