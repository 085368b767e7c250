/** Runs of the kernel: timer ticks, creates, destroys and user steps in any order, from boot. */
module KernelRuns {
  import opened Words
  import opened Paging
  import opened Context
  import opened Processes

  // ---------- one tick ----------

  lemma RunningSlot(k: Kernel)
    requires Scheduled(k)
    ensures FirstRunning(k.procs, 0) == k.running
  {
    var n := FirstRunning(k.procs, 0);
    assert SlotOk(k, k.running);
    if n < PROCESS_MAX { assert SlotOk(k, n); }
  }

  function Distance(r: nat, p: nat): nat { (p - r) % PROCESS_MAX }

  /** `(i + r) % 16` and the distance from `r` are each other's inverses. */
  lemma DistanceOf(r: nat, i: nat, p: nat)
    requires r < PROCESS_MAX && i < PROCESS_MAX && p < PROCESS_MAX
    ensures Distance(r, (i + r) % PROCESS_MAX) == i
    ensures 0 <= Distance(r, p) < PROCESS_MAX && (Distance(r, p) + r) % PROCESS_MAX == p
  {}

  lemma {:induction false} NextFromFinds(procs: seq<Pcb>, r: nat, i: nat, p: nat)
    requires |procs| == PROCESS_MAX && r < PROCESS_MAX && p < PROCESS_MAX && procs[p].state == READY
    requires 1 <= i <= Distance(r, p)
    ensures var n := NextFrom(procs, r, i); procs[n].state == READY && i <= Distance(r, n) <= Distance(r, p)
    decreases PROCESS_MAX - i
  {
    hide Distance;
    DistanceOf(r, 0, p);
    DistanceOf(r, i, p);
    if procs[(i + r) % PROCESS_MAX].state != READY {
      assert i != Distance(r, p);
      NextFromFinds(procs, r, i + 1, p);
    }
  }

  lemma {:induction false} NextFromNone(procs: seq<Pcb>, r: nat, i: nat)
    requires |procs| == PROCESS_MAX && r < PROCESS_MAX && 1 <= i <= PROCESS_MAX
    ensures NextFrom(procs, r, i) == 0 || procs[NextFrom(procs, r, i)].state == READY
    decreases PROCESS_MAX - i
  {
    if i < PROCESS_MAX && procs[(i + r) % PROCESS_MAX].state != READY {
      NextFromNone(procs, r, i + 1);
    }
  }

  /** The scheduler's choice is always live: a READY slot, or the running slot 0 when it is alone. */
  lemma ChoiceIsLive(k: Kernel)
    requires Scheduled(k)
    ensures var n := NextReady(k.procs, k.running);
      k.used[n] && (k.procs[n].state == READY || (n == 0 && k.running == 0))
  {
    var n := NextReady(k.procs, k.running);
    NextFromNone(k.procs, k.running, 1);
    assert SlotOk(k, n) && SlotOk(k, 0);
  }

  lemma TickKeeps(k: Kernel, own: map<nat, Owner>, kernelEsp: u32)
    requires Inv(k, own)
    ensures FirstRunning(k.procs, 0) < PROCESS_MAX
    ensures Inv(Tick(k, kernelEsp), own)
  {
    RunningSlot(k);
    var ctx := ContextOf(TrapFrame(k.cpu, 0x20, kernelEsp), k.cpu.cr3);
    var saved := k.(procs := k.procs[k.running := k.procs[k.running].(context := ctx)]);
    forall i | 0 <= i < PROCESS_MAX
      ensures SlotOk(saved, i)
    {
      assert SlotOk(k, i);
    }
    ChoiceIsLive(saved);
    var next := SwitchToNext(saved);
    forall i | 0 <= i < PROCESS_MAX
      ensures SlotOk(next, i)
    {
      assert SlotOk(saved, i);
    }
  }

  // ---------- create ----------

  lemma FramesNeededIsSmall(size: u32)
    ensures 1 <= FramesNeeded(size) <= 1024
  {}

  /** The memory test is passed a frame count where it expects bytes, so all it promises is one free frame. */
  lemma CheckMeansOneFrame(p: Pages, size: u32)
    ensures AllocateCheck(p, FramesNeeded(size)) <==> p.free >= 1
  {
    FramesNeededIsSmall(size);
  }

  ghost function OwnAfterCreate(k: Kernel, own: map<nat, Owner>, e: Executable): map<nat, Owner>
    requires Shaped(k)
  {
    if Refusal(k, e) != 0 then own
    else
      var (p1, i) := CreateDirectory(k.pages);
      if i == -1 then own
      else
        var (p2, _) := AllocateFrame(p1, UserDir(i), e.address);
        OwnAfterAllocate(p2, OwnAfterAllocate(p1, own, UserDir(i), e.address), UserDir(i), USER_STACK)
  }

  /** The stack's allocation overwrites a mapping exactly when the image lies in the same 4 MiB region. */
  lemma DisplacedByStack(p: Pages, i: nat, address: u32)
    requires Paging.Sized(p) && i < DIRECTORY_COUNT && p.used[0]
    requires forall x :: 0 <= x < ENTRY_COUNT ==> !UserMapped(p.dirs[i][x])
    ensures var (q, image) := AllocateFrame(p, UserDir(i), address);
      image != 0 ==>
      Displaced(q, UserDir(i), USER_STACK) ==
        if PageIndex(address) == PageIndex(USER_STACK) && FirstClear(q.used, 0) != FRAME_COUNT then {image / PAGE_FRAME_SIZE} else {}
  {}

  /** What a create past its checks takes: one directory and one or two frames, never more than there are. */
  lemma TakeKeepsOwned(k: Kernel, own: map<nat, Owner>, e: Executable)
    requires Owned(k.pages, own) && Shaped(k) && Refusal(k, e) == 0 && Count(k.pages.dirUsed) + k.pages.free <= 30
    ensures var t := TakePages(k.pages, e.address); var own' := OwnAfterCreate(k, own, e);
      && t.dir != -1 && !k.pages.dirUsed[t.dir] && t.pages.dirUsed == k.pages.dirUsed[t.dir := true]
      && Owned(t.pages, own') && t.image != 0
      && (t.stack != 0 <==> k.pages.free >= 2)
      && (if t.stack == 0 then t.pages.free == k.pages.free - 1 else t.pages.free == k.pages.free - 2)
      && Count(t.pages.dirUsed) == Count(k.pages.dirUsed) + 1
      && (forall j :: 0 <= j < DIRECTORY_COUNT && j != t.dir ==> t.pages.dirs[j] == k.pages.dirs[j])
      && t.pages.kernelDir == k.pages.kernelDir
      && (PageIndex(e.address) != PageIndex(USER_STACK) || t.stack == 0 ==> Lost(t.pages, own') == Lost(k.pages, own))
      && (PageIndex(e.address) == PageIndex(USER_STACK) && t.stack != 0 ==>
            Lost(t.pages, own') == Lost(k.pages, own) + {t.image / PAGE_FRAME_SIZE})
  {
    hide Owned, Lost, OwnAfterAllocate, NewDirectory, Count;
    CheckMeansOneFrame(k.pages, e.size);
    CreateKeepsOwned(k.pages, own);
    var (p1, i) := CreateDirectory(k.pages);
    var d := UserDir(i);
    AllocateKeepsOwned(p1, own, d, e.address);
    var (p2, image) := AllocateFrame(p1, d, e.address);
    var own2 := OwnAfterAllocate(p1, own, d, e.address);
    assert !UserMapped(p1.dirs[i][PageIndex(e.address)]);
    assert Displaced(p1, d, e.address) == {};
    AllocateKeepsOwned(p2, own2, d, USER_STACK);
    DisplacedByStack(p1, i, e.address);
  }

  /** The counting argument: a create never lacks a directory, and one that got its two frames never lacks
      a slot. */
  lemma CreateIsSafe(k: Kernel, own: map<nat, Owner>, e: Executable, readStatus: int)
    requires Inv(k, own)
    ensures CreateSafe(k, e, readStatus)
  {
    hide TakePages, Owned;
    CountBounds(k.used);
    if Refusal(k, e) == 0 { TakeKeepsOwned(k, own, e); }
  }

  /** The process limit is never the reason for a refusal: `active_process_count` is one behind the number of
      used slots, and frames run out first. */
  lemma NeverTooManyProcesses(k: Kernel, own: map<nat, Owner>, e: Executable)
    requires Inv(k, own)
    ensures Refusal(k, e) != FAIL_MAX_PROCESS
  {}

  lemma RefusedCreate(m: Layout, k: Kernel, own: map<nat, Owner>, e: Executable, readStatus: int)
    requires ValidLayout(m) && Shaped(k) && |e.name| == 8 && Refusal(k, e) != 0
    ensures Create(m, k, e, readStatus) == (k, Refusal(k, e)) && OwnAfterCreate(k, own, e) == own
  {}

  lemma CreatedPcb(m: Layout, k: Kernel, e: Executable, i: nat)
    requires ValidLayout(m) && Scheduled(k) && |e.name| == 8 && i < PROCESS_MAX && !k.used[i]
    ensures forall directory, image, stack :: var p := NewPcb(k.procs[i], i, e, directory, image, stack);
      p.pid == i && p.state == READY && p.context == NewContext(NO_CONTEXT, e.address, directory)
  {
    assert SlotOk(k, i);
  }

  lemma CreateSlots(m: Layout, k: Kernel, own: map<nat, Owner>, e: Executable, readStatus: int)
    requires ValidLayout(m) && Inv(k, own) && |e.name| == 8 && Refusal(k, e) == 0 && CreateSafe(k, e, readStatus)
    ensures Scheduled(Create(m, k, e, readStatus).0)
  {
    hide TakePages, Owned, AllocateCheck, FramesNeeded, NewPcb, AddressOf, ToCr3, FromCr3, Budgeted;
    var (r, code) := Create(m, k, e, readStatus);
    if code == CREATE_SUCCESS { CreatedPcb(m, k, e, FirstClear(k.used, 0)); }
    forall j | 0 <= j < PROCESS_MAX
      ensures SlotOk(r, j)
    {
      assert SlotOk(k, j);
    }
  }

  lemma RunningIsSlot(k: Kernel, own: map<nat, Owner>)
    requires Inv(k, own)
    ensures Shaped(k) && k.running < PROCESS_MAX
  {}

  lemma CreateBudget(m: Layout, k: Kernel, own: map<nat, Owner>, e: Executable, readStatus: int)
    requires ValidLayout(m) && Inv(k, own) && |e.name| == 8 && Refusal(k, e) == 0 && CreateSafe(k, e, readStatus)
    ensures Budgeted(Create(m, k, e, readStatus).0) && Owned(Create(m, k, e, readStatus).0.pages, OwnAfterCreate(k, own, e))
  {
    hide TakePages, Owned, OwnAfterCreate, AllocateCheck, FramesNeeded, NewPcb, AddressOf, ToCr3, FromCr3, Scheduled, Count, SlotOk;
    RunningIsSlot(k, own);
    TakeKeepsOwned(k, own, e);
    if FirstClear(k.used, 0) < PROCESS_MAX { CountUpdate(k.used, FirstClear(k.used, 0), true); }
  }

  lemma CreateKeeps(m: Layout, k: Kernel, own: map<nat, Owner>, e: Executable, readStatus: int)
    requires ValidLayout(m) && Inv(k, own) && |e.name| == 8
    ensures CreateSafe(k, e, readStatus)
    ensures Inv(Create(m, k, e, readStatus).0, OwnAfterCreate(k, own, e))
  {
    hide Create, Refusal, Owned, OwnAfterCreate, Scheduled, Budgeted;
    CreateIsSafe(k, own, e, readStatus);
    RunningIsSlot(k, own);
    if Refusal(k, e) == 0 {
      CreateSlots(m, k, own, e, readStatus);
      CreateBudget(m, k, own, e, readStatus);
    } else {
      RefusedCreate(m, k, own, e, readStatus);
    }
  }

  // ---------- destroy ----------

  /** For pid 1 and up, `process_destroy` succeeds exactly when the pid is in use, and clears only that slot. */
  lemma DestroyIsExact(k: Kernel, pid: u32)
    requires Scheduled(k) && pid >= 1
    ensures SlotOfPid(k.procs, pid, 0) < PROCESS_MAX <==> pid < PROCESS_MAX && k.used[pid]
    ensures pid < PROCESS_MAX && k.used[pid] ==>
      Destroy(k, pid) == (k.(procs := k.procs[pid := NO_PCB], used := k.used[pid := false], active := (k.active - 1) % WORD), true)
    ensures !(pid < PROCESS_MAX && k.used[pid]) ==> Destroy(k, pid) == (k, false)
  {
    var i := SlotOfPid(k.procs, pid, 0);
    if i < PROCESS_MAX { assert SlotOk(k, i); }
    if pid < PROCESS_MAX { assert SlotOk(k, pid); }
  }

  lemma CountPositive(used: seq<bool>)
    requires |used| > 0 && used[0]
    ensures Count(used) >= 1
    decreases |used|
  {
    if |used| > 1 { CountPositive(used[..|used| - 1]); }
  }

  lemma DestroyOther(k: Kernel, own: map<nat, Owner>, pid: u32)
    requires Inv(k, own) && pid != 0 && pid != k.running
    ensures SlotOfPid(k.procs, pid, 0) < PROCESS_MAX ==> pid < PROCESS_MAX
    ensures Inv(Destroy(k, pid).0, own)
  {
    hide Owned;
    DestroyIsExact(k, pid);
    if pid < PROCESS_MAX && k.used[pid] {
      CountUpdate(k.used, pid, false);
      var r := Destroy(k, pid).0;
      forall i | 0 <= i < PROCESS_MAX
        ensures SlotOk(r, i)
      {
        assert SlotOk(k, i);
      }
      CountPositive(r.used);
    }
  }

  /** Destroying keeps the invariant exactly when it hits neither slot 0 nor the running slot. */
  lemma DestroyKeepsIff(k: Kernel, own: map<nat, Owner>, pid: u32)
    requires Inv(k, own)
    ensures SlotOfPid(k.procs, pid, 0) < PROCESS_MAX ==> pid < PROCESS_MAX
    ensures Inv(Destroy(k, pid).0, own) <==> pid != 0 && pid != k.running
  {
    hide Owned;
    if pid == 0 {
      assert SlotOk(k, 0);
      assert SlotOfPid(k.procs, 0, 0) == 0;
      assert !Destroy(k, 0).0.used[0];
    } else {
      DestroyIsExact(k, pid);
      if pid == k.running {
        assert !Destroy(k, pid).0.used[k.running];
      } else {
        DestroyOther(k, own, pid);
      }
    }
  }

  // ---------- runs ----------

  /** A timer interrupt, a create with what reading its executable returned, a destroy, or user code running:
      it may change every register but CR3. */
  datatype Event =
    | Timer(kernelEsp: u32)
    | CreateProcess(e: Executable, readStatus: int)
    | DestroyProcess(pid: u32)
    | UserCode(cpu: Cpu)

  /** What the environment respects: slot 0 and the running process are not destroyed. */
  ghost predicate Permitted(k: Kernel, ev: Event) {
    match ev
    case Timer(_) => true
    case CreateProcess(e, _) => |e.name| == 8
    case DestroyProcess(pid) => pid != 0 && pid != k.running
    case UserCode(cpu) => cpu.cr3 == k.cpu.cr3
  }

  /** The kernel code handles the event: a running slot is found, a create is given a directory and a slot,
      a destroy stays inside its tables. */
  ghost predicate Defined(k: Kernel, ev: Event) {
    && Shaped(k)
    && match ev
       case Timer(_) => FirstRunning(k.procs, 0) < PROCESS_MAX
       case CreateProcess(e, readStatus) => CreateSafe(k, e, readStatus)
       case DestroyProcess(pid) => SlotOfPid(k.procs, pid, 0) < PROCESS_MAX ==> pid < PROCESS_MAX
       case UserCode(_) => true
  }

  ghost function Step(m: Layout, k: Kernel, ev: Event): Kernel
    requires ValidLayout(m) && Permitted(k, ev) && Defined(k, ev)
  {
    match ev
    case Timer(kernelEsp) => Tick(k, kernelEsp)
    case CreateProcess(e, readStatus) => Create(m, k, e, readStatus).0
    case DestroyProcess(pid) => Destroy(k, pid).0
    case UserCode(cpu) => k.(cpu := cpu)
  }

  ghost function OwnAfter(k: Kernel, own: map<nat, Owner>, ev: Event): map<nat, Owner>
    requires Shaped(k)
  {
    if ev.CreateProcess? then OwnAfterCreate(k, own, ev.e) else own
  }

  /** The environment keeps to its rules as long as the kernel has not gone wrong. */
  ghost predicate PermittedRun(m: Layout, k: Kernel, events: seq<Event>)
    requires ValidLayout(m)
    decreases |events|
  {
    events == [] || (Permitted(k, events[0]) && (Defined(k, events[0]) ==> PermittedRun(m, Step(m, k, events[0]), events[1..])))
  }

  ghost predicate DefinedRun(m: Layout, k: Kernel, events: seq<Event>)
    requires ValidLayout(m)
    decreases |events|
  {
    events == [] || (Permitted(k, events[0]) && Defined(k, events[0]) && DefinedRun(m, Step(m, k, events[0]), events[1..]))
  }

  ghost function Run(m: Layout, k: Kernel, events: seq<Event>): Kernel
    requires ValidLayout(m) && DefinedRun(m, k, events)
    decreases |events|
  {
    if events == [] then k else Run(m, Step(m, k, events[0]), events[1..])
  }

  lemma UserCodeKeeps(k: Kernel, own: map<nat, Owner>, cpu: Cpu)
    requires Inv(k, own)
    ensures Inv(k.(cpu := cpu), own)
  {
    hide Owned;
    forall i | 0 <= i < PROCESS_MAX
      ensures SlotOk(k.(cpu := cpu), i)
    {
      assert SlotOk(k, i);
    }
  }

  lemma StepKeeps(m: Layout, k: Kernel, own: map<nat, Owner>, ev: Event)
    requires ValidLayout(m) && Inv(k, own) && Permitted(k, ev)
    ensures Defined(k, ev) && Inv(Step(m, k, ev), OwnAfter(k, own, ev))
  {
    hide Owned, Create, Destroy, Tick, OwnAfterCreate, CreateSafe, SlotOk, Budgeted;
    match ev
    case Timer(kernelEsp) => TickKeeps(k, own, kernelEsp);
    case CreateProcess(e, readStatus) => CreateKeeps(m, k, own, e, readStatus);
    case DestroyProcess(pid) => DestroyOther(k, own, pid);
    case UserCode(cpu) => UserCodeKeeps(k, own, cpu);
  }

  /** Over every run the kernel never goes wrong: a running slot is always found, no directory pointer is
      NULL, no slot index is -1; and the scheduling, counting and ownership invariants hold at the end. */
  lemma {:induction false} RunKeeps(m: Layout, k: Kernel, own: map<nat, Owner>, events: seq<Event>) returns (own': map<nat, Owner>)
    requires ValidLayout(m) && Inv(k, own) && PermittedRun(m, k, events)
    ensures DefinedRun(m, k, events) && Inv(Run(m, k, events), own')
    decreases |events|
  {
    hide Inv, Step, OwnAfter, Defined;
    if events == [] {
      own' := own;
    } else {
      RunningIsSlot(k, own);
      StepKeeps(m, k, own, events[0]);
      own' := RunKeeps(m, Step(m, k, events[0]), OwnAfter(k, own, events[0]), events[1..]);
    }
  }

  // ---------- how many creates can succeed ----------

  ghost function Succeeds(m: Layout, k: Kernel, ev: Event): nat
    requires ValidLayout(m) && Permitted(k, ev) && Defined(k, ev)
  {
    if ev.CreateProcess? && Create(m, k, ev.e, ev.readStatus).1 == CREATE_SUCCESS then 1 else 0
  }

  /** The successful creates of a run. */
  ghost function Successes(m: Layout, k: Kernel, events: seq<Event>): nat
    requires ValidLayout(m) && DefinedRun(m, k, events)
    decreases |events|
  {
    if events == [] then 0 else Succeeds(m, k, events[0]) + Successes(m, Step(m, k, events[0]), events[1..])
  }

  /** A successful create uses up two frames and nothing gives one back. */
  lemma StepSpends(m: Layout, k: Kernel, own: map<nat, Owner>, ev: Event)
    requires ValidLayout(m) && Inv(k, own) && Permitted(k, ev) && Defined(k, ev)
    ensures Step(m, k, ev).pages.free + 2 * Succeeds(m, k, ev) <= k.pages.free
  {
    hide Owned, Scheduled, TakePages, NewPcb, AllocateCheck, FramesNeeded, AddressOf, ToCr3, FromCr3, Restored, NextFrom, Count;
    RunningIsSlot(k, own);
    if ev.CreateProcess? && Refusal(k, ev.e) == 0 { TakeKeepsOwned(k, own, ev.e); }
  }

  /** Over every run at most half as many creates succeed as frames were free, however many processes are
      destroyed in between: their frames never come back. */
  lemma {:induction false} SuccessesAreBounded(m: Layout, k: Kernel, own: map<nat, Owner>, events: seq<Event>)
    requires ValidLayout(m) && Inv(k, own) && DefinedRun(m, k, events)
    ensures Run(m, k, events).pages.free + 2 * Successes(m, k, events) <= k.pages.free
    decreases |events|
  {
    hide Inv, Step, OwnAfter, Defined, Succeeds;
    if events != [] {
      RunningIsSlot(k, own);
      StepKeeps(m, k, own, events[0]);
      StepSpends(m, k, own, events[0]);
      SuccessesAreBounded(m, Step(m, k, events[0]), OwnAfter(k, own, events[0]), events[1..]);
    }
  }

  // ---------- bounded waiting ----------

  predicate Spares(events: seq<Event>, p: u32) { forall i :: 0 <= i < |events| ==> events[i] != DestroyProcess(p) }

  function Ticks(events: seq<Event>): nat {
    if events == [] then 0 else (if events[0].Timer? then 1 else 0) + Ticks(events[1..])
  }

  /** The slots dispatched by the ticks of a run, in order. */
  ghost function Dispatched(m: Layout, k: Kernel, events: seq<Event>): seq<nat>
    requires ValidLayout(m) && DefinedRun(m, k, events)
    decreases |events|
  {
    if events == [] then []
    else
      var next := Step(m, k, events[0]);
      (if events[0].Timer? then [next.running] else []) + Dispatched(m, next, events[1..])
  }

  lemma {:induction false} SameChoice(a: seq<Pcb>, b: seq<Pcb>, r: nat, i: nat)
    requires |a| == |b| == PROCESS_MAX && 1 <= i <= PROCESS_MAX
    requires forall j :: 0 <= j < PROCESS_MAX ==> a[j].state == b[j].state
    ensures NextFrom(a, r, i) == NextFrom(b, r, i)
    decreases PROCESS_MAX - i
  {
    if i < PROCESS_MAX { SameChoice(a, b, r, i + 1); }
  }

  lemma TickRuns(k: Kernel, kernelEsp: u32)
    requires Scheduled(k)
    ensures FirstRunning(k.procs, 0) == k.running
    ensures Tick(k, kernelEsp).running == NextReady(k.procs, k.running)
  {
    RunningSlot(k);
    var ctx := ContextOf(TrapFrame(k.cpu, 0x20, kernelEsp), k.cpu.cr3);
    SameChoice(k.procs, k.procs[k.running := k.procs[k.running].(context := ctx)], k.running, 1);
  }

  lemma DistanceSplits(r: nat, n: nat, p: nat)
    requires r < PROCESS_MAX && n < PROCESS_MAX && p < PROCESS_MAX && Distance(r, n) <= Distance(r, p)
    ensures Distance(r, n) + Distance(n, p) == Distance(r, p)
  {}

  /** A tick brings the scheduler strictly closer to a waiting slot, and never past it. */
  lemma TickApproaches(k: Kernel, own: map<nat, Owner>, kernelEsp: u32, p: nat)
    requires Inv(k, own) && p < PROCESS_MAX && k.used[p] && p != k.running
    ensures FirstRunning(k.procs, 0) < PROCESS_MAX
    ensures var n := Tick(k, kernelEsp).running;
      n < PROCESS_MAX && 1 <= Distance(k.running, n) && Distance(k.running, n) + Distance(n, p) == Distance(k.running, p)
  {
    hide Tick, NextFrom, Owned;
    TickRuns(k, kernelEsp);
    assert SlotOk(k, p);
    NextFromFinds(k.procs, k.running, 1, p);
    DistanceSplits(k.running, NextReady(k.procs, k.running), p);
  }

  lemma OthersKeepSlot(m: Layout, k: Kernel, own: map<nat, Owner>, ev: Event, p: nat)
    requires ValidLayout(m) && Inv(k, own) && Permitted(k, ev) && Defined(k, ev)
    requires p < PROCESS_MAX && k.used[p] && ev != DestroyProcess(p)
    ensures Step(m, k, ev).used[p]
    ensures !ev.Timer? ==> Step(m, k, ev).running == k.running
  {
    hide Owned, TakePages, NewPcb, AllocateCheck, FramesNeeded;
    if ev.DestroyProcess? { DestroyIsExact(k, ev.pid); }
  }

  /** Slots are dispatched at strictly growing distance from `r`, up to `p`. */
  ghost predicate Approaches(r: nat, d: seq<nat>, p: nat) {
    && (forall i :: 0 <= i < |d| ==> 1 <= Distance(r, d[i]) <= Distance(r, p))
    && (forall i, j :: 0 <= i < j < |d| ==> Distance(r, d[i]) < Distance(r, d[j]))
  }

  lemma DistancesAdd(r: nat, n: nat, q: nat)
    requires Distance(r, n) + Distance(n, q) < PROCESS_MAX
    ensures Distance(r, q) == Distance(r, n) + Distance(n, q)
  {}

  lemma DistanceNat(r: nat, p: nat)
    ensures 0 <= Distance(r, p) < PROCESS_MAX
  {}

  lemma ApproachesCons(r: nat, n: nat, d: seq<nat>, p: nat)
    requires Distance(r, p) < PROCESS_MAX
    requires Approaches(n, d, p) && 1 <= Distance(r, n) && Distance(r, n) + Distance(n, p) == Distance(r, p)
    ensures Approaches(r, [n] + d, p)
  {
    hide Distance;
    var e := [n] + d;
    forall i | 0 < i < |e|
      ensures e[i] == d[i - 1] && Distance(r, e[i]) == Distance(r, n) + Distance(n, d[i - 1])
    {
      DistancesAdd(r, n, d[i - 1]);
    }
    DistanceNat(n, p);
  }

  lemma NoDispatch(r: nat, p: nat)
    ensures Approaches(r, [], p)
  {}

  lemma RunningIsApart(k: Kernel, own: map<nat, Owner>, p: nat)
    requires Inv(k, own) && p < PROCESS_MAX && p != k.running
    ensures Distance(k.running, p) >= 1
  {}

  lemma TickStep(m: Layout, k: Kernel, own: map<nat, Owner>, ev: Event, p: nat)
    requires ValidLayout(m) && Inv(k, own) && ev.Timer? && Permitted(k, ev) && Defined(k, ev)
    requires p < PROCESS_MAX && k.used[p] && p != k.running
    ensures var n := Step(m, k, ev).running;
      n < PROCESS_MAX && 1 <= Distance(k.running, n) && Distance(k.running, n) + Distance(n, p) == Distance(k.running, p)
  {
    hide Inv, Tick;
    TickApproaches(k, own, ev.kernelEsp, p);
  }

  /** Bounded waiting.  A used slot `p` that nobody destroys is running after at most `(p - running) mod 16`
      timer ticks, whatever creates, destroys and user steps come between; and until then the slots
      dispatched are met at strictly growing distance, so none of them runs twice and the slot that was
      running does not run again. */
  lemma {:induction false} BoundedWaiting(m: Layout, k: Kernel, own: map<nat, Owner>, events: seq<Event>, p: nat) returns (n: nat)
    requires ValidLayout(m) && Inv(k, own) && DefinedRun(m, k, events)
    requires p < PROCESS_MAX && k.used[p] && Spares(events, p)
    requires Ticks(events) >= Distance(k.running, p)
    ensures n <= |events| && DefinedRun(m, k, events[..n])
    ensures Ticks(events[..n]) <= Distance(k.running, p)
    ensures Run(m, k, events[..n]).running == p
    ensures Approaches(k.running, Dispatched(m, k, events[..n]), p)
    decreases |events|
  {
    hide Inv, Step, OwnAfter, Defined, Approaches;
    RunningIsSlot(k, own);
    if p == k.running {
      n := 0;
      NoDispatch(k.running, p);
    } else {
      RunningIsApart(k, own, p);
      StepKeeps(m, k, own, events[0]);
      OthersKeepSlot(m, k, own, events[0], p);
      var next, rest := Step(m, k, events[0]), events[1..];
      if events[0].Timer? { TickStep(m, k, own, events[0], p); }
      assert Spares(rest, p) by { assert forall i :: 0 <= i < |rest| ==> rest[i] == events[i + 1]; }
      n := BoundedWaiting(m, next, OwnAfter(k, own, events[0]), rest, p);
      RunningIsSlot(next, OwnAfter(k, own, events[0]));
      var d := Dispatched(m, next, rest[..n]);
      if events[0].Timer? {
        DistanceNat(k.running, p);
        ApproachesCons(k.running, next.running, d, p);
      }
      n := n + 1;
      var e := events[..n];
      assert e[0] == events[0] && e[1..] == rest[..n - 1];
      assert Dispatched(m, k, e) == (if events[0].Timer? then [next.running] else []) + d;
      assert [] + d == d;
    }
  }
}
