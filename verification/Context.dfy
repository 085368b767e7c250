/** Trap entry and context switch: the words the interrupt stub pushes, the frame the handler reads, the
    context it saves, and the loads that restore it. */
module Context {
  import opened Words
  import opened Paging

  const USER_DATA: u32 := 0x23   // GDT user data selector, ring 3
  const USER_CODE: u32 := 0x1B   // GDT user code selector, ring 3
  const USER_STACK: u32 := 0xBFFF_FFFC

  /** The processor as user code sees it. Segment registers hold 16 bits. */
  datatype Cpu = Cpu(
    edi: u32, esi: u32, ebp: u32, esp: u32, ebx: u32, edx: u32, ecx: u32, eax: u32,
    gs: u16, fs: u16, es: u16, ds: u16, eip: u32, eflags: u32, cs: u16, ss: u16, cr3: u32)

  /** `struct Context`, in the order of its words. */
  datatype Saved = Saved(
    edi: u32, esi: u32, ebp: u32, esp: u32, ebx: u32, edx: u32, ecx: u32, eax: u32,
    gs: u32, fs: u32, es: u32, ds: u32, eflags: u32, eip: u32, ss: u32, cs: u32, pageDirectory: u32)

  const NO_CONTEXT := Saved(0, 0, 0, 0, 0, 0, 0, 0, 0, 0, 0, 0, 0, 0, 0, 0, 0)

  function Flatten(c: Saved): (w: seq<u32>)
    ensures |w| == 17
  {
    [c.edi, c.esi, c.ebp, c.esp, c.ebx, c.edx, c.ecx, c.eax, c.gs, c.fs, c.es, c.ds,
     c.eflags, c.eip, c.ss, c.cs, c.pageDirectory]
  }

  /** `struct InterruptFrame`: the CPU registers, then what the stub and the processor pushed. */
  datatype Frame = Frame(
    edi: u32, esi: u32, ebp: u32, esp: u32, ebx: u32, edx: u32, ecx: u32, eax: u32,
    gs: u32, fs: u32, es: u32, ds: u32, intNumber: u32, errorCode: u32, eip: u32, cs: u32, eflags: u32)

  /** The frame laid over the words of a stack from `top` up. */
  function FrameAt(s: seq<u32>, top: nat): Frame
    requires top + 17 <= |s|
  {
    Frame(s[top], s[top + 1], s[top + 2], s[top + 3], s[top + 4], s[top + 5], s[top + 6], s[top + 7],
          s[top + 8], s[top + 9], s[top + 10], s[top + 11], s[top + 12], s[top + 13], s[top + 14], s[top + 15], s[top + 16])
  }

  lemma FrameOfParts(s: seq<u32>, top: nat, registers: seq<u32>, rest: seq<u32>)
    requires top + 19 <= |s| && registers == s[top..top + 12] && rest == s[top + 12..top + 19]
    ensures FrameAt(s, top) == Frame(registers[0], registers[1], registers[2], registers[3], registers[4], registers[5], registers[6],
      registers[7], registers[8], registers[9], registers[10], registers[11], rest[0], rest[1], rest[2], rest[3], rest[4])
  {}

  /** The frame the handler finds, given the kernel's own stack pointer before `pushad`. */
  function TrapFrame(cpu: Cpu, vector: u32, kernelEsp: u32): Frame {
    Frame(cpu.edi, cpu.esi, cpu.ebp, if cpu.ds % 4 != 0 then cpu.esp else kernelEsp, cpu.ebx, cpu.edx, cpu.ecx, cpu.eax,
          cpu.gs, cpu.fs, cpu.es, cpu.ds, vector, 0, cpu.eip, cpu.cs, cpu.eflags)
  }

  lemma SameSlices(s: seq<u32>, a: seq<u32>, b: seq<u32>, top: nat)
    requires top + 19 <= |s| && |a| == 12 && |b| == 7
    requires (forall k :: 0 <= k < 12 ==> s[top + k] == a[k]) && forall k :: 0 <= k < 7 ==> s[top + 12 + k] == b[k]
    ensures s[top..top + 12] == a && s[top + 12..top + 19] == b
  {}

  /** Registers, the patched stack pointer among them, and the seven words above them make the trap frame. */
  lemma TrapFrameOf(s: seq<u32>, top: nat, cpu: Cpu, vector: u32, kernelEsp: u32)
    requires top + 19 <= |s| && s[top + 12..top + 19] == [vector, 0, cpu.eip, cpu.cs, cpu.eflags, cpu.esp, cpu.ss]
    requires s[top..top + 12] == [cpu.edi, cpu.esi, cpu.ebp, if cpu.ds % 4 != 0 then cpu.esp else kernelEsp,
      cpu.ebx, cpu.edx, cpu.ecx, cpu.eax, cpu.gs, cpu.fs, cpu.es, cpu.ds]
    ensures FrameAt(s, top) == TrapFrame(cpu, vector, kernelEsp)
  {
    FrameOfParts(s, top, s[top..top + 12], s[top + 12..top + 19]);
  }

  /** The kernel stack as an array of words growing downwards; word `i` lies at byte address 4 * i. */
  class KernelStack {
    const words: array<u32>
    var sp: nat

    ghost predicate Valid()
      reads this
    {
      sp <= words.Length && 4 * words.Length < WORD
    }

    constructor (size: nat)
      requires 4 * size < WORD
      ensures Valid() && fresh(words) && words.Length == size && sp == size
    {
      words := new u32[size](_ => 0);
      sp := size;
    }

    method Push(w: u32)
      requires Valid() && sp > 0
      modifies this`sp, words
      ensures Valid() && sp == old(sp) - 1 && words[sp] == w
      ensures forall k :: 0 <= k < words.Length && k != sp ==> words[k] == old(words[k])
    {
      sp := sp - 1;
      words[sp] := w;
    }

    method Pop() returns (w: u32)
      requires Valid() && sp < words.Length
      modifies this`sp
      ensures Valid() && sp == old(sp) + 1 && w == words[old(sp)]
    {
      w := words[sp];
      sp := sp + 1;
    }

    /** What the processor and the numbered stub push before the common handler runs: the interrupted stack
        (the interrupt changes privilege), flags, code address, a zero error code and the vector. */
    method RaiseInterrupt(cpu: Cpu, vector: u32)
      requires Valid() && sp >= 7
      modifies this`sp, words
      ensures Valid() && sp == old(sp) - 7
      ensures words[sp..sp + 7] == [vector, 0, cpu.eip, cpu.cs, cpu.eflags, cpu.esp, cpu.ss]
    {
      Push(cpu.ss);
      Push(cpu.esp);
      Push(cpu.eflags);
      Push(cpu.cs);
      Push(cpu.eip);
      Push(0);
      Push(vector);
    }

    /** `pushad`: eax, ecx, edx, ebx, the stack pointer before it, ebp, esi, edi. */
    method PushAll(cpu: Cpu)
      requires Valid() && sp >= 8
      modifies this`sp, words
      ensures Valid() && sp == old(sp) - 8
      ensures words[sp..sp + 8] == [cpu.edi, cpu.esi, cpu.ebp, 4 * old(sp), cpu.ebx, cpu.edx, cpu.ecx, cpu.eax]
      ensures forall k :: old(sp) <= k < words.Length ==> words[k] == old(words[k])
    {
      var esp := 4 * sp;
      Push(cpu.eax);
      Push(cpu.ecx);
      Push(cpu.edx);
      Push(cpu.ebx);
      Push(esp);
      Push(cpu.ebp);
      Push(cpu.esi);
      Push(cpu.edi);
    }

    /** Segment registers, then `pushad`. */
    method PushRegisters(cpu: Cpu)
      requires Valid() && sp >= 12
      modifies this`sp, words
      ensures Valid() && sp == old(sp) - 12
      ensures words[sp..sp + 12] == [cpu.edi, cpu.esi, cpu.ebp, 4 * (old(sp) - 4), cpu.ebx, cpu.edx, cpu.ecx, cpu.eax,
                                     cpu.gs, cpu.fs, cpu.es, cpu.ds]
      ensures forall k :: old(sp) <= k < words.Length ==> words[k] == old(words[k])
    {
      Push(cpu.ds);
      Push(cpu.es);
      Push(cpu.fs);
      Push(cpu.gs);
      ghost var segments := words[sp..sp + 4];
      assert segments == [cpu.gs, cpu.fs, cpu.es, cpu.ds];
      ghost var above := words[sp..];
      PushAll(cpu);
      assert words[sp + 8..] == above && above[..4] == segments;
      assert words[sp + 8..sp + 12] == words[sp + 8..][..4];
      assert words[sp..sp + 12] == words[sp..sp + 8] + words[sp + 8..sp + 12];
    }

    /** With flags and eax on top of the registers: the saved ds lies 52 bytes up, the slot for esp 20 bytes up
        and the stack pointer the processor pushed 76 bytes up. */
    method PatchEsp(ghost registers: seq<u32>, ghost frame: seq<u32>)
      requires Valid() && sp + 21 <= words.Length && |registers| == 12 && |frame| == 7
      requires words[sp + 2..sp + 14] == registers && words[sp + 14..sp + 21] == frame
      modifies words
      ensures Valid()
      ensures words[sp + 2..sp + 14] == (if registers[11] % 4 != 0 then registers[3 := frame[5]] else registers)
      ensures words[sp + 14..sp + 21] == frame
    {
      assert words[sp + 52 / 4] == words[sp + 2..sp + 14][11];
      assert words[sp + 76 / 4] == words[sp + 14..sp + 21][5];
      if words[sp + 52 / 4] % 4 != 0 {
        words[sp + 20 / 4] := words[sp + 76 / 4];
      }
    }

    /** The check of the saved data selector and the patch, with flags and eax kept on the stack meanwhile. */
    method CheckPrivilege(eax: u32, flags: u32, ghost registers: seq<u32>, ghost frame: seq<u32>)
      requires Valid() && 2 <= sp && sp + 19 <= words.Length && |registers| == 12 && |frame| == 7
      requires words[sp..sp + 12] == registers && words[sp + 12..sp + 19] == frame
      modifies this`sp, words
      ensures Valid() && sp == old(sp)
      ensures words[sp..sp + 12] == (if registers[11] % 4 != 0 then registers[3 := frame[5]] else registers)
      ensures words[sp + 12..sp + 19] == frame
    {
      ghost var top := sp;
      Push(flags);
      Push(eax);
      assert words[top..top + 12] == registers && words[top + 12..top + 19] == frame;
      PatchEsp(registers, frame);
      var a := Pop();
      var f := Pop();
    }

    /** `call_generic_handler` up to the call: pushes the registers and, when the data selector says the
        interrupt came from user mode, replaces the saved stack pointer by the interrupted one. */
    method EnterHandler(cpu: Cpu, flags: u32)
      requires Valid() && 14 <= sp && sp + 7 <= words.Length
      requires words[sp..sp + 7] == [words[sp], 0, cpu.eip, cpu.cs, cpu.eflags, cpu.esp, cpu.ss]
      modifies this`sp, words
      ensures Valid() && sp == old(sp) - 12
      ensures FrameAt(words[..], sp) == TrapFrame(cpu, old(words[sp]), 4 * (old(sp) - 4))
    {
      hide FrameAt, TrapFrame;
      ghost var frame, vector, kernelEsp := words[sp..sp + 7], words[sp], 4 * (sp - 4);
      PushRegisters(cpu);
      ghost var registers := words[sp..sp + 12];
      assert words[sp + 12..sp + 19] == frame;
      CheckPrivilege(cpu.eax, flags, registers, frame);
      SameSlices(words[..], words[sp..sp + 12], words[sp + 12..sp + 19], sp);
      TrapFrameOf(words[..], sp, cpu, vector, kernelEsp);
    }
  }

  /** The context the timer branch of the handler builds from the frame and CR3. */
  function ContextOf(f: Frame, cr3: u32): Saved {
    Saved(f.edi, f.esi, f.ebp, f.esp, f.ebx, f.edx, f.ecx, f.eax, f.gs, f.fs, f.es, f.ds,
          f.eflags, f.eip, USER_DATA, f.cs, FromCr3(cr3))
  }

  /** The processor after `process_context_switch`, CR3 having been loaded from the context before it. */
  function Restored(c: Saved): Cpu {
    Cpu(c.edi, c.esi, c.ebp, c.esp, c.ebx, c.edx, c.ecx, c.eax,
        c.gs % 0x1_0000, c.fs % 0x1_0000, c.es % 0x1_0000, c.ds % 0x1_0000,
        c.eip, c.eflags, c.cs % 0x1_0000, c.ss % 0x1_0000, ToCr3(c.pageDirectory))
  }

  /** `process_context_switch`: five words pushed for `iret`, the rest loaded register by register at the
      byte offsets the assembly names. */
  method ContextSwitch(ctx: seq<u32>, cr3: u32, stack: KernelStack) returns (cpu: Cpu)
    requires |ctx| == 17 && stack.Valid() && 5 <= stack.sp
    modifies stack`sp, stack.words
    ensures forall c: Saved :: Flatten(c) == ctx && cr3 == ToCr3(c.pageDirectory) ==> cpu == Restored(c)
    ensures stack.Valid() && stack.sp == old(stack.sp)
  {
    stack.Push(ctx[56 / 4]);
    stack.Push(ctx[12 / 4]);
    stack.Push(ctx[48 / 4]);
    stack.Push(ctx[60 / 4]);
    stack.Push(ctx[52 / 4]);
    var gs, fs, es, ds := ctx[32 / 4] % 0x1_0000, ctx[36 / 4] % 0x1_0000, ctx[40 / 4] % 0x1_0000, ctx[44 / 4] % 0x1_0000;
    var edi, esi, ebp := ctx[0 / 4], ctx[4 / 4], ctx[8 / 4];
    var ebx, edx, eax, ecx := ctx[16 / 4], ctx[20 / 4], ctx[28 / 4], ctx[24 / 4];
    // iret
    var eip := stack.Pop();
    var cs := stack.Pop();
    var eflags := stack.Pop();
    var esp := stack.Pop();
    var ss := stack.Pop();
    cpu := Cpu(edi, esi, ebp, esp, ebx, edx, ecx, eax, gs, fs, es, ds, eip, eflags, cs % 0x1_0000, ss % 0x1_0000, cr3);
  }

  /** Saving and restoring gives back the interrupted processor, with the user stack selector normalised,
      exactly when the data selector's ring bits were not zero or the stack pointers happened to agree; CR3 is
      kept exactly when adding the kernel base to it neither wraps nor lands on the base itself. */
  lemma SaveRestore(cpu: Cpu, vector: u32, kernelEsp: u32)
    ensures Restored(ContextOf(TrapFrame(cpu, vector, kernelEsp), cpu.cr3)) == cpu.(ss := USER_DATA)
      <==> (cpu.ds % 4 != 0 || cpu.esp == kernelEsp) && (0 < cpu.cr3 < WORD - KERNEL_BASE)
  {}
}
