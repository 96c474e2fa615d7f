/** src/arch/x86_64/idt/idt_stub.asm: saving and restoring the interrupted context, instruction by instruction. */
module Context {
  import opened ByteMemory

  type Word = x: nat | x < WORD_LIMIT

  // What a running task can see of the processor.
  datatype Cpu = Cpu(rax: Word, rbx: Word, rcx: Word, rdx: Word, rbp: Word, rsi: Word, rdi: Word,
                     r8: Word, r9: Word, r10: Word, r11: Word, r12: Word, r13: Word, r14: Word, r15: Word,
                     rip: Word, cs: Word, rflags: Word, rsp: Word, ss: Word)

  // struct cpu_status: twenty-two 64-bit fields, packed, in the order of their declaration.
  datatype CpuStatus = CpuStatus(r15: nat, r14: nat, r13: nat, r12: nat, r11: nat, r10: nat, r9: nat, r8: nat,
                                 rdi: nat, rsi: nat, rbp: nat, rdx: nat, rcx: nat, rbx: nat, rax: nat,
                                 vectorNumber: nat, errorCode: nat,
                                 iretRip: nat, iretCs: nat, iretRflags: nat, iretRsp: nat, iretSs: nat)

  const FIELDS := 22
  const FRAME := 8 * FIELDS

  function Field(m: Bytes, a: nat, k: nat): (w: Word) {
    LoadIsAWord(m, a + 8 * k);
    Load64(m, a + 8 * k)
  }

  // The structure that a pointer to cpu_status points at.
  function StatusAt(m: Bytes, a: nat): CpuStatus {
    CpuStatus(Field(m, a, 0), Field(m, a, 1), Field(m, a, 2), Field(m, a, 3),
              Field(m, a, 4), Field(m, a, 5), Field(m, a, 6), Field(m, a, 7),
              Field(m, a, 8), Field(m, a, 9), Field(m, a, 10), Field(m, a, 11),
              Field(m, a, 12), Field(m, a, 13), Field(m, a, 14),
              Field(m, a, 15), Field(m, a, 16),
              Field(m, a, 17), Field(m, a, 18), Field(m, a, 19), Field(m, a, 20), Field(m, a, 21))
  }

  // The structure that describes an interrupted processor.
  function Saved(c: Cpu, vector: nat, error: nat): CpuStatus {
    CpuStatus(c.r15, c.r14, c.r13, c.r12, c.r11, c.r10, c.r9, c.r8, c.rdi, c.rsi, c.rbp, c.rdx, c.rcx, c.rbx, c.rax,
              vector, error, c.rip, c.cs, c.rflags, c.rsp, c.ss)
  }

  // The processor that resumes from the structure at a.
  function Resumed(m: Bytes, a: nat): Cpu {
    Cpu(Field(m, a, 14), Field(m, a, 13), Field(m, a, 12), Field(m, a, 11),
        Field(m, a, 10), Field(m, a, 9), Field(m, a, 8),
        Field(m, a, 7), Field(m, a, 6), Field(m, a, 5), Field(m, a, 4),
        Field(m, a, 3), Field(m, a, 2), Field(m, a, 1), Field(m, a, 0),
        Field(m, a, 17), Field(m, a, 18), Field(m, a, 19), Field(m, a, 20), Field(m, a, 21))
  }

  // In long mode the processor aligns the stack to 16 bytes before it pushes an interrupt frame.
  function Aligned(rsp: nat): nat {
    rsp - rsp % 16
  }

  // Where the structure for a task interrupted at rsp comes to lie.
  function FrameAt(rsp: nat): nat
    requires FRAME <= Aligned(rsp)
  {
    Aligned(rsp) - FRAME
  }

  lemma FrameIsAligned(rsp: nat)
    requires FRAME <= Aligned(rsp)
    ensures FrameAt(rsp) % 16 == 0 && FrameAt(rsp) + FRAME <= rsp < FrameAt(rsp) + FRAME + 16
  {
  }

  // ---------------------------------------------------------------------------------------------
  // A stack that grows downwards

  function Pushed(m: Bytes, top: nat, words: seq<Word>): Bytes
    requires 8 * |words| <= top
    decreases |words|
  {
    if words == [] then m
    else Store64(Pushed(m, top, words[..|words| - 1]), top - 8 * |words|, words[|words| - 1])
  }

  lemma {:induction false} PushedOutside(m: Bytes, top: nat, words: seq<Word>)
    requires 8 * |words| <= top
    ensures SameOutside(m, Pushed(m, top, words), top - 8 * |words|, top)
    decreases |words|
  {
    if words != [] {
      PushedOutside(m, top, words[..|words| - 1]);
    }
  }

  lemma {:induction false} PushedWord(m: Bytes, top: nat, words: seq<Word>, i: nat)
    requires 8 * |words| <= top && i < |words|
    ensures Load64(Pushed(m, top, words), top - 8 * (i + 1)) == words[i]
    decreases |words|
  {
    hide Load64, Store64, SameOutside;
    var before := Pushed(m, top, words[..|words| - 1]);
    LoadStored(before, top - 8 * |words|, words[|words| - 1]);
    if i < |words| - 1 {
      PushedWord(m, top, words[..|words| - 1], i);
      LoadUntouched(before, Pushed(m, top, words), top - 8 * |words|, top - 8 * |words| + 8, top - 8 * (i + 1));
    }
  }

  lemma PushedMore(m: Bytes, top: nat, words: seq<Word>, w: Word)
    requires 8 * (|words| + 1) <= top
    ensures Pushed(m, top, words + [w]) == Store64(Pushed(m, top, words), top - 8 * (|words| + 1), w)
  {
    assert (words + [w])[..|words|] == words;
  }

  function InterruptWords(c: Cpu, vector: Word, error: Word): seq<Word> {
    [c.ss, c.rsp, c.rflags, c.cs, c.rip, error, vector]
  }

  function SavedRegisters(c: Cpu): seq<Word> {
    [c.rax, c.rbx, c.rcx, c.rdx, c.rbp, c.rsi, c.rdi, c.r8, c.r9, c.r10, c.r11, c.r12, c.r13, c.r14, c.r15]
  }

  // The order in which an interrupt and its stub push.
  function FrameWords(c: Cpu, vector: Word, error: Word): seq<Word> {
    InterruptWords(c, vector, error) + SavedRegisters(c)
  }

  lemma PushedField(m: Bytes, top: nat, words: seq<Word>, k: nat)
    requires |words| == FIELDS && FRAME <= top && k < FIELDS
    ensures Field(Pushed(m, top, words), top - FRAME, k) == words[FIELDS - 1 - k]
  {
    hide Load64, Pushed;
    PushedWord(m, top, words, FIELDS - 1 - k);
  }

  // What was pushed last lies lowest, so the pushes write the structure from its last field to its first.
  lemma FrameIsStatus(m: Bytes, top: nat, c: Cpu, vector: Word, error: Word)
    requires FRAME <= top
    ensures StatusAt(Pushed(m, top, FrameWords(c, vector, error)), top - FRAME) == Saved(c, vector, error)
    ensures Resumed(Pushed(m, top, FrameWords(c, vector, error)), top - FRAME) == c
  {
    hide Field, Pushed;
    var words := FrameWords(c, vector, error);
    var m', a := Pushed(m, top, words), top - FRAME;
    forall k: nat | k < FIELDS
      ensures Field(m', a, k) == words[FIELDS - 1 - k]
    {
      PushedField(m, top, words, k);
    }
  }

  // The same structure, the same task.
  lemma SameStructure(m: Bytes, m': Bytes, a: nat)
    requires forall x: nat :: a <= x < a + FRAME ==> m'(x) == m(x)
    ensures StatusAt(m', a) == StatusAt(m, a) && Resumed(m', a) == Resumed(m, a)
  {
    hide Field;
    forall k: nat | k < FIELDS
      ensures Field(m', a, k) == Field(m, a, k)
    {
      SameField(m, m', a, k);
    }
  }

  lemma SameField(m: Bytes, m': Bytes, a: nat, k: nat)
    requires k < FIELDS && forall x: nat :: a <= x < a + FRAME ==> m'(x) == m(x)
    ensures Field(m', a, k) == Field(m, a, k)
  {
    DecodeSame(m, m', a + 8 * k, 8);
  }

  // ---------------------------------------------------------------------------------------------
  // The processor

  datatype ErrorCode = None | Code(value: Word)

  // rip, cs, rflags and ss of the handler itself are not represented: they keep the values of the
  // interrupted task until iretq loads new ones.
  class Processor {
    var mem: Bytes
    var cpu: Cpu
    ghost var base: Bytes          // memory before the first of the pushes
    ghost var top: nat             // rsp before the first of the pushes
    ghost var words: seq<Word>     // what was pushed since

    constructor (mem: Bytes, cpu: Cpu)
      ensures this.mem == mem && this.cpu == cpu
    {
      this.mem, this.cpu := mem, cpu;
    }

    ghost predicate Pushing()
      reads this
    {
      8 * |words| <= top && cpu.rsp == top - 8 * |words| && mem == Pushed(base, top, words)
    }

    method Push(w: Word)
      requires Pushing() && 8 <= cpu.rsp
      modifies this`mem, this`cpu, this`words
      ensures Pushing() && words == old(words) + [w]
      ensures cpu == old(cpu).(rsp := old(cpu.rsp) - 8)
    {
      PushedMore(base, top, words, w);
      cpu := cpu.(rsp := cpu.rsp - 8);
      mem := Store64(mem, cpu.rsp, w);
      words := words + [w];
    }

    // The word popped is field k of the structure at a.
    method Pop(ghost a: nat, ghost k: nat) returns (w: Word)
      requires cpu.rsp == a + 8 * k && cpu.rsp + 8 < WORD_LIMIT
      modifies this`cpu
      ensures cpu == old(cpu).(rsp := old(cpu.rsp) + 8) && w == Field(mem, a, k)
    {
      LoadIsAWord(mem, cpu.rsp);
      w := Load64(mem, cpu.rsp);
      cpu := cpu.(rsp := cpu.rsp + 8);
    }

    // What the processor itself does when it takes an interrupt.
    method TakeInterrupt(error: ErrorCode)
      requires FRAME <= Aligned(cpu.rsp)
      modifies this
      ensures Pushing() && base == old(mem) && top == Aligned(old(cpu.rsp))
      ensures words == [old(cpu).ss, old(cpu).rsp, old(cpu).rflags, old(cpu).cs, old(cpu).rip]
                       + if error.None? then [] else [error.value]
      ensures cpu == old(cpu).(rsp := top - 8 * |words|)
    {
      hide Pushed;
      var was := cpu;
      base, top, words := mem, Aligned(cpu.rsp), [];
      PushedNothing(mem, top);
      cpu := cpu.(rsp := Aligned(cpu.rsp));
      Push(was.ss);
      Push(was.rsp);
      Push(was.rflags);
      Push(was.cs);
      Push(was.rip);
      if error.Code? {
        Push(error.value);
      }
    }

    method SaveABCD()
      requires Pushing() && 32 <= cpu.rsp
      modifies this`mem, this`cpu, this`words
      ensures Pushing() && cpu == old(cpu).(rsp := old(cpu.rsp) - 32)
      ensures words == old(words) + [cpu.rax, cpu.rbx, cpu.rcx, cpu.rdx]
    {
      hide Pushed;
      Push(cpu.rax);
      Push(cpu.rbx);
      Push(cpu.rcx);
      Push(cpu.rdx);
    }

    method SavePointers()
      requires Pushing() && 24 <= cpu.rsp
      modifies this`mem, this`cpu, this`words
      ensures Pushing() && cpu == old(cpu).(rsp := old(cpu.rsp) - 24)
      ensures words == old(words) + [cpu.rbp, cpu.rsi, cpu.rdi]
    {
      hide Pushed;
      Push(cpu.rbp);
      Push(cpu.rsi);
      Push(cpu.rdi);
    }

    method SaveNumbered()
      requires Pushing() && 64 <= cpu.rsp
      modifies this`mem, this`cpu, this`words
      ensures Pushing() && cpu == old(cpu).(rsp := old(cpu.rsp) - 64)
      ensures words == old(words) + [cpu.r8, cpu.r9, cpu.r10, cpu.r11, cpu.r12, cpu.r13, cpu.r14, cpu.r15]
    {
      hide Pushed;
      Push(cpu.r8);
      Push(cpu.r9);
      Push(cpu.r10);
      Push(cpu.r11);
      assert words == old(words) + [cpu.r8, cpu.r9, cpu.r10, cpu.r11];
      Push(cpu.r12);
      Push(cpu.r13);
      Push(cpu.r14);
      Push(cpu.r15);
    }

    method SaveContext()
      requires Pushing() && 120 <= cpu.rsp
      modifies this`mem, this`cpu, this`words
      ensures Pushing() && cpu == old(cpu).(rsp := old(cpu.rsp) - 120)
      ensures words == old(words) + SavedRegisters(cpu)
    {
      hide Pushed;
      SaveABCD();
      SavePointers();
      SaveNumbered();
    }

    // The interrupt and the stub's own two words.
    method TakeVector(vector: Word, error: ErrorCode)
      requires FRAME <= Aligned(cpu.rsp)
      modifies this
      ensures Pushing() && base == old(mem) && top == Aligned(old(cpu.rsp))
      ensures cpu == old(cpu).(rsp := top - 56)
      ensures words == InterruptWords(old(cpu), vector, if error.None? then 0 else error.value)
    {
      hide Pushed, Aligned;
      TakeInterrupt(error);
      if error.None? {
        Push(0);
      }
      Push(vector);
    }

    // From the interrupt to the call of interrupt_dispatch: the interrupted context is in memory as a
    // cpu_status, rdi points at it, and the stack is aligned as the call needs it.
    method EnterRoutine(vector: Word, error: ErrorCode)
      requires FRAME <= Aligned(cpu.rsp)
      modifies this
      ensures cpu.rdi == cpu.rsp == FrameAt(old(cpu.rsp)) && cpu.rsp % 16 == 0
      ensures StatusAt(mem, cpu.rdi) == Saved(old(cpu), vector, if error.None? then 0 else error.value)
      ensures Resumed(mem, cpu.rdi) == old(cpu)
      ensures SameOutside(old(mem), mem, cpu.rsp, cpu.rsp + FRAME)
    {
      hide Pushed, StatusAt, Resumed, SameOutside, Saved, InterruptWords, SavedRegisters, Aligned;
      ghost var code: Word := if error.None? then 0 else error.value;
      ghost var was := cpu;
      FrameIsAligned(cpu.rsp);
      WordCounts(was, vector, code);
      FrameIsStatus(mem, Aligned(cpu.rsp), was, vector, code);
      PushedOutside(mem, Aligned(cpu.rsp), FrameWords(was, vector, code));
      SameRegisters(was, FrameAt(was.rsp));
      TakeVector(vector, error);
      SaveContext();
      cpu := cpu.(rdi := cpu.rsp);
    }

    method RestoreContext()
      requires cpu.rsp + FRAME < WORD_LIMIT
      modifies this`cpu
      ensures var a := old(cpu.rsp);
              cpu == Resumed(mem, a).(rip := old(cpu.rip), cs := old(cpu.cs), rflags := old(cpu.rflags),
                                      rsp := a + 120, ss := old(cpu.ss))
    {
      hide Field;
      ghost var a := cpu.rsp;
      var r15 := Pop(a, 0);
      cpu := cpu.(r15 := r15);
      var r14 := Pop(a, 1);
      cpu := cpu.(r14 := r14);
      var r13 := Pop(a, 2);
      cpu := cpu.(r13 := r13);
      var r12 := Pop(a, 3);
      cpu := cpu.(r12 := r12);
      var r11 := Pop(a, 4);
      cpu := cpu.(r11 := r11);
      var r10 := Pop(a, 5);
      cpu := cpu.(r10 := r10);
      var r9 := Pop(a, 6);
      cpu := cpu.(r9 := r9);
      var r8 := Pop(a, 7);
      cpu := cpu.(r8 := r8);
      var rdi := Pop(a, 8);
      cpu := cpu.(rdi := rdi);
      var rsi := Pop(a, 9);
      cpu := cpu.(rsi := rsi);
      var rbp := Pop(a, 10);
      cpu := cpu.(rbp := rbp);
      var rdx := Pop(a, 11);
      cpu := cpu.(rdx := rdx);
      var rcx := Pop(a, 12);
      cpu := cpu.(rcx := rcx);
      var rbx := Pop(a, 13);
      cpu := cpu.(rbx := rbx);
      var rax := Pop(a, 14);
      cpu := cpu.(rax := rax);
    }

    // iretq: the last five words of the structure are loaded.
    method ReturnFromInterrupt(ghost a: nat)
      requires cpu.rsp == a + 136 && a + FRAME < WORD_LIMIT
      modifies this`cpu
      ensures cpu == old(cpu).(rip := Field(mem, a, 17), cs := Field(mem, a, 18), rflags := Field(mem, a, 19),
                               rsp := Field(mem, a, 20),
                               ss := Field(mem, a, 21))
    {
      hide Field;
      var rip := Pop(a, 17);
      var cs := Pop(a, 18);
      var rflags := Pop(a, 19);
      var rsp := Pop(a, 20);
      var ss := Pop(a, 21);
      cpu := cpu.(rip := rip, cs := cs, rflags := rflags, rsp := rsp, ss := ss);
    }

    // From the return of interrupt_dispatch to the interrupted code: whatever the registers held, the
    // processor is the one that the structure at `context` describes.
    method LeaveRoutine(context: Word)
      requires context + FRAME < WORD_LIMIT
      modifies this`cpu
      ensures cpu == Resumed(mem, context)
    {
      hide Field;
      cpu := cpu.(rax := context);
      cpu := cpu.(rsp := cpu.rax);
      RestoreContext();
      cpu := cpu.(rsp := cpu.rsp + 16);
      ReturnFromInterrupt(context);
    }
  }

  lemma WordCounts(c: Cpu, vector: Word, error: Word)
    ensures |FrameWords(c, vector, error)| == FIELDS && |SavedRegisters(c)| == 15
  {
  }

  lemma SameRegisters(c: Cpu, rsp: Word)
    ensures SavedRegisters(c.(rsp := rsp)) == SavedRegisters(c)
  {
  }

  lemma PushedNothing(m: Bytes, top: nat)
    ensures Pushed(m, top, []) == m
  {
  }
}
