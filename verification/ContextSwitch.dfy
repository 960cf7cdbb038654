/** kernel/process.s and the stacks of kernel/process.c: the context switch on registers and memory, and
    faithful resumption under every interleaving. */
module ContextSwitch {
  import opened SchedSpec

  /** Memory as 32-bit words at 4-aligned addresses. */
  type Memory = map<int, int>

  function Word(m: Memory, a: int): int { if a in m then m[a] else 0 }

  datatype Regs = Regs(eax: int, ecx: int, edx: int, ebx: int, esp: int, ebp: int, esi: int, edi: int)

  datatype Cpu = Cpu(regs: Regs, eip: int, mem: Memory)

  // ---------- the instructions used ----------

  function Push(c: Cpu, v: int): Cpu {
    var sp := c.regs.esp - 4;
    c.(regs := c.regs.(esp := sp), mem := c.mem[sp := v])
  }

  /** `pusha`: the eight registers, with the stack pointer as it was before. */
  function Pusha(c: Cpu): Cpu {
    var r := c.regs;
    Push(Push(Push(Push(Push(Push(Push(Push(c, r.eax), r.ecx), r.edx), r.ebx), r.esp), r.ebp), r.esi), r.edi)
  }

  /** `popa`: all of them back, except the stack pointer. */
  function Popa(c: Cpu): Cpu {
    var s := c.regs.esp;
    c.(regs := Regs(Word(c.mem, s + 28), Word(c.mem, s + 24), Word(c.mem, s + 20), Word(c.mem, s + 16), s + 32,
                    Word(c.mem, s + 8), Word(c.mem, s + 4), Word(c.mem, s)))
  }

  /** `popa` after `pusha` gives all eight registers back. */
  lemma {:induction false} PopaUndoesPusha(c: Cpu)
    ensures Popa(Pusha(c)).regs == c.regs
  {
  }

  function Ret(c: Cpu): Cpu {
    c.(eip := Word(c.mem, c.regs.esp), regs := c.regs.(esp := c.regs.esp + 4))
  }

  /** `context_switch(old_esp, new_esp)` from its entry to its return (kernel/process.s:8-25). */
  function Switch(c: Cpu): Cpu {
    var r := c.regs;
    var c1 := c.(regs := r.(eax := Word(c.mem, r.esp + 4), ecx := Word(c.mem, r.esp + 8)));
    var c2 := Pusha(c1);
    var c3 := c2.(mem := c2.mem[c2.regs.eax := c2.regs.esp]);
    var c4 := c3.(regs := c3.regs.(esp := c3.regs.ecx));
    Ret(Popa(c4))
  }

  /** The machine itself, executing instruction by instruction. */
  class Machine {
    var regs: Regs
    var eip: int
    var mem: Memory

    ghost function State(): Cpu
      reads this
    {
      Cpu(regs, eip, mem)
    }

    constructor (c: Cpu)
      ensures State() == c
    {
      regs, eip, mem := c.regs, c.eip, c.mem;
    }

    method DoPush(v: int)
      modifies this
      ensures State() == Push(old(State()), v)
    {
      regs := regs.(esp := regs.esp - 4);
      mem := mem[regs.esp := v];
    }

    method DoPusha()
      modifies this
      ensures State() == Pusha(old(State()))
    {
      var r := regs;
      DoPush(r.eax);
      DoPush(r.ecx);
      DoPush(r.edx);
      DoPush(r.ebx);
      DoPush(r.esp);
      DoPush(r.ebp);
      DoPush(r.esi);
      DoPush(r.edi);
    }

    method DoPop() returns (v: int)
      modifies this
      ensures v == Word(old(mem), old(regs).esp)
      ensures State() == old(State()).(regs := old(regs).(esp := old(regs).esp + 4))
    {
      v := if regs.esp in mem then mem[regs.esp] else 0;
      regs := regs.(esp := regs.esp + 4);
    }

    method DoPopa()
      modifies this
      ensures State() == Popa(old(State()))
    {
      hide Word;
      var edi := DoPop();
      var esi := DoPop();
      var ebp := DoPop();
      var ignored := DoPop();
      var ebx := DoPop();
      var edx := DoPop();
      var ecx := DoPop();
      var eax := DoPop();
      regs := Regs(eax, ecx, edx, ebx, regs.esp, ebp, esi, edi);
    }

    method DoContextSwitch()
      modifies this
      ensures State() == Switch(old(State()))
    {
      hide Pusha, Popa, Word;
      regs := regs.(eax := Word(mem, regs.esp + 4));
      regs := regs.(ecx := Word(mem, regs.esp + 8));
      DoPusha();
      mem := mem[regs.eax := regs.esp];
      regs := regs.(esp := regs.ecx);
      DoPopa();
      var ra := DoPop();
      eip := ra;
    }

    /** The stack `process_create` prepares below `top`, and the stack pointer it records. */
    method PrepareStack(top: int, entry: int) returns (esp: int)
      modifies this
      ensures mem == InitialStack(old(mem), top, entry) && esp == top - 36
      ensures regs == old(regs) && eip == old(eip)
    {
      var t := top;
      t := t - 4;
      mem := mem[t := entry];
      var i := 0;
      ghost var m := mem;
      while i < 8
        invariant 0 <= i <= 8 && t == top - 4 - 4 * i
        invariant mem == Zeros(m, top - 4, i)
        invariant regs == old(regs) && eip == old(eip)
      {
        t := t - 4;
        mem := mem[t := 0];
        i := i + 1;
      }
      esp := t;
    }
  }

  /** `n` zero words below address `a`. */
  function Zeros(m: Memory, a: int, n: nat): Memory {
    if n == 0 then m else Zeros(m, a, n - 1)[a - 4 * n := 0]
  }

  function InitialStack(m: Memory, top: int, entry: int): Memory {
    Zeros(m[top - 4 := entry], top - 4, 8)
  }

  lemma {:induction false} ZerosAt(m: Memory, a: int, n: nat, x: int)
    ensures Word(Zeros(m, a, n), x) == if x < a && x >= a - 4 * n && (a - x) % 4 == 0 then 0 else Word(m, x)
    decreases n
  {
    if n > 0 {
      ZerosAt(m, a, n - 1, x);
    }
  }

  // ---------- contexts ----------

  /** What a process must get back: registers kept across calls, stack pointer and place of return. */
  datatype Context = Context(edx: int, ebx: int, ebp: int, esi: int, edi: int, esp: int, eip: int)

  /** The context of a process about to be switched out, at the entry of `context_switch`. */
  function ContextAtCall(c: Cpu): Context {
    var r := c.regs;
    Context(r.edx, r.ebx, r.ebp, r.esi, r.edi, r.esp + 4, Word(c.mem, r.esp))
  }

  /** The context a processor is in. */
  function ContextOf(c: Cpu): Context {
    var r := c.regs;
    Context(r.edx, r.ebx, r.ebp, r.esi, r.edi, r.esp, c.eip)
  }

  /** A context saved on a stack at `s`. */
  predicate SavedAt(m: Memory, s: int, x: Context) {
    && Word(m, s) == x.edi && Word(m, s + 4) == x.esi && Word(m, s + 8) == x.ebp
    && Word(m, s + 16) == x.ebx && Word(m, s + 20) == x.edx && Word(m, s + 32) == x.eip && x.esp == s + 36
  }

  lemma {:induction false} SavedFrame(m: Memory, m': Memory, s: int, x: Context)
    requires SavedAt(m, s, x) && forall a :: s <= a < s + 36 ==> Word(m', a) == Word(m, a)
    ensures SavedAt(m', s, x)
  {
  }

  /** The memory a switch leaves: the frame of the old context, and the stack pointer in its slot. */
  lemma {:induction false} SwitchMemory(c: Cpu, a: int)
    ensures
      var r := c.regs;
      var slot := Word(c.mem, r.esp + 4);
      Word(Switch(c).mem, a) ==
        if a == slot then r.esp - 32
        else if a == r.esp - 32 then r.edi
        else if a == r.esp - 28 then r.esi
        else if a == r.esp - 24 then r.ebp
        else if a == r.esp - 20 then r.esp
        else if a == r.esp - 16 then r.ebx
        else if a == r.esp - 12 then r.edx
        else if a == r.esp - 8 then Word(c.mem, r.esp + 8)
        else if a == r.esp - 4 then slot
        else Word(c.mem, a)
  {
  }

  /** A switch saves the old context where the slot now points. */
  lemma {:induction false} SwitchSaves(c: Cpu)
    requires var slot := Word(c.mem, c.regs.esp + 4); !(c.regs.esp - 32 <= slot < c.regs.esp + 4)
    ensures
      var slot := Word(c.mem, c.regs.esp + 4);
      && Word(Switch(c).mem, slot) == c.regs.esp - 32
      && SavedAt(Switch(c).mem, c.regs.esp - 32, ContextAtCall(c))
  {
    hide Switch;
    var s := c.regs.esp - 32;
    SwitchMemory(c, Word(c.mem, c.regs.esp + 4));
    SwitchMemory(c, s);
    SwitchMemory(c, s + 4);
    SwitchMemory(c, s + 8);
    SwitchMemory(c, s + 16);
    SwitchMemory(c, s + 20);
    SwitchMemory(c, s + 32);
  }

  /** The switch returns in the context saved at the new stack pointer, as memory holds it after the save. */
  lemma {:induction false} SwitchRestores(c: Cpu, x: Context)
    requires SavedAt(Switch(c).mem, Word(c.mem, c.regs.esp + 8), x)
    ensures ContextOf(Switch(c)) == x
  {
  }

  // ---------- processes and their stacks ----------

  /** Where a process keeps its saved stack pointer, and the bounds of its stack. */
  datatype Task = Task(slot: int, lo: int, hi: int)

  predicate Within(t: Task, a: int) { t.lo <= a < t.hi }

  predicate TaskOk(t: Task) { 0 < t.lo <= t.hi <= 0x1_0000_0000 && t.lo % 4 == 0 && t.hi % 4 == 0 && t.slot % 4 == 0 }

  /** Stacks do not overlap, slots are distinct, and no slot lies in a stack. */
  predicate Separate(ts: seq<Task>, i: nat, j: nat)
    requires i < |ts| && j < |ts|
  {
    && !Within(ts[j], ts[i].slot)
    && (i != j ==> ts[i].slot != ts[j].slot && (ts[i].hi <= ts[j].lo || ts[j].hi <= ts[i].lo))
  }

  predicate Layout(ts: seq<Task>) {
    && (forall i :: 0 <= i < |ts| ==> TaskOk(ts[i]))
    && (forall i, j :: 0 <= i < |ts| && 0 <= j < |ts| ==> Separate(ts, i, j))
  }

  /** The whole system; `saved` records, for the statements below, the context each process was last
      switched out in, or the one it was created with. */
  datatype Sys = Sys(sched: Sched, tasks: seq<Task>, cpu: Cpu, saved: seq<Context>)

  /** Process `i` is switched out: its slot points to its saved context, on its own stack. */
  predicate Parked(s: Sys, i: nat)
    requires i < |s.tasks| && i < |s.saved|
  {
    var sp := Word(s.cpu.mem, s.tasks[i].slot);
    s.tasks[i].lo <= sp && sp + 36 <= s.tasks[i].hi && SavedAt(s.cpu.mem, sp, s.saved[i])
  }

  predicate Inv(s: Sys) {
    && Safe(s.sched) && |s.tasks| == |s.sched.procs| == |s.saved|
    && Layout(s.tasks)
    && forall i :: 0 <= i < |s.tasks| && i != s.sched.cur ==> Parked(s, i)
  }

  // ---------- steps ----------

  /** A word of process `i` that the current process must leave alone: a slot, or another's stack. */
  predicate Protected(s: Sys, i: nat, a: int)
    requires i < |s.tasks|
  {
    a == s.tasks[i].slot || (i != s.sched.cur && Within(s.tasks[i], a))
  }

  /** The current process ran: it changed registers, its own stack and memory outside all stacks and
      slots, at will. */
  ghost predicate Works(s: Sys, t: Sys) {
    && t.sched == s.sched && t.tasks == s.tasks && t.saved == s.saved && s.sched.cur < |s.tasks|
    && forall i, a :: 0 <= i < |s.tasks| && Protected(s, i, a) ==> Word(t.cpu.mem, a) == Word(s.cpu.mem, a)
  }

  /** The current process is at the entry of `context_switch(&prev->esp, next->esp)`, with room on its
      stack for the saved registers. */
  predicate Calling(s: Sys, n: nat) {
    && s.sched.cur < |s.tasks| && n < |s.tasks|
    && s.tasks[s.sched.cur].lo <= s.cpu.regs.esp - 32 && s.cpu.regs.esp + 12 <= s.tasks[s.sched.cur].hi
    && s.cpu.regs.esp % 4 == 0
    && Word(s.cpu.mem, s.cpu.regs.esp + 4) == s.tasks[s.sched.cur].slot
    && Word(s.cpu.mem, s.cpu.regs.esp + 8) == Word(s.cpu.mem, s.tasks[n].slot)
  }

  /** A tick: nothing when it finds no other process, else the hand-over and the switch. */
  predicate Ticks(s: Sys, t: Sys) {
    && s.sched.cur < |s.sched.procs| && |s.saved| == |s.sched.procs|
    && (var n := NextOf(s.sched.procs, s.sched.cur);
        if n == s.sched.cur then t == s
        else
          && Calling(s, n)
          && t == Sys(SchedSpec.Tick(s.sched), s.tasks, Switch(s.cpu), s.saved[s.sched.cur := ContextAtCall(s.cpu)]))
  }

  predicate Exits(s: Sys, t: Sys) {
    s.sched.cur < |s.sched.procs| && t == s.(sched := SchedSpec.Exit(s.sched))
  }

  /** A process is created on a fresh stack of 4096 bytes: initial frame, recorded stack pointer, list entry. */
  predicate Creates(s: Sys, t: Sys, task: Task, entry: int) {
    task.lo + 4096 == task.hi && Layout(s.tasks + [task]) && t == Created(s, task, entry)
  }

  function Created(s: Sys, task: Task, entry: int): Sys {
    Sys(SchedSpec.Create(s.sched, true), s.tasks + [task],
        s.cpu.(mem := InitialStack(s.cpu.mem, task.hi, entry)[task.slot := task.hi - 36]),
        s.saved + [Context(0, 0, 0, 0, 0, task.hi, entry)])
  }

  /** A create first works like any other code, up to the processor state `mid`: it allocates, fills in the
      record and links it. */
  datatype SysStep = Work | Tick | Exit | Create(task: Task, entry: int, mid: Cpu)

  ghost predicate SysNext(s: Sys, e: SysStep, t: Sys) {
    match e
    case Work => Works(s, t)
    case Tick => Ticks(s, t)
    case Exit => Exits(s, t)
    case Create(task, entry, mid) => Works(s, s.(cpu := mid)) && Creates(s.(cpu := mid), t, task, entry)
  }

  // ---------- the invariant ----------

  /** A parked process stays parked when its slot and its stack keep their words. */
  lemma {:induction false} StaysParked(s: Sys, t: Sys, i: nat)
    requires i < |s.tasks| && i < |s.saved| && i < |t.tasks| && i < |t.saved|
    requires Parked(s, i) && t.tasks[i] == s.tasks[i] && t.saved[i] == s.saved[i]
    requires Word(t.cpu.mem, s.tasks[i].slot) == Word(s.cpu.mem, s.tasks[i].slot)
    requires forall a :: Within(s.tasks[i], a) ==> Word(t.cpu.mem, a) == Word(s.cpu.mem, a)
    ensures Parked(t, i)
  {
    hide Word, SavedAt;
    var sp := Word(s.cpu.mem, s.tasks[i].slot);
    assert forall a :: sp <= a < sp + 36 ==> Within(s.tasks[i], a);
    SavedFrame(s.cpu.mem, t.cpu.mem, sp, s.saved[i]);
  }

  lemma {:induction false} WorkKeeps(s: Sys, t: Sys)
    requires Inv(s) && Works(s, t)
    ensures Inv(t)
  {
    hide Word, SavedAt, Parked, Safe, Layout;
    forall i | 0 <= i < |t.tasks| && i != t.sched.cur ensures Parked(t, i) {
      assert Protected(s, i, s.tasks[i].slot);
      assert forall a :: Within(s.tasks[i], a) ==> Protected(s, i, a);
      StaysParked(s, t, i);
    }
  }

  /** After a switch, the process left is parked with the context it had, all others as before. */
  lemma {:induction false} TickKeeps(s: Sys, t: Sys)
    requires Inv(s) && Ticks(s, t)
    ensures Inv(t)
  {
    hide Switch, Word, SavedAt, Safe, NextOf, Parked;
    var n, c := NextOf(s.sched.procs, s.sched.cur), s.sched.cur;
    StepSafe(s.sched, DoTick);
    if n != c {
      forall i | 0 <= i < |t.tasks| && i != n ensures Parked(t, i) {
        if i == c {
          LeavesParked(s, t, n);
        } else {
          OthersParked(s, t, n, i);
        }
      }
    }
  }

  lemma {:induction false} LeavesParked(s: Sys, t: Sys, n: nat)
    requires Inv(s) && n < |s.tasks| && Calling(s, n)
    requires t.tasks == s.tasks && t.cpu == Switch(s.cpu) && t.saved == s.saved[s.sched.cur := ContextAtCall(s.cpu)]
    ensures Parked(t, s.sched.cur)
  {
    hide Switch, Word, SavedAt, Safe;
    var c := s.sched.cur;
    assert Separate(s.tasks, c, c);
    assert !Within(s.tasks[c], s.tasks[c].slot);
    SwitchSaves(s.cpu);
  }

  lemma {:induction false} OthersParked(s: Sys, t: Sys, n: nat, i: nat)
    requires Inv(s) && n < |s.tasks| && Calling(s, n) && i < |s.tasks| && i != s.sched.cur
    requires t.tasks == s.tasks && t.cpu == Switch(s.cpu) && t.saved == s.saved[s.sched.cur := ContextAtCall(s.cpu)]
    ensures Parked(t, i)
  {
    hide Switch, Word, SavedAt, Safe, Parked;
    var c := s.sched.cur;
    assert Separate(s.tasks, c, i) && Separate(s.tasks, i, c);
    SwitchMemory(s.cpu, s.tasks[i].slot);
    forall a | Within(s.tasks[i], a) ensures Word(t.cpu.mem, a) == Word(s.cpu.mem, a) {
      SwitchMemory(s.cpu, a);
    }
    StaysParked(s, t, i);
  }

  lemma {:induction false} CreateKeeps(s: Sys, t: Sys, task: Task, entry: int)
    requires Inv(s) && Creates(s, t, task, entry)
    ensures Inv(t)
  {
    hide Word, SavedAt, Safe, Parked, Layout, InitialStack;
    StepSafe(s.sched, DoCreate(true));
    var n := |s.tasks|;
    forall i | 0 <= i < |t.tasks| && i != t.sched.cur ensures Parked(t, i) {
      if i == n {
        NewParked(s, t, task, entry);
      } else {
        OldParked(s, t, task, entry, i);
      }
    }
  }

  /** The words of the initial stack. */
  lemma {:induction false} InitialStackAt(m: Memory, top: int, entry: int, a: int)
    ensures !(top - 36 <= a < top) ==> Word(InitialStack(m, top, entry), a) == Word(m, a)
    ensures a == top - 4 ==> Word(InitialStack(m, top, entry), a) == entry
    ensures top - 36 <= a < top - 4 && (top - a) % 4 == 0 ==> Word(InitialStack(m, top, entry), a) == 0
  {
    ZerosAt(m[top - 4 := entry], top - 4, 8, a);
  }

  lemma {:induction false} NewParked(s: Sys, t: Sys, task: Task, entry: int)
    requires Inv(s) && Creates(s, t, task, entry)
    ensures Parked(t, |s.tasks|)
  {
    hide InitialStack;
    var n, m, sp := |s.tasks|, s.cpu.mem, task.hi - 36;
    var ts := s.tasks + [task];
    assert Separate(ts, n, n) && TaskOk(ts[n]);
    assert ts[n] == task;
    InitialStackAt(m, task.hi, entry, sp);
    InitialStackAt(m, task.hi, entry, sp + 4);
    InitialStackAt(m, task.hi, entry, sp + 8);
    InitialStackAt(m, task.hi, entry, sp + 16);
    InitialStackAt(m, task.hi, entry, sp + 20);
    InitialStackAt(m, task.hi, entry, sp + 32);
  }

  lemma {:induction false} OldParked(s: Sys, t: Sys, task: Task, entry: int, i: nat)
    requires Inv(s) && Creates(s, t, task, entry) && i < |s.tasks| && i != s.sched.cur
    ensures Parked(t, i)
  {
    hide InitialStack, Parked, SavedAt;
    var n, m := |s.tasks|, s.cpu.mem;
    var ts := s.tasks + [task];
    assert Separate(ts, i, n) && Separate(ts, n, i);
    assert ts[n] == task && ts[i] == s.tasks[i];
    assert Parked(s, i);
    InitialStackAt(m, task.hi, entry, s.tasks[i].slot);
    forall a | Within(s.tasks[i], a) ensures Word(t.cpu.mem, a) == Word(m, a) {
      InitialStackAt(m, task.hi, entry, a);
    }
    StaysParked(s, t, i);
  }

  lemma {:induction false} ExitKeeps(s: Sys, t: Sys)
    requires Inv(s) && Exits(s, t)
    ensures Inv(t)
  {
    hide Word, SavedAt, Safe, Layout, Parked;
    StepSafe(s.sched, DoExit);
    forall i | 0 <= i < |t.tasks| && i != t.sched.cur ensures Parked(t, i) {
      StaysParked(s, t, i);
    }
  }

  lemma {:induction false} SysKeeps(s: Sys, e: SysStep, t: Sys)
    requires Inv(s) && SysNext(s, e, t)
    ensures Inv(t)
  {
    hide Inv, Works, Ticks, Exits, Creates;
    match e
    case Work => WorkKeeps(s, t);
    case Tick => TickKeeps(s, t);
    case Exit => ExitKeeps(s, t);
    case Create(task, entry, mid) =>
      WorkKeeps(s, s.(cpu := mid));
      CreateKeeps(s.(cpu := mid), t, task, entry);
  }

  // ---------- resumption ----------

  /** A tick that turns to process `n` puts the processor in exactly the context saved for it; the stack
      pointer it loads is never 0. */
  lemma {:induction false} Resumes(s: Sys, t: Sys)
    requires Inv(s) && Ticks(s, t) && t.sched.cur != s.sched.cur
    ensures t.sched.cur < |s.saved| && ContextOf(t.cpu) == s.saved[t.sched.cur]
    ensures Word(s.cpu.mem, s.tasks[t.sched.cur].slot) != 0
  {
    hide Switch, Word, SavedAt, Safe, NextOf;
    var c, n := s.sched.cur, NextOf(s.sched.procs, s.sched.cur);
    assert Parked(s, n);
    OthersParked(s, t, n, n);
    assert Separate(s.tasks, c, n) && Separate(s.tasks, n, c);
    SwitchMemory(s.cpu, s.tasks[n].slot);
    SwitchRestores(s.cpu, s.saved[n]);
  }

  ghost predicate SysRun(ss: seq<Sys>, es: seq<SysStep>) {
    && |ss| == |es| + 1
    && forall i :: 0 <= i < |es| ==> SysNext(ss[i], es[i], ss[i + 1])
  }

  lemma {:induction false} SysRunInv(ss: seq<Sys>, es: seq<SysStep>, i: nat)
    requires SysRun(ss, es) && Inv(ss[0]) && i < |ss|
    ensures Inv(ss[i])
  {
    hide Inv, SysNext;
    if i > 0 {
      SysRunInv(ss, es, i - 1);
      assert SysNext(ss[i - 1], es[i - 1], ss[i - 1 + 1]);
      SysKeeps(ss[i - 1], es[i - 1], ss[i]);
    }
  }

  /** The context recorded for a process does not change while it is switched out. */
  lemma {:induction false} RecordStays(ss: seq<Sys>, es: seq<SysStep>, q: nat, i: nat, j: nat)
    requires SysRun(ss, es) && Inv(ss[0]) && i <= j < |ss| && q < |ss[i].saved|
    requires forall k :: i <= k <= j ==> ss[k].sched.cur != q
    ensures q < |ss[j].saved| && ss[j].saved[q] == ss[i].saved[q]
    decreases j
  {
    hide Inv, Switch, NextOf, Word;
    if i < j {
      RecordStays(ss, es, q, i, j - 1);
      assert SysNext(ss[j - 1], es[j - 1], ss[j - 1 + 1]);
    }
  }

  /** Resumption: under every interleaving, a process switched out at step `i` and next switched in at step
      `j` gets back the registers kept across calls, its stack pointer and its place of return. */
  lemma {:induction false} ResumeFaithful(ss: seq<Sys>, es: seq<SysStep>, i: nat, j: nat)
    requires SysRun(ss, es) && Inv(ss[0]) && i < j < |es|
    requires es[i] == Tick && ss[i + 1].sched.cur != ss[i].sched.cur
    requires forall k :: i < k <= j ==> ss[k].sched.cur != ss[i].sched.cur
    requires es[j] == Tick && ss[j + 1].sched.cur == ss[i].sched.cur
    ensures ContextOf(ss[j + 1].cpu) == ContextAtCall(ss[i].cpu)
  {
    hide Inv, Switch, NextOf;
    var q := ss[i].sched.cur;
    SysRunInv(ss, es, i);
    SysRunInv(ss, es, j);
    assert SysNext(ss[i], es[i], ss[i + 1]);
    assert SysNext(ss[j], es[j], ss[j + 1]);
    RecordStays(ss, es, q, i + 1, j);
    Resumes(ss[j], ss[j + 1]);
  }

  /** A process created at step `i` and first switched in at step `j` starts at its entry point, with the
      stack pointer at the top of its stack and the kept registers 0. */
  lemma {:induction false} NewProcessEnters(ss: seq<Sys>, es: seq<SysStep>, i: nat, j: nat)
    requires SysRun(ss, es) && Inv(ss[0]) && i < j < |es|
    requires es[i].Create? && es[j] == Tick && ss[j + 1].sched.cur == |ss[i].tasks|
    requires forall k :: i < k <= j ==> ss[k].sched.cur != |ss[i].tasks|
    ensures ss[j + 1].cpu.eip == es[i].entry && ss[j + 1].cpu.regs.esp == es[i].task.hi
    ensures ContextOf(ss[j + 1].cpu) == Context(0, 0, 0, 0, 0, es[i].task.hi, es[i].entry)
  {
    hide Switch, NextOf, InitialStack, Parked, Layout;
    SysRunInv(ss, es, i);
    SysRunInv(ss, es, j);
    assert SysNext(ss[i], es[i], ss[i + 1]);
    assert SysNext(ss[j], es[j], ss[j + 1]);
    RecordStays(ss, es, |ss[i].tasks|, i + 1, j);
    Resumes(ss[j], ss[j + 1]);
  }

  /** The system `process_init` sets up, with the kernel's slot holding 0, satisfies the invariant. */
  lemma {:induction false} BootInv(kernel: Task, c: Cpu, x: Context)
    requires TaskOk(kernel) && !Within(kernel, kernel.slot) && Word(c.mem, kernel.slot) == 0
    ensures Inv(Sys(Boot, [kernel], c, [x]))
  {
    assert Separate([kernel], 0, 0);
  }
}
