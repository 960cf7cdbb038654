/** Where processes live: records and stacks from `kmalloc` (kernel/process.c:33-64), and why they never meet. */
module ProcessMemory {
  import opened HeapSpec
  import opened HeapTheorems
  import opened HeapMemory
  import opened HeapStores
  import opened Bytes
  import SchedSpec
  import opened ContextSwitch

  const STACK := 4096

  /** The heap after `process_create`'s two allocations, with `record` bytes for the process record, and whether
      both succeeded. When the second fails the first is given back. */
  function CreateBlocks(bs: Blocks, record: nat): (Blocks, bool) {
    var i := Fit(bs, record);
    if i == |bs| then (bs, false)
    else
      var r := Malloc(bs, record);
      if Fit(r, STACK) == |r| then
        (if BlockAt(r, Start(bs, i) + HEADER) < |r| then Free(r, BlockAt(r, Start(bs, i) + HEADER)) else r, false)
      else (Malloc(r, STACK), true)
  }

  /** A create that finds no memory leaves the block list as it was. */
  lemma {:induction false} FailedCreate(bs: Blocks, record: nat)
    requires Tight(bs) && !CreateBlocks(bs, record).1
    ensures CreateBlocks(bs, record).0 == bs
  {
    hide FitFrom, Malloc, Free, BlockAtFrom, Length, Tight;
    if Fit(bs, record) < |bs| {
      MallocThenFree(bs, record);
      TakenAt(bs, record);
    }
  }

  /** The payloads of a process: its record, and its stack. */
  datatype Home = Home(record: (nat, nat), stack: (nat, nat))

  /** Process `i` keeps its stack pointer in its record, at offset 4, and its stack in a payload of its own; the
      kernel process, the first, has a stack outside the heap. */
  predicate HomeOf(bs: Blocks, ts: seq<Task>, hs: seq<Home>, i: nat)
    requires i < |ts| && i < |hs|
  {
    && hs[i].record in Live(bs) && hs[i].record.1 >= 8 && ts[i].slot == HEAP_START + hs[i].record.0 + 4
    && if i == 0 then TaskOk(ts[0]) && (ts[0].hi <= HEAP_START || HEAP_START + HEAP_SIZE <= ts[0].lo)
       else
         && hs[i].stack in Live(bs) && hs[i].stack.1 >= STACK
         && ts[i].lo == HEAP_START + hs[i].stack.0 && ts[i].hi == ts[i].lo + STACK
  }

  /** No payload serves twice. */
  predicate HomesApart(hs: seq<Home>, i: nat, j: nat)
    requires i < |hs| && j < |hs|
  {
    && (j > 0 ==> hs[i].record != hs[j].stack)
    && (i != j ==> hs[i].record != hs[j].record && (i > 0 && j > 0 ==> hs[i].stack != hs[j].stack))
  }

  predicate Housed(bs: Blocks, ts: seq<Task>, hs: seq<Home>) {
    && |ts| == |hs|
    && (forall i :: 0 <= i < |ts| ==> HomeOf(bs, ts, hs, i))
    && (forall i, j :: 0 <= i < |ts| && 0 <= j < |ts| ==> HomesApart(hs, i, j))
  }

  /** A payload lies in the heap, 4-aligned. */
  lemma {:induction false} PayloadPlace(bs: Blocks, p: (nat, nat))
    requires Aligned(bs) && Length(bs) == HEAP_SIZE && p in Live(bs)
    ensures HEADER <= p.0 && p.0 % 4 == 0 && p.0 + p.1 <= HEAP_SIZE
  {
    hide LiveFrom, Length;
    var i := LiveIndex(bs, 0, p.0, p.1);
    StartAligned(bs, i);
    StartBound(bs, i);
  }

  /** Processes housed in the heap have stacks and slots apart from each other. */
  lemma {:induction false} HousedLayout(bs: Blocks, ts: seq<Task>, hs: seq<Home>)
    requires Housed(bs, ts, hs) && Aligned(bs) && Length(bs) == HEAP_SIZE
    ensures Layout(ts)
  {
    hide LiveFrom, Length, Aligned;
    forall i | 0 <= i < |ts| ensures TaskOk(ts[i]) {
      assert HomeOf(bs, ts, hs, i);
      PayloadPlace(bs, hs[i].record);
      if i > 0 {
        PayloadPlace(bs, hs[i].stack);
      }
    }
    forall i, j | 0 <= i < |ts| && 0 <= j < |ts| ensures Separate(ts, i, j) {
      assert HomeOf(bs, ts, hs, i) && HomeOf(bs, ts, hs, j) && HomesApart(hs, i, j);
      HomesDisjoint(bs, ts, hs, i, j);
    }
  }

  lemma {:induction false} HomesDisjoint(bs: Blocks, ts: seq<Task>, hs: seq<Home>, i: nat, j: nat)
    requires i < |ts| && j < |ts| && |hs| == |ts| && Aligned(bs) && Length(bs) == HEAP_SIZE
    requires HomeOf(bs, ts, hs, i) && HomeOf(bs, ts, hs, j) && HomesApart(hs, i, j)
    ensures Separate(ts, i, j)
  {
    hide LiveFrom, Length, Aligned;
    var r, q := hs[i].record, hs[j].record;
    PayloadPlace(bs, r);
    if j > 0 {
      LiveDisjoint(bs, r.0, r.1, hs[j].stack.0, hs[j].stack.1);
      PayloadPlace(bs, hs[j].stack);
    }
    if i != j {
      LiveDisjoint(bs, r.0, r.1, q.0, q.1);
      if i > 0 {
        PayloadPlace(bs, hs[i].stack);
        if j > 0 {
          LiveDisjoint(bs, hs[i].stack.0, hs[i].stack.1, hs[j].stack.0, hs[j].stack.1);
        }
      }
    }
  }

  /** The payload that `kmalloc` hands out. */
  function NewPayload(bs: Blocks, need: nat): (nat, nat)
    requires Fit(bs, need) < |bs|
  {
    var i := Fit(bs, need);
    TakenSize(bs[i], need);
    (Start(bs, i) + HEADER, Taken(bs[i], need)[0].size)
  }

  /** The new process after a create that found memory. */
  function NewTask(bs: Blocks, record: nat): (Task, Home)
    requires CreateBlocks(bs, record).1
  {
    var p := NewPayload(bs, record);
    var q := NewPayload(Malloc(bs, record), STACK);
    (Task(HEAP_START + p.0 + 4, HEAP_START + q.0, HEAP_START + q.0 + STACK), Home(p, q))
  }

  /** `process_create` houses the new process beside all the others, so the layout that faithful resumption
      relies on follows from the allocator. */
  lemma {:induction false} CreateHoused(bs: Blocks, record: nat, ts: seq<Task>, hs: seq<Home>)
    requires Housed(bs, ts, hs) && ts != [] && record >= 8 && CreateBlocks(bs, record).1
    ensures
      var (task, home) := NewTask(bs, record);
      Housed(CreateBlocks(bs, record).0, ts + [task], hs + [home])
  {
    hide LiveFrom, Length, FitFrom, Malloc, Taken, Start;
    var (task, home) := NewTask(bs, record);
    var r := Malloc(bs, record);
    MallocLive(bs, record);
    MallocLive(r, STACK);
    var bs', ts', hs' := Malloc(r, STACK), ts + [task], hs + [home];
    forall i | 0 <= i < |ts'| ensures HomeOf(bs', ts', hs', i) {
      assert i < |ts| ==> HomeOf(bs, ts, hs, i);
    }
    forall i, j | 0 <= i < |ts'| && 0 <= j < |ts'| ensures HomesApart(hs', i, j) {
      assert i < |ts| ==> HomeOf(bs, ts, hs, i);
      assert j < |ts| ==> HomeOf(bs, ts, hs, j);
      assert i < |ts| && j < |ts| ==> HomesApart(hs, i, j);
    }
  }

  lemma {:induction false} MallocAligned(bs: Blocks, need: nat)
    requires Aligned(bs) && need % 4 == 0 && Fit(bs, need) < |bs|
    ensures Aligned(Malloc(bs, need)) && Length(Malloc(bs, need)) == Length(bs)
  {
    hide LiveFrom, Length, FitFrom, Aligned, Taken;
    var i := Fit(bs, need);
    var a, b, c := bs[..i], bs[i], bs[i + 1..];
    assert bs == a + [b] + c;
    AlignedParts(a, [b], c);
    AlignedOne(b);
    TakenAligned(b, need);
    AlignedParts(a, Taken(b, need), c);
    MallocLive(bs, need);
  }

  /** A create in the heap is a create step of the system of stacks, and the next one can follow. */
  lemma {:induction false} CreateIsStep(s: Sys, bs: Blocks, record: nat, hs: seq<Home>, entry: int)
    requires Housed(bs, s.tasks, hs) && s.tasks != [] && Aligned(bs) && Length(bs) == HEAP_SIZE
    requires record >= 8 && record % 4 == 0 && CreateBlocks(bs, record).1
    ensures
      var (bs', (task, home)) := (CreateBlocks(bs, record).0, NewTask(bs, record));
      && Creates(s, Created(s, task, entry), task, entry)
      && Housed(bs', s.tasks + [task], hs + [home]) && Aligned(bs') && Length(bs') == HEAP_SIZE
  {
    hide Housed, Layout, Aligned, Length, Malloc, FitFrom;
    var (task, home) := NewTask(bs, record);
    MallocAligned(bs, record);
    MallocAligned(Malloc(bs, record), STACK);
    CreateHoused(bs, record, s.tasks, hs);
    HousedLayout(CreateBlocks(bs, record).0, s.tasks + [task], hs + [home]);
  }

  // ---------- the heap in the memory of words ----------

  /** The heap's bytes in a memory of words. */
  function HeapImage(m: Memory): (b: seq<byte>)
    ensures |b| == HEAP_SIZE
  {
    seq<byte>(HEAP_SIZE, k requires 0 <= k < HEAP_SIZE => U32Bytes(Word(m, HEAP_START + k / 4 * 4) % WORD_LIMIT)[k % 4])
  }

  lemma {:induction false} ImageAt(m: Memory, o: nat)
    requires o % 4 == 0 && o + 4 <= HEAP_SIZE
    ensures HeapImage(m)[o..o + 4] == U32Bytes(Word(m, HEAP_START + o) % WORD_LIMIT)
  {
    hide U32Bytes;
    var w := U32Bytes(Word(m, HEAP_START + o) % WORD_LIMIT);
    forall k | 0 <= k < 4 ensures HeapImage(m)[o + k] == w[k] {
      assert (o + k) / 4 * 4 == o && (o + k) % 4 == k;
    }
  }

  predicate InHeap(a: int) { HEAP_START <= a < HEAP_START + HEAP_SIZE && a % 4 == 0 }

  /** The heap's bytes have become `b`: the words with other bytes are stored, no other word changes. */
  ghost predicate HeapStored(m: Memory, m': Memory, b: seq<byte>)
    requires |b| == HEAP_SIZE
  {
    forall a: int :: Word(m', a) ==
      if InHeap(a) && b[a - HEAP_START..a - HEAP_START + 4] != HeapImage(m)[a - HEAP_START..a - HEAP_START + 4]
      then U32At(b, a - HEAP_START) else Word(m, a)
  }

  lemma {:induction false} StoredImage(m: Memory, m': Memory, b: seq<byte>)
    requires |b| == HEAP_SIZE && HeapStored(m, m', b)
    ensures HeapImage(m') == b
  {
    hide U32Bytes, U32At, Word, HeapImage;
    forall k | 0 <= k < HEAP_SIZE ensures HeapImage(m')[k] == b[k] {
      var o := k / 4 * 4;
      assert InHeap(HEAP_START + o);
      ImageAt(m, o);
      ImageAt(m', o);
      BytesOfWord(b, o);
      assert HeapImage(m')[o..o + 4] == b[o..o + 4];
      assert HeapImage(m')[k] == HeapImage(m')[o..o + 4][k - o] && b[k] == b[o..o + 4][k - o];
    }
  }

  /** A word of a payload whose bytes are kept is kept. */
  lemma {:induction false} StoredWordKept(m: Memory, m': Memory, b: seq<byte>, live: set<(nat, nat)>,
                                          p: (nat, nat), a: int)
    requires |b| == HEAP_SIZE && HeapStored(m, m', b) && Kept(HeapImage(m), b, live) && p in live
    requires InHeap(a) ==> p.0 <= a - HEAP_START && a - HEAP_START + 4 <= p.0 + p.1
    ensures Word(m', a) == Word(m, a)
  {
    hide U32At, Word, HeapImage;
    if InHeap(a) {
      var o := a - HEAP_START;
      forall k | o <= k < o + 4 ensures b[k] == HeapImage(m)[k] {
        assert InLive(live, k);
      }
      assert b[o..o + 4] == HeapImage(m)[o..o + 4];
    }
  }

  /** No heap byte outside the live payloads differs. */
  predicate OnlyLive(m: Memory, m': Memory, live: set<(nat, nat)>) {
    forall k :: 0 <= k < HEAP_SIZE && !InLive(live, k) ==> HeapImage(m')[k] == HeapImage(m)[k]
  }

  predicate InPayload(live: set<(nat, nat)>, a: int) {
    exists p :: p in live && p.0 <= a - HEAP_START && a - HEAP_START + 4 <= p.0 + p.1
  }

  lemma {:induction false} PayloadByte(live: set<(nat, nat)>, a: int, k: nat)
    requires a <= HEAP_START + k < a + 4
    ensures InPayload(live, a) ==> InLive(live, k)
  {
  }

  lemma {:induction false} WordsInPayloads(m: Memory, m': Memory, live: set<(nat, nat)>)
    requires forall a :: InHeap(a) && Word(m', a) != Word(m, a) ==> InPayload(live, a)
    ensures OnlyLive(m, m', live)
  {
    hide U32Bytes, Word, HeapImage;
    forall k | 0 <= k < HEAP_SIZE && !InLive(live, k) ensures HeapImage(m')[k] == HeapImage(m)[k] {
      var o := k / 4 * 4;
      assert InHeap(HEAP_START + o);
      PayloadByte(live, HEAP_START + o, k);
      ImageAt(m, o);
      ImageAt(m', o);
      assert HeapImage(m')[k] == HeapImage(m')[o..o + 4][k - o] && HeapImage(m)[k] == HeapImage(m)[o..o + 4][k - o];
    }
  }

  /** Headers are not payload, so they survive any change of live bytes. */
  lemma {:induction false} LiveLays(b: seq<byte>, b': seq<byte>, bs: Blocks)
    requires Lays(b, bs) && |b'| == |b| && forall k :: 0 <= k < |b| && !InLive(Live(bs), k) ==> b'[k] == b[k]
    ensures Lays(b', bs)
  {
    hide LiveFrom, Length, Header, InLive;
    forall i | 0 <= i < |bs| ensures HeaderOk(b', bs, i) {
      assert HeaderOk(b, bs, i);
      forall k | Start(bs, i) <= k < Start(bs, i) + HEADER ensures b[k] == b'[k] {
        HeaderNotLive(bs, i, k);
      }
      HeaderFrame(b, b', Start(bs, i), bs[i], NextOf(bs, i));
    }
  }

  lemma {:induction false} HeaderNotLive(bs: Blocks, i: nat, k: nat)
    requires i < |bs| && Start(bs, i) <= k < Start(bs, i) + HEADER
    ensures !InLive(Live(bs), k)
  {
    hide LiveFrom, Length;
    forall p | p in Live(bs) ensures !(p.0 <= k < p.0 + p.1) {
      var j := LiveIndex(bs, 0, p.0, p.1);
      if i < j {
        StartOrder(bs, i, j);
      } else if j < i {
        StartOrder(bs, j, i);
      }
    }
  }

  // ---------- heap calls and process steps together ----------

  /** The processes, the heap they live in, and which payloads are theirs. */
  datatype World = World(sys: Sys, blocks: Blocks, homes: seq<Home>)

  /** `kmalloc` or `kfree` by the current process, other work of its own, and the process calls; a create first
      makes its heap calls, up to the processor state `mid`. */
  datatype WorldOp = Call(op: HeapOp) | Compute | TickNow | ExitNow | Spawn(record: nat, entry: int, mid: Cpu)

  /** The block list lies in the processor's memory, and every process has its payloads. */
  predicate WorldInv(w: World) {
    && Inv(w.sys) && w.sys.tasks != [] && Housed(w.blocks, w.sys.tasks, w.homes)
    && Lays(HeapImage(w.sys.cpu.mem), w.blocks) && Tight(w.blocks)
  }

  /** A heap call asks for an aligned size, or gives back a live payload that is no process's. */
  predicate CallLegal(w: World, op: HeapOp) {
    match op
    case Alloc(need) => need % 4 == 0
    case Release(ptr) =>
      && Legal(w.blocks, op)
      && forall i :: 0 <= i < |w.homes| ==> ptr != w.homes[i].record.0 && (i > 0 ==> ptr != w.homes[i].stack.0)
  }

  /** The heap's bytes after a call. */
  function CallMem(b: seq<byte>, bs: Blocks, op: HeapOp): (r: seq<byte>)
    requires Legal(bs, op) && Length(bs) <= |b|
    ensures |r| == |b|
  {
    match op
    case Alloc(need) => MallocMem(b, bs, need)
    case Release(ptr) => FreeMem(b, bs, BlockAt(bs, ptr))
  }

  /** The heap's bytes after the allocations of `process_create`, and the release when the second one fails. */
  function CreateMem(b: seq<byte>, bs: Blocks, record: nat): (r: seq<byte>)
    requires Length(bs) <= |b|
    ensures |r| == |b|
  {
    var i := Fit(bs, record);
    if i == |bs| then b
    else
      var r, b1 := Malloc(bs, record), MallocMem(b, bs, record);
      MallocLive(bs, record);
      if Fit(r, STACK) == |r| then
        if BlockAt(r, Start(bs, i) + HEADER) < |r| then FreeMem(b1, r, BlockAt(r, Start(bs, i) + HEADER)) else b1
      else MallocMem(b1, r, STACK)
  }

  /** One step. Heap calls change memory by the allocator's stores and nothing else; a process at work changes its
      own stack, memory outside all stacks and slots, and of the heap only live payloads. */
  ghost predicate WorldNext(w: World, op: WorldOp, v: World) {
    var b := HeapImage(w.sys.cpu.mem);
    match op
    case Call(h) =>
      && CallLegal(w, h) && v.sys == w.sys.(cpu := v.sys.cpu) && v.homes == w.homes
      && v.blocks == HeapStep(w.blocks, h)
      && (Length(w.blocks) <= HEAP_SIZE ==> HeapStored(w.sys.cpu.mem, v.sys.cpu.mem, CallMem(b, w.blocks, h)))
    case Compute =>
      && Works(w.sys, v.sys) && v == w.(sys := v.sys)
      && OnlyLive(w.sys.cpu.mem, v.sys.cpu.mem, Live(w.blocks))
    case TickNow => Ticks(w.sys, v.sys) && v == w.(sys := v.sys)
    case ExitNow => Exits(w.sys, v.sys) && v == w.(sys := v.sys)
    case Spawn(record, entry, mid) =>
      && record >= 8 && record % 4 == 0 && v.blocks == CreateBlocks(w.blocks, record).0
      && (Length(w.blocks) <= HEAP_SIZE ==> HeapStored(w.sys.cpu.mem, mid.mem, CreateMem(b, w.blocks, record)))
      && if CreateBlocks(w.blocks, record).1
         then v.sys == Created(w.sys.(cpu := mid), NewTask(w.blocks, record).0, entry)
              && v.homes == w.homes + [NewTask(w.blocks, record).1]
         else v.sys == w.sys.(cpu := mid) && v.homes == w.homes
  }

  /** The step of the system of stacks that a step of the world is. */
  function SysStepOf(w: World, op: WorldOp): SysStep {
    match op
    case Call(_) => Work
    case Compute => Work
    case TickNow => Tick
    case ExitNow => Exit
    case Spawn(record, entry, mid) =>
      if CreateBlocks(w.blocks, record).1 then Create(NewTask(w.blocks, record).0, entry, mid) else Work
  }

  /** The stores of a heap call leave every slot and every stack alone: they are payloads that stay live. */
  lemma {:induction false} StoredWorks(w: World, mid: Cpu, b: seq<byte>, live: set<(nat, nat)>)
    requires WorldInv(w) && |b| == HEAP_SIZE && HeapStored(w.sys.cpu.mem, mid.mem, b)
    requires Kept(HeapImage(w.sys.cpu.mem), b, live)
    requires forall i :: 0 <= i < |w.homes| ==> w.homes[i].record in live && (i > 0 ==> w.homes[i].stack in live)
    ensures Works(w.sys, w.sys.(cpu := mid))
  {
    hide LiveFrom, HeapImage, HeapStored, Word, Kept, Lays, Tight, Inv;
    var s, m := w.sys, w.sys.cpu.mem;
    CurrentThere(s);
    forall i, a | 0 <= i < |s.tasks| && Protected(s, i, a) ensures Word(mid.mem, a) == Word(m, a) {
      assert HomeOf(w.blocks, s.tasks, w.homes, i);
      LaysAligned(HeapImage(m), w.blocks);
      PayloadPlace(w.blocks, w.homes[i].record);
      if a == s.tasks[i].slot {
        StoredWordKept(m, mid.mem, b, live, w.homes[i].record, a);
      } else if i == 0 {
        StoredOutside(m, mid.mem, b, a);
      } else {
        PayloadPlace(w.blocks, w.homes[i].stack);
        StoredWordKept(m, mid.mem, b, live, w.homes[i].stack, a);
      }
    }
  }

  lemma {:induction false} CurrentThere(s: Sys)
    requires Inv(s)
    ensures s.sched.cur < |s.tasks|
  {
  }

  lemma {:induction false} LaysAligned(b: seq<byte>, bs: Blocks)
    requires Lays(b, bs)
    ensures Aligned(bs) && Length(bs) == HEAP_SIZE
  {
  }

  lemma {:induction false} StoredOutside(m: Memory, m': Memory, b: seq<byte>, a: int)
    requires |b| == HEAP_SIZE && HeapStored(m, m', b) && !InHeap(a)
    ensures Word(m', a) == Word(m, a)
  {
    hide U32At, Word, HeapImage;
  }

  lemma {:induction false} CoalesceAligned(bs: Blocks)
    requires Aligned(bs)
    ensures Aligned(Coalesce(bs))
    decreases |bs|
  {
    if |bs| >= 2 {
      hide Aligned;
      AlignedHead(bs);
      AlignedHead(bs[1..]);
      assert bs[1..][1..] == bs[2..];
      if bs[0].free && bs[1].free {
        var cs := [Block(bs[0].size + HEADER + bs[1].size, true)] + bs[2..];
        assert cs[1..] == bs[2..];
        AlignedHead(cs);
        CoalesceAligned(cs);
      } else {
        CoalesceAligned(bs[1..]);
        var cs := [bs[0]] + Coalesce(bs[1..]);
        assert cs[1..] == Coalesce(bs[1..]);
        AlignedHead(cs);
      }
    }
  }

  lemma {:induction false} AlignedHead(bs: Blocks)
    requires bs != []
    ensures Aligned(bs) <==> bs[0].size % 4 == 0 && Aligned(bs[1..])
  {
    assert forall i :: 0 < i < |bs| ==> bs[i] == bs[1..][i - 1];
  }

  /** More live payloads, or fewer that are no process's, leave every process at home. */
  lemma {:induction false} StillHoused(bs: Blocks, bs': Blocks, ts: seq<Task>, hs: seq<Home>)
    requires Housed(bs, ts, hs)
    requires forall i :: 0 <= i < |hs| ==> hs[i].record in Live(bs') && (i > 0 ==> hs[i].stack in Live(bs'))
    ensures Housed(bs', ts, hs)
  {
    hide LiveFrom;
    forall i | 0 <= i < |ts| ensures HomeOf(bs', ts, hs, i) {
      assert HomeOf(bs, ts, hs, i);
    }
  }

  lemma {:induction false} CallKeeps(w: World, op: HeapOp)
    requires WorldInv(w) && CallLegal(w, op)
    ensures
      var bs := HeapStep(w.blocks, op);
      Housed(bs, w.sys.tasks, w.homes) && Aligned(bs) && Length(bs) == HEAP_SIZE && Tight(bs)
  {
    hide LiveFrom, Length, Malloc, FitFrom, Coalesce, BlockAtFrom, Inv, Housed, Tight, Aligned;
    var bs, r := w.blocks, HeapStep(w.blocks, op);
    StepKeepsTiling(bs, op);
    match op
    case Alloc(need) =>
      if Fit(bs, need) < |bs| {
        MallocAligned(bs, need);
        MallocLive(bs, need);
        HomesLive(bs, w.sys.tasks, w.homes);
        StillHoused(bs, r, w.sys.tasks, w.homes);
      } else {
        MallocNothing(bs, need);
      }
    case Release(ptr) =>
      var k := BlockAt(bs, ptr);
      FreeLive(bs, k);
      FreeAligned(bs, k);
      HomesLive(bs, w.sys.tasks, w.homes);
      StillHoused(bs, r, w.sys.tasks, w.homes);
  }

  lemma {:induction false} StepKeepsTiling(bs: Blocks, op: HeapOp)
    requires Tight(bs) && Length(bs) == HEAP_SIZE && Legal(bs, op)
    ensures Tight(HeapStep(bs, op)) && Length(HeapStep(bs, op)) == HEAP_SIZE
  {
    hide HeapStep, Tight;
    assert bs != [];
    StepKeeps(bs, op);
  }

  lemma {:induction false} FreeAligned(bs: Blocks, k: nat)
    requires Aligned(bs) && k < |bs|
    ensures Aligned(Free(bs, k))
  {
    hide Coalesce;
    CoalesceAligned(bs[k := bs[k].(free := true)]);
  }

  lemma {:induction false} HomesLive(bs: Blocks, ts: seq<Task>, hs: seq<Home>)
    requires Housed(bs, ts, hs)
    ensures forall i :: 0 <= i < |hs| ==> hs[i].record in Live(bs) && (i > 0 ==> hs[i].stack in Live(bs))
  {
    hide LiveFrom;
    forall i | 0 <= i < |hs| ensures hs[i].record in Live(bs) && (i > 0 ==> hs[i].stack in Live(bs)) {
      assert HomeOf(bs, ts, hs, i);
    }
  }

  /** What a heap call does to the heap's bytes. */
  lemma {:induction false} CallMemFacts(b: seq<byte>, bs: Blocks, op: HeapOp)
    requires Lays(b, bs) && Legal(bs, op) && (op.Alloc? ==> op.need % 4 == 0)
    ensures Lays(CallMem(b, bs, op), HeapStep(bs, op))
    ensures Kept(b, CallMem(b, bs, op), Live(bs) * Live(HeapStep(bs, op)))
  {
    hide Lays, Kept, LiveFrom, Malloc, Free, MallocMem, FreeMem, BlockAtFrom;
    match op
    case Alloc(need) =>
      MallocMemFacts(b, bs, need);
      KeptFewer(b, MallocMem(b, bs, need), Live(bs), Live(bs) * Live(Malloc(bs, need)));
    case Release(ptr) =>
      var j := BlockAt(bs, ptr);
      FreeMemFacts(b, bs, j);
      KeptFewer(b, FreeMem(b, bs, j), Live(Free(bs, j)), Live(bs) * Live(Free(bs, j)));
  }

  /** What the allocations of a create do to them. */
  lemma {:induction false} CreateMemFacts(b: seq<byte>, bs: Blocks, record: nat)
    requires Lays(b, bs) && Tight(bs) && record % 4 == 0
    ensures Lays(CreateMem(b, bs, record), CreateBlocks(bs, record).0)
    ensures Kept(b, CreateMem(b, bs, record), Live(bs))
  {
    hide Lays, Kept, LiveFrom, Malloc, Free, MallocMem, FreeMem, BlockAtFrom, FitFrom, Tight, Taken, Start, Length;
    var i := Fit(bs, record);
    if i == |bs| {
      KeptSelf(b, Live(bs));
    } else {
      var r, b1 := Malloc(bs, record), MallocMem(b, bs, record);
      MallocMemFacts(b, bs, record);
      MallocLive(bs, record);
      if Fit(r, STACK) == |r| {
        var j := BlockAt(r, Start(bs, i) + HEADER);
        TakenAt(bs, record);
        MallocThenFree(bs, record);
        FreeMemFacts(b1, r, j);
        KeptBoth(b, b1, FreeMem(b1, r, j), Live(bs));
      } else {
        MallocMemFacts(b1, r, STACK);
        KeptFewer(b1, MallocMem(b1, r, STACK), Live(r), Live(bs));
        KeptBoth(b, b1, MallocMem(b1, r, STACK), Live(bs));
      }
    }
  }

  lemma {:induction false} CallIsWork(w: World, h: HeapOp, v: World)
    requires WorldInv(w) && WorldNext(w, Call(h), v)
    ensures WorldInv(v) && Works(w.sys, v.sys)
  {
    hide Inv, Housed, Tight, LiveFrom, Length, HeapImage, HeapStored, HeapStep, Lays, Kept, CallMem, BlockAtFrom;
    var b, r := HeapImage(w.sys.cpu.mem), HeapStep(w.blocks, h);
    CallMemFacts(b, w.blocks, h);
    StoredImage(w.sys.cpu.mem, v.sys.cpu.mem, CallMem(b, w.blocks, h));
    LaysAligned(b, w.blocks);
    CallKeeps(w, h);
    HomesLive(w.blocks, w.sys.tasks, w.homes);
    HomesLive(r, w.sys.tasks, w.homes);
    StoredWorks(w, v.sys.cpu, CallMem(b, w.blocks, h), Live(w.blocks) * Live(r));
    assert w.sys.(cpu := v.sys.cpu) == v.sys;
    WorkKeeps(w.sys, v.sys);
  }

  /** Stores to the words of process `i` are stores to its payloads, or outside the heap. */
  lemma {:induction false} OwnWord(w: World, i: nat, a: int)
    requires WorldInv(w) && i < |w.sys.tasks| && InHeap(a)
    requires a == w.sys.tasks[i].slot || Within(w.sys.tasks[i], a)
    ensures InPayload(Live(w.blocks), a)
  {
    hide LiveFrom, HeapImage, Lays, Tight, Inv;
    assert HomeOf(w.blocks, w.sys.tasks, w.homes, i);
    LaysAligned(HeapImage(w.sys.cpu.mem), w.blocks);
    var h := w.homes[i];
    if a == w.sys.tasks[i].slot {
      assert h.record in Live(w.blocks);
    } else if i > 0 {
      PayloadPlace(w.blocks, h.stack);
      assert h.stack in Live(w.blocks);
    }
  }

  lemma {:induction false} TickLays(w: World, v: World)
    requires WorldInv(w) && WorldNext(w, TickNow, v)
    ensures Lays(HeapImage(v.sys.cpu.mem), v.blocks) && v.sys.tasks == w.sys.tasks
  {
    hide Switch, Word, HeapImage, Lays, Tight, Housed, LiveFrom, SchedSpec.NextOf, SchedSpec.Safe;
    var s, t, c := w.sys, v.sys, w.sys.sched.cur;
    CurrentThere(s);
    if t != s {
      forall a | InHeap(a) && Word(t.cpu.mem, a) != Word(s.cpu.mem, a) ensures InPayload(Live(w.blocks), a) {
        SwitchMemory(s.cpu, a);
        OwnWord(w, c, a);
      }
      WordsInPayloads(s.cpu.mem, t.cpu.mem, Live(w.blocks));
      LiveLays(HeapImage(s.cpu.mem), HeapImage(t.cpu.mem), w.blocks);
    }
  }

  /** A create that found memory: its stores, and the first words of the new stack. */
  lemma {:induction false} SpawnKeeps(w: World, record: nat, entry: int, mid: Cpu, v: World)
    requires WorldInv(w) && WorldNext(w, Spawn(record, entry, mid), v) && CreateBlocks(w.blocks, record).1
    ensures SysNext(w.sys, SysStepOf(w, Spawn(record, entry, mid)), v.sys) && WorldInv(v)
  {
    hide Inv, Housed, Tight, Length, Malloc, FitFrom, HeapImage, HeapStored, Lays, Kept, CreateMem, LiveFrom, Creates,
         CreateBlocks, Works;
    var b, bs := HeapImage(w.sys.cpu.mem), CreateBlocks(w.blocks, record).0;
    var (task, home) := NewTask(w.blocks, record);
    CreateMemFacts(b, w.blocks, record);
    StoredImage(w.sys.cpu.mem, mid.mem, CreateMem(b, w.blocks, record));
    LaysAligned(b, w.blocks);
    HomesLive(w.blocks, w.sys.tasks, w.homes);
    StoredWorks(w, mid, CreateMem(b, w.blocks, record), Live(w.blocks));
    CreateIsStep(w.sys.(cpu := mid), w.blocks, record, w.homes, entry);
    CreateTight(w.blocks, record);
    SysKeeps(w.sys, Create(task, entry, mid), v.sys);
    SpawnLays(World(v.sys, bs, v.homes), task, mid.mem, entry);
  }

  lemma {:induction false} CreateTight(bs: Blocks, record: nat)
    requires Tight(bs) && CreateBlocks(bs, record).1
    ensures Tight(CreateBlocks(bs, record).0)
  {
    hide Tight, Malloc, FitFrom;
    MallocTight(bs, record);
    MallocTight(Malloc(bs, record), STACK);
  }

  /** The first words of the new stack, and its slot, lie in the new payloads. */
  lemma {:induction false} SpawnLays(v: World, task: Task, m: Memory, entry: int)
    requires v.sys.tasks != [] && Housed(v.blocks, v.sys.tasks, v.homes)
    requires Aligned(v.blocks) && Length(v.blocks) == HEAP_SIZE
    requires Lays(HeapImage(m), v.blocks) && task == v.sys.tasks[|v.sys.tasks| - 1] && |v.sys.tasks| > 1
    requires v.sys.cpu.mem == InitialStack(m, task.hi, entry)[task.slot := task.hi - 36]
    ensures Lays(HeapImage(v.sys.cpu.mem), v.blocks)
  {
    hide HeapImage, Lays, LiveFrom, InitialStack, Aligned, Length;
    var n, m' := |v.sys.tasks| - 1, v.sys.cpu.mem;
    assert HomeOf(v.blocks, v.sys.tasks, v.homes, n);
    PayloadPlace(v.blocks, v.homes[n].stack);
    forall a | InHeap(a) && Word(m', a) != Word(m, a) ensures InPayload(Live(v.blocks), a) {
      InitialStackAt(m, task.hi, entry, a);
      if a == task.slot {
        assert v.homes[n].record in Live(v.blocks);
      } else {
        assert v.homes[n].stack in Live(v.blocks);
      }
    }
    WordsInPayloads(m, m', Live(v.blocks));
    LiveLays(HeapImage(m), HeapImage(m'), v.blocks);
  }

  lemma {:induction false} FailedSpawn(w: World, record: nat, entry: int, mid: Cpu, v: World)
    requires WorldInv(w) && WorldNext(w, Spawn(record, entry, mid), v) && !CreateBlocks(w.blocks, record).1
    ensures Works(w.sys, v.sys) && WorldInv(v)
  {
    hide Inv, Housed, Tight, Length, HeapImage, HeapStored, Lays, Kept, CreateMem, LiveFrom, CreateBlocks, Works;
    var b := HeapImage(w.sys.cpu.mem);
    FailedCreate(w.blocks, record);
    CreateMemFacts(b, w.blocks, record);
    StoredImage(w.sys.cpu.mem, mid.mem, CreateMem(b, w.blocks, record));
    LaysAligned(b, w.blocks);
    HomesLive(w.blocks, w.sys.tasks, w.homes);
    StoredWorks(w, mid, CreateMem(b, w.blocks, record), Live(w.blocks));
    WorkKeeps(w.sys, v.sys);
  }

  lemma {:induction false} ComputeLays(w: World, v: World)
    requires WorldInv(w) && WorldNext(w, Compute, v)
    ensures Lays(HeapImage(v.sys.cpu.mem), v.blocks) && v.sys.tasks == w.sys.tasks
  {
    hide HeapImage, Lays, LiveFrom, Inv, Housed, Tight;
    LiveLays(HeapImage(w.sys.cpu.mem), HeapImage(v.sys.cpu.mem), w.blocks);
  }

  /** Every step of the world keeps its invariant and is a step of the system of stacks: the stores of the allocator
      leave stacks and slots alone, and a new stack is apart from all others because the allocator says so. */
  lemma {:induction false} WorldKeeps(w: World, op: WorldOp, v: World)
    requires WorldInv(w) && WorldNext(w, op, v)
    ensures WorldInv(v) && SysNext(w.sys, SysStepOf(w, op), v.sys)
  {
    match op {
      case Call(h) =>
        CallIsWork(w, h, v);
      case Compute =>
        hide Inv, Housed, Lays, Tight, HeapImage, OnlyLive, Works;
        ComputeLays(w, v);
        WorkKeeps(w.sys, v.sys);
      case TickNow =>
        hide Inv, Housed, Lays, Tight, HeapImage, Ticks;
        TickLays(w, v);
        TickKeeps(w.sys, v.sys);
      case ExitNow =>
        hide Inv, Housed, Lays, Tight, HeapImage;
        ExitKeeps(w.sys, v.sys);
      case Spawn(record, entry, mid) =>
        if CreateBlocks(w.blocks, record).1 {
          SpawnKeeps(w, record, entry, mid, v);
        } else {
          FailedSpawn(w, record, entry, mid, v);
        }
    }
  }

  ghost predicate WorldRun(ws: seq<World>, ops: seq<WorldOp>) {
    && |ws| == |ops| + 1
    && forall i :: 0 <= i < |ops| ==> WorldNext(ws[i], ops[i], ws[i + 1])
  }

  lemma {:induction false} WorldRunInv(ws: seq<World>, ops: seq<WorldOp>, i: nat)
    requires WorldRun(ws, ops) && WorldInv(ws[0]) && i < |ws|
    ensures WorldInv(ws[i])
    ensures i < |ops| ==> SysNext(ws[i].sys, SysStepOf(ws[i], ops[i]), ws[i + 1].sys)
  {
    hide WorldInv, WorldNext, SysNext, SysStepOf;
    if i > 0 {
      WorldRunInv(ws, ops, i - 1);
      assert WorldNext(ws[i - 1], ops[i - 1], ws[i - 1 + 1]);
      WorldKeeps(ws[i - 1], ops[i - 1], ws[i]);
    }
    if i < |ops| {
      WorldKeeps(ws[i], ops[i], ws[i + 1]);
    }
  }

  function Systems(ws: seq<World>): (ss: seq<Sys>)
    ensures |ss| == |ws| && forall i :: 0 <= i < |ws| ==> ss[i] == ws[i].sys
  {
    seq(|ws|, i requires 0 <= i < |ws| => ws[i].sys)
  }

  function SysSteps(ws: seq<World>, ops: seq<WorldOp>): (es: seq<SysStep>)
    requires |ws| == |ops| + 1
    ensures |es| == |ops| && forall i :: 0 <= i < |ops| ==> es[i] == SysStepOf(ws[i], ops[i])
  {
    seq(|ops|, i requires 0 <= i < |ops| => SysStepOf(ws[i], ops[i]))
  }

  lemma {:induction false} WorldIsSysRun(ws: seq<World>, ops: seq<WorldOp>)
    requires WorldRun(ws, ops) && WorldInv(ws[0])
    ensures SysRun(Systems(ws), SysSteps(ws, ops)) && Inv(Systems(ws)[0])
  {
    hide WorldNext, SysNext, SysStepOf, Inv, Housed, Tight, Aligned, Length, Systems, SysSteps;
    var ss, es := Systems(ws), SysSteps(ws, ops);
    forall i | 0 <= i < |es| ensures SysNext(ss[i], es[i], ss[i + 1]) {
      WorldRunInv(ws, ops, i);
    }
  }

  /** Resumption over every run that mixes heap calls, work and process calls: a process switched out at step `i`
      and next switched in at step `j` gets its context back. */
  lemma {:induction false} WorldResumes(ws: seq<World>, ops: seq<WorldOp>, i: nat, j: nat)
    requires WorldRun(ws, ops) && WorldInv(ws[0]) && i < j < |ops|
    requires ops[i] == TickNow && ws[i + 1].sys.sched.cur != ws[i].sys.sched.cur
    requires forall k :: i < k <= j ==> ws[k].sys.sched.cur != ws[i].sys.sched.cur
    requires ops[j] == TickNow && ws[j + 1].sys.sched.cur == ws[i].sys.sched.cur
    ensures ContextOf(ws[j + 1].sys.cpu) == ContextAtCall(ws[i].sys.cpu)
  {
    hide WorldNext, SysNext, Inv, Housed, Tight, Aligned, Length, Systems, SysSteps;
    WorldIsSysRun(ws, ops);
    ResumeFaithful(Systems(ws), SysSteps(ws, ops), i, j);
  }

  /** A process spawned at step `i` and first switched in at step `j` starts at its entry point, with the stack
      pointer at the top of the stack the heap gave it. */
  lemma {:induction false} WorldEnters(ws: seq<World>, ops: seq<WorldOp>, i: nat, j: nat)
    requires WorldRun(ws, ops) && WorldInv(ws[0]) && i < j < |ops|
    requires ops[i].Spawn? && CreateBlocks(ws[i].blocks, ops[i].record).1
    requires ops[j] == TickNow && ws[j + 1].sys.sched.cur == |ws[i].sys.tasks|
    requires forall k :: i < k <= j ==> ws[k].sys.sched.cur != |ws[i].sys.tasks|
    ensures ws[j + 1].sys.cpu.eip == ops[i].entry
    ensures ws[j + 1].sys.cpu.regs.esp == NewTask(ws[i].blocks, ops[i].record).0.hi
  {
    hide WorldNext, SysNext, Inv, Housed, Tight, Aligned, Length, Systems, SysSteps, CreateBlocks;
    WorldIsSysRun(ws, ops);
    NewProcessEnters(Systems(ws), SysSteps(ws, ops), i, j);
  }

  /** The world after `process_init`: the kernel process, with its record in the heap and its stack outside. */
  lemma {:induction false} BootWorld(bs: Blocks, record: nat, lo: int, hi: int, c: Cpu, x: Context)
    requires Tight(bs) && Aligned(bs) && Length(bs) == HEAP_SIZE && Fit(bs, record) < |bs|
    requires record >= 8 && record % 4 == 0 && Lays(HeapImage(c.mem), Malloc(bs, record))
    requires 0 < lo <= hi <= 0x1_0000_0000 && lo % 4 == 0 && hi % 4 == 0
    requires hi <= HEAP_START || HEAP_START + HEAP_SIZE <= lo
    ensures
      var p := NewPayload(bs, record);
      var kernel := Task(HEAP_START + p.0 + 4, lo, hi);
      Word(c.mem, kernel.slot) == 0 ==>
        WorldInv(World(Sys(SchedSpec.Boot, [kernel], c, [x]), Malloc(bs, record), [Home(p, p)]))
  {
    hide LiveFrom, Length, Malloc, FitFrom, Tight, Aligned, Inv, Layout, HeapImage, Lays;
    var p, r := NewPayload(bs, record), Malloc(bs, record);
    var kernel := Task(HEAP_START + p.0 + 4, lo, hi);
    MallocLive(bs, record);
    MallocAligned(bs, record);
    MallocTight(bs, record);
    PayloadPlace(r, p);
    assert HomeOf(r, [kernel], [Home(p, p)], 0);
    if Word(c.mem, kernel.slot) == 0 {
      BootInv(kernel, c, x);
    }
  }
}
