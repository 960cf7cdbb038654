/** Runs of the heap over flat memory, with clients writing inside their own payloads. */
module HeapRuns {
  import opened Bytes
  import opened HeapSpec
  import opened HeapTheorems
  import opened HeapMemory
  import opened HeapStores
  import opened KernelHeap

  /** Payloads are 4-aligned addresses inside the heap and keep apart from each other. */
  lemma {:induction false} PayloadFacts(m: seq<byte>, bs: Blocks, p: (nat, nat), q: (nat, nat))
    requires Lays(m, bs) && p in Live(bs) && q in Live(bs)
    ensures (HEAP_START + p.0) % 4 == 0 && p.0 + p.1 <= HEAP_SIZE
    ensures p != q ==> p.0 + p.1 <= q.0 || q.0 + q.1 <= p.0
  {
    hide LiveFrom, Length;
    var i := LiveIndex(bs, 0, p.0, p.1);
    StartAligned(bs, i);
    StartBound(bs, i);
    if p != q {
      LiveDisjoint(bs, p.0, p.1, q.0, q.1);
    }
  }

  /** Calls of `kmalloc` and `kfree`, by requested size and by payload offset, and clients' writes. */
  datatype MemOp = Ask(size: u32) | Give(ptr: nat) | Poke(offset: nat, value: byte)

  /** `kfree` is called on live payloads, and clients write inside them. */
  predicate MemLegal(m: seq<byte>, bs: Blocks, op: MemOp) {
    match op
    case Ask(_) => true
    case Give(ptr) => BlockAt(bs, ptr) < |bs|
    case Poke(k, _) => k < |m| && InLive(Live(bs), k)
  }

  /** Bytes and block list after a step. */
  function MemNext(m: seq<byte>, bs: Blocks, op: MemOp): (seq<byte>, Blocks)
    requires Length(bs) <= |m| && MemLegal(m, bs, op)
  {
    match op
    case Ask(size) =>
      if size == 0 then (m, bs) else (MallocMem(m, bs, AlignUp(size)), Malloc(bs, AlignUp(size)))
    case Give(ptr) => (FreeMem(m, bs, BlockAt(bs, ptr)), Free(bs, BlockAt(bs, ptr)))
    case Poke(k, v) => (m[k := v], bs)
  }

  /** The allocator makes exactly these steps. */
  method Perform(h: Heap, op: MemOp)
    requires h.Valid() && MemLegal(h.Mem(), h.blocks, op) && (op.Give? ==> HEAP_START + op.ptr < WORD_LIMIT)
    modifies h, h.vm
    ensures h.Valid() && (h.Mem(), h.blocks) == MemNext(old(h.Mem()), old(h.blocks), op)
    ensures h.Outside() == old(h.Outside())
  {
    hide MallocMem, FreeMem, Malloc, Free, AlignUp, Live, Length, BlockAtFrom;
    match op
    case Ask(size) => var p := h.Kmalloc(size);
    case Give(ptr) => h.Kfree(HEAP_START + ptr);
    case Poke(k, v) => h.ClientWrite(HEAP_START + k, v);
  }

  predicate MemRun(ms: seq<seq<byte>>, bss: seq<Blocks>, ops: seq<MemOp>) {
    && |ms| == |bss| == |ops| + 1
    && forall i :: 0 <= i < |ops| ==>
         && MemLegal(ms[i], bss[i], ops[i])
         && (Length(bss[i]) <= |ms[i]| ==> (ms[i + 1], bss[i + 1]) == MemNext(ms[i], bss[i], ops[i]))
  }

  /** Every step leaves a list that tiles the heap in memory, with no two free neighbours, and keeps the bytes
      of every payload live before and after that its owner does not write. */
  lemma {:induction false} MemStepKeeps(m: seq<byte>, bs: Blocks, op: MemOp)
    requires Lays(m, bs) && Tight(bs) && MemLegal(m, bs, op)
    ensures
      var (m', bs') := MemNext(m, bs, op);
      && Lays(m', bs') && Tight(bs')
      && |m'| == |m|
      && forall k :: 0 <= k < |m| && InLive(Live(bs) * Live(bs'), k) && !(op.Poke? && op.offset == k) ==> m'[k] == m[k]
  {
    hide Lays, Tight, Live, Malloc, Free, MallocMem, FreeMem, AlignUp, BlockAtFrom, InLive;
    var (m', bs') := MemNext(m, bs, op);
    match op
    case Ask(size) =>
      if size != 0 {
        MallocMemFacts(m, bs, AlignUp(size));
        MallocTight(bs, AlignUp(size));
        KeptFewer(m, m', Live(bs), Live(bs) * Live(bs'));
      }
    case Give(ptr) =>
      FreeMemFacts(m, bs, BlockAt(bs, ptr));
      FreeLive(bs, BlockAt(bs, ptr));
      KeptFewer(m, m', Live(bs'), Live(bs) * Live(bs'));
    case Poke(k, v) => PokeKeeps(m, bs, k, v);
  }

  /** In every reachable state the list tiles the heap in memory, with no two free neighbours. */
  lemma {:induction false} MemRunValid(ms: seq<seq<byte>>, bss: seq<Blocks>, ops: seq<MemOp>, i: nat)
    requires MemRun(ms, bss, ops) && Lays(ms[0], bss[0]) && Tight(bss[0]) && i < |ms|
    ensures Lays(ms[i], bss[i]) && Tight(bss[i])
  {
    hide Lays, Tight, MemNext;
    if i > 0 {
      var j := i - 1;
      MemRunValid(ms, bss, ops, j);
      assert (ms[j + 1], bss[j + 1]) == MemNext(ms[j], bss[j], ops[j]);
      MemStepKeeps(ms[j], bss[j], ops[j]);
    }
  }

  /** Over every stretch of a run in which a payload stays live and its owner writes nothing, none of its
      bytes changes, whatever else is allocated, freed or written. */
  lemma {:induction false} PayloadSurvives(ms: seq<seq<byte>>, bss: seq<Blocks>, ops: seq<MemOp>,
                                           i: nat, j: nat, p: (nat, nat))
    requires MemRun(ms, bss, ops) && Lays(ms[0], bss[0]) && Tight(bss[0])
    requires i <= j < |ms|
    requires forall t :: i <= t <= j ==> p in Live(bss[t])
    requires forall t :: i <= t < j && ops[t].Poke? ==> !(p.0 <= ops[t].offset < p.0 + p.1)
    ensures p.0 + p.1 <= |ms[i]| && |ms[j]| == |ms[i]| && ms[j][p.0..p.0 + p.1] == ms[i][p.0..p.0 + p.1]
    decreases j
  {
    hide Lays, Tight, Live, MemNext;
    MemRunValid(ms, bss, ops, i);
    PayloadFacts(ms[i], bss[i], p, p);
    if i < j {
      var k := j - 1;
      PayloadSurvives(ms, bss, ops, i, k, p);
      MemRunValid(ms, bss, ops, k);
      assert (ms[k + 1], bss[k + 1]) == MemNext(ms[k], bss[k], ops[k]);
      MemStepKeeps(ms[k], bss[k], ops[k]);
      forall x | p.0 <= x < p.0 + p.1 ensures ms[j][x] == ms[k][x] {
        assert p in Live(bss[k]) * Live(bss[j]);
        assert InLive(Live(bss[k]) * Live(bss[j]), x);
      }
    }
  }
}
