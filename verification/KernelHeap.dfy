/** kernel/heap.c: the allocator walking and splicing a list of headers inside its own memory, which it reads
    and writes through the page walk. */
module KernelHeap {
  import opened Bytes
  import opened Paging
  import opened WalkMemory
  import opened Vmm
  import opened HeapSpec
  import opened HeapTheorems
  import opened HeapMemory
  import opened HeapStores
  import opened HeapView

  /** 32-bit `(size + 3) & ~3`, wrap-around included (kernel/heap.c:86). */
  function AlignUp(size: u32): (r: u32)
    ensures r % 4 == 0
    ensures size <= WORD_LIMIT - 4 ==> size <= r < size + 4
    ensures size > WORD_LIMIT - 4 ==> r == 0
  {
    (size + 3) % WORD_LIMIT / 4 * 4
  }

  class Heap {
    const vm: KernelVm
    var head: u32
    ghost var blocks: Blocks

    /** The heap's pages are mapped to frames of their own. */
    ghost predicate Mapped()
      reads vm, vm.pmm, vm.pmm.bitmap
    {
      vm.Valid() && Separate(vm.State(), HeapPages)
    }

    /** The heap's bytes. */
    ghost function Mem(): (m: seq<byte>)
      requires Mapped()
      reads vm, vm.pmm, vm.pmm.bitmap
      ensures |m| == HEAP_SIZE
    {
      HeapBytes(vm.State())
    }

    /** Everything else: tables, frames, and all bytes outside the heap's frames. */
    ghost function Outside(): Rest
      requires Mapped()
      reads vm, vm.pmm, vm.pmm.bitmap
    {
      Beside(vm.State())
    }

    /** The list from `heap_head` is laid out in memory, tiles the heap and has no two free neighbours. */
    ghost predicate Valid()
      reads this, vm, vm.pmm, vm.pmm.bitmap
    {
      Mapped() && head == HEAP_START && Lays(Mem(), blocks) && Tight(blocks)
    }

    constructor (v: KernelVm)
      ensures vm == v
    {
      vm := v;
      head := 0;
      blocks := [];
    }

    // ---------- memory accesses, by address ----------

    method LoadByte(a: u32) returns (b: byte)
      requires Mapped() && HEAP_START <= a < HEAP_START + HEAP_SIZE
      ensures b == Mem()[a - HEAP_START]
    {
      hide VmOk, FrameOf, VByte, IsTable;
      assert a / 4096 in HeapPages;
      assert Owned(vm.State(), a / 4096);
      OwnedReads(vm.State(), a);
      var x := vm.LoadByte(a);
      b := x.value;
      ghost var k := a - HEAP_START;
      assert HEAP_START + k == a && HeapBytes(vm.State())[k] == ByteOf(VByte(vm.State(), HEAP_START + k));
    }

    method StoreByte(a: u32, v: byte)
      requires Mapped() && HEAP_START <= a < HEAP_START + HEAP_SIZE
      modifies vm
      ensures Mapped() && Mem() == old(Mem())[a - HEAP_START := v] && Outside() == old(Outside())
    {
      hide VmOk, FrameOf, VByte, IsTable, Separate, Owned, Beside, HeapBytes, VStore;
      assert a / 4096 in HeapPages;
      HeapStore(vm.State(), a, v);
      var ok := vm.StoreByte(a, v);
    }

    method Load32(a: u32) returns (v: u32)
      requires Mapped() && HEAP_START <= a && a + 4 <= HEAP_START + HEAP_SIZE
      ensures v == U32At(Mem(), a - HEAP_START)
    {
      hide Mapped, Mem;
      var b0 := LoadByte(a);
      var b1 := LoadByte(a + 1);
      var b2 := LoadByte(a + 2);
      var b3 := LoadByte(a + 3);
      v := U32At([b0, b1, b2, b3], 0);
    }

    method Store32(a: u32, v: u32)
      requires Mapped() && HEAP_START <= a && a + 4 <= HEAP_START + HEAP_SIZE
      modifies vm
      ensures Mapped() && Mem() == Put32(old(Mem()), a - HEAP_START, v) && Outside() == old(Outside())
    {
      hide Mapped, Mem, Outside, U32Bytes;
      var b := U32Bytes(v);
      StoreByte(a, b[0]);
      StoreByte(a + 1, b[1]);
      StoreByte(a + 2, b[2]);
      StoreByte(a + 3, b[3]);
    }

    /** The header found at block `i`. */
    method ReadHeader(a: u32, ghost i: nat) returns (size: u32, free: byte, next: u32)
      requires Mapped() && Lays(Mem(), blocks) && i < |blocks| && a == HEAP_START + Start(blocks, i)
      ensures size == blocks[i].size && (free != 0 <==> blocks[i].free) && next == NextOf(blocks, i)
    {
      hide U32At, Length, Mapped, Mem;
      assert HeaderOk(Mem(), blocks, i);
      size := Load32(a);
      free := LoadByte(a + 4);
      next := Load32(a + 8);
    }

    // ---------- operations ----------

    /** `kmalloc`: first fit, split when the rest can hold a header and 4 bytes. The bytes stored are those of
        `MallocMem`; no byte of a live payload changes, and none outside the heap. */
    method Kmalloc(size: u32) returns (ptr: u32)
      requires Valid()
      modifies this, vm
      ensures Valid() && Outside() == old(Outside())
      ensures blocks == if size == 0 then old(blocks) else Malloc(old(blocks), AlignUp(size))
      ensures Mem() == if size == 0 then old(Mem()) else MallocMem(old(Mem()), old(blocks), AlignUp(size))
      ensures
        var i := Fit(old(blocks), AlignUp(size));
        ptr == if size == 0 || i == |old(blocks)| then 0 else HEAP_START + Start(old(blocks), i) + HEADER
      ensures ptr != 0 ==>
        var j := BlockAt(blocks, ptr - HEAP_START);
        j < |blocks| && (blocks[j].size >= size <==> size <= WORD_LIMIT - 4)
      ensures Kept(old(Mem()), Mem(), Live(old(blocks)))
    {
      hide Length, Malloc, Tight, AlignUp, Lays, LiveFrom, FitFrom, Mapped, Mem, Outside, TakeMem, BlockAtFrom;
      KeptSelf(Mem(), Live(blocks));
      if size == 0 {
        return 0;
      }
      var need := AlignUp(size);
      var curr: u32 := head;
      ghost var i := 0;
      StartZero(blocks);
      while curr != 0
        invariant Valid() && blocks == old(blocks) && Mem() == old(Mem()) && Outside() == old(Outside())
        invariant 0 <= i <= |blocks|
        invariant curr == if i < |blocks| then HEAP_START + Start(blocks, i) else 0
        invariant forall j :: 0 <= j < i ==> !(blocks[j].free && blocks[j].size >= need)
        decreases |blocks| - i
      {
        StartBound(blocks, i);
        var bsize, free, next := ReadHeader(curr, i);
        if free != 0 && bsize >= need {
          assert Fit(blocks, need) == i;
          TakenHolds(blocks, size);
          Take(curr, need, bsize, next, i);
          return curr + HEADER;
        }
        curr := next;
        i := i + 1;
      }
      assert Fit(blocks, need) == |blocks|;
      MallocNothing(blocks, need);
      return 0;
    }

    /** The payload taken holds the request exactly when rounding up did not wrap. */
    lemma {:induction false} TakenHolds(bs: Blocks, size: u32)
      requires Fit(bs, AlignUp(size)) < |bs| && Length(bs) == HEAP_SIZE
      ensures
        var i, r := Fit(bs, AlignUp(size)), Malloc(bs, AlignUp(size));
        && BlockAt(r, Start(bs, i) + HEADER) == i < |r|
        && (r[i].size >= size <==> size <= WORD_LIMIT - 4)
    {
      hide Length, FitFrom, BlockAtFrom, AlignUp, HeapSpec.Taken;
      var i, need := Fit(bs, AlignUp(size)), AlignUp(size);
      TakenAt(bs, need);
      TakenSize(bs[i], need);
      StartBound(bs, i);
      assert Malloc(bs, need)[i] == HeapSpec.Taken(bs[i], need)[0];
    }

    /** On a fresh heap a request of 4 GB less one byte gets a payload of no bytes. */
    lemma {:induction false} HugeRequest()
      ensures
        var bs := [Block(HEAP_SIZE - HEADER, true)];
        Fit(bs, AlignUp(0xFFFF_FFFF)) == 0 && Malloc(bs, AlignUp(0xFFFF_FFFF))[0] == Block(0, false)
    {
      var bs := [Block(HEAP_SIZE - HEADER, true)];
      assert AlignUp(0xFFFF_FFFF) == 0;
      assert bs[..0] == [];
    }

    lemma {:induction false} StartZero(bs: Blocks)
      ensures Start(bs, 0) == 0
    {
      assert bs[..0] == [];
    }

    /** The branch that has found its block: split if worthwhile, mark as used. */
    method Take(curr: u32, need: u32, bsize: u32, next: u32, ghost i: nat)
      requires Valid() && i < |blocks| && i == Fit(blocks, need) && need % 4 == 0
      requires curr == HEAP_START + Start(blocks, i) && bsize == blocks[i].size && next == NextOf(blocks, i)
      modifies this, vm
      ensures Valid() && blocks == Malloc(old(blocks), need) && Outside() == old(Outside())
      ensures Mem() == MallocMem(old(Mem()), old(blocks), need) && Kept(old(Mem()), Mem(), Live(old(blocks)))
    {
      hide Length, Tight, Malloc, FitFrom, LiveFrom, Lays, Mapped, Mem, Outside, Put32, Start;
      StartBound(blocks, i);
      FitThere(blocks, need);
      MallocTight(blocks, need);
      MallocMemFacts(Mem(), blocks, need);
      ghost var m := Mem();
      if bsize >= need + HEADER + 4 {
        var rest := curr + HEADER + need;
        Store32(rest, bsize - need - HEADER);
        StoreByte(rest + 4, 1);
        Store32(rest + 8, next);
        Store32(curr + 8, rest);
        Store32(curr, need);
      }
      StoreByte(curr + 4, 0);
      blocks := Malloc(blocks, need);
    }

    lemma {:induction false} FitThere(bs: Blocks, need: nat)
      ensures Fit(bs, need) < |bs| ==> bs[Fit(bs, need)].free && bs[Fit(bs, need)].size >= need
    {
      hide FitFrom;
    }

    /** `kfree` of null, or of a live payload. The bytes stored are those of `FreeMem`; no byte of a payload
        that stays live changes, and none outside the heap. */
    method Kfree(ptr: u32)
      requires Valid()
      requires ptr != 0 ==> ptr >= HEAP_START && BlockAt(blocks, ptr - HEAP_START) < |blocks|
      modifies this, vm
      ensures Valid() && Outside() == old(Outside())
      ensures blocks == if ptr == 0 then old(blocks) else Free(old(blocks), BlockAt(old(blocks), ptr - HEAP_START))
      ensures Mem() == if ptr == 0 then old(Mem())
                       else FreeMem(old(Mem()), old(blocks), BlockAt(old(blocks), ptr - HEAP_START))
      ensures Kept(old(Mem()), Mem(), Live(blocks))
    {
      hide Length, Tight, Header, LiveFrom, BlockAtFrom, Coalesce, CoalesceMem, Lays, Mapped, Mem, Outside;
      KeptSelf(Mem(), Live(blocks));
      if ptr == 0 {
        return;
      }
      ghost var i := BlockAt(blocks, ptr - HEAP_START);
      ghost var m := Mem();
      FreeMemFacts(m, blocks, i);
      FreeLive(blocks, i);
      StartBound(blocks, i);
      var block := ptr - HEADER;
      LaysHeader(m, blocks, i);
      FlagPut(m, Start(blocks, i), blocks[i], NextOf(blocks, i), 1);
      MarkLays(m, m[Start(blocks, i) + 4 := 1], blocks, i, true);
      StoreByte(block + 4, 1);
      blocks := blocks[i := blocks[i].(free := true)];
      DoCoalesce();
    }

    /** `heap_coalesce`. */
    method DoCoalesce()
      requires Mapped() && head == HEAP_START && Lays(Mem(), blocks)
      modifies this, vm
      ensures Valid() && blocks == Coalesce(old(blocks)) && Outside() == old(Outside())
      ensures Mem() == CoalesceMem(old(Mem()), old(blocks), 0)
    {
      hide Length, Tight, LiveFrom, Coalesce, CoalesceMem, Lays, Mapped, Mem, Outside, Put32, Start, Joined;
      var curr := head;
      ghost var i := 0;
      ghost var goal, end := Coalesce(blocks), CoalesceMem(Mem(), blocks, 0);
      StartZero(blocks);
      CoalesceTight(blocks);
      assert blocks[0..] == blocks && blocks[..0] == [];
      while true
        invariant Mapped() && head == HEAP_START && Lays(Mem(), blocks) && Outside() == old(Outside())
        invariant 0 <= i < |blocks| && curr == HEAP_START + Start(blocks, i)
        invariant Start(blocks, i) + Length(blocks[i..]) == HEAP_SIZE
        invariant blocks[..i] + Coalesce(blocks[i..]) == goal
        invariant CoalesceMem(Mem(), blocks[i..], Start(blocks, i)) == end
        decreases |blocks| - i
      {
        ghost var m := Mem();
        var size, free, next := ReadHeader(curr, i);
        if next == 0 {
          LastBlock(m, blocks, i);
          break;
        }
        StartStep(blocks, i);
        var nsize, nfree, nnext := ReadHeader(next, i + 1);
        if free != 0 && nfree != 0 {
          MergeSize(blocks, i);
          MergeRound(m, blocks, i);
          Store32(curr, size + HEADER + nsize);
          Store32(curr + 8, nnext);
          blocks := Joined(blocks, i);
        } else {
          SkipRound(m, blocks, i);
          curr := next;
          i := i + 1;
        }
      }
    }

    /** Blocks `i` and `i + 1` joined. */
    function Joined(bs: Blocks, i: nat): (r: Blocks)
      requires i + 1 < |bs|
      ensures |r| == |bs| - 1
    {
      bs[..i] + ([Merged(bs[i], bs[i + 1])] + bs[i + 2..])
    }

    /** What a join leaves for the rest of the pass. */
    lemma {:induction false} MergeRound(m: seq<byte>, bs: Blocks, i: nat)
      requires Lays(m, bs) && i + 1 < |bs| && bs[i].free && bs[i + 1].free
      requires Start(bs, i) + Length(bs[i..]) == |m| && Start(bs, i) + HEADER <= |m|
      ensures
        var r, o := Joined(bs, i), Start(bs, i);
        var m' := Put32(Put32(m, o, bs[i].size + HEADER + bs[i + 1].size), o + 8, NextOf(bs, i + 1));
        && Lays(m', r) && Start(r, i) == o && o + Length(r[i..]) == |m|
        && r[..i] + Coalesce(r[i..]) == bs[..i] + Coalesce(bs[i..])
        && CoalesceMem(m', r[i..], o) == CoalesceMem(m, bs[i..], o)
    {
      hide Length, Coalesce, CoalesceMem, Lays, Put32, LiveFrom, Behind;
      var a, cs, r := bs[..i], bs[i..], Joined(bs, i);
      assert bs == a + cs && r[..i] == a && cs[2..] == bs[i + 2..];
      assert r[i..] == [Merged(cs[0], cs[1])] + cs[2..];
      CoalesceRound(m, cs, Start(bs, i));
      BehindNext(a, cs);
      MergeMemLays(m, a, cs);
    }

    /** What a step to the next block leaves. */
    lemma {:induction false} SkipRound(m: seq<byte>, bs: Blocks, i: nat)
      requires i + 1 < |bs| && !(bs[i].free && bs[i + 1].free) && Start(bs, i) + Length(bs[i..]) == |m|
      ensures Start(bs, i + 1) + Length(bs[i + 1..]) == |m|
      ensures bs[..i + 1] + Coalesce(bs[i + 1..]) == bs[..i] + Coalesce(bs[i..])
      ensures CoalesceMem(m, bs[i + 1..], Start(bs, i + 1)) == CoalesceMem(m, bs[i..], Start(bs, i))
    {
      hide Length, Coalesce, CoalesceMem, MergeMem;
      assert bs[i..][1..] == bs[i + 1..] && bs[..i + 1] == bs[..i] + [bs[i]];
      StartStep(bs, i);
      CoalesceRound(m, bs[i..], Start(bs, i));
    }

    lemma {:induction false} LaysHeader(m: seq<byte>, bs: Blocks, i: nat)
      requires Lays(m, bs) && i < |bs|
      ensures HeaderOk(m, bs, i)
    {
    }

    lemma {:induction false} LastBlock(m: seq<byte>, bs: Blocks, i: nat)
      requires i < |bs| && NextOf(bs, i) == 0 && Start(bs, i) + Length(bs[i..]) <= |m|
      ensures bs[..i] + Coalesce(bs[i..]) == bs && CoalesceMem(m, bs[i..], Start(bs, i)) == m
    {
      assert bs == bs[..i] + bs[i..];
    }

    /** A client may write any byte of a live payload; the list is untouched. */
    method ClientWrite(a: u32, v: byte)
      requires Valid() && a >= HEAP_START && a - HEAP_START < HEAP_SIZE && InLive(Live(blocks), a - HEAP_START)
      modifies vm
      ensures Valid() && Mem() == old(Mem())[a - HEAP_START := v] && Outside() == old(Outside())
    {
      hide Tight, LiveFrom, Length, Mapped, Mem, Outside;
      PokeKeeps(Mem(), blocks, a - HEAP_START, v);
      StoreByte(a, v);
    }
  }
}
