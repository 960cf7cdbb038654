/** What `kmalloc` and `kfree` guarantee over every run, on the block sequence. */
module HeapTheorems {
  import opened HeapSpec

  // ---------- kmalloc ----------

  lemma {:induction false} MallocTight(bs: Blocks, need: nat)
    requires Tight(bs)
    ensures Tight(Malloc(bs, need))
  {
    hide FitFrom;
    var i := Fit(bs, need);
    if i < |bs| {
      var k := Taken(bs[i], need);
      var r := Malloc(bs, need);
      forall j | 0 <= j < |r| - 1 ensures !BothFree(r, j) {
        if j < i - 1 {
          assert !BothFree(bs, j);
        } else if j >= i + |k| {
          assert !BothFree(bs, j - |k| + 1);
        } else if j == i - 1 || j == i {
          assert !r[i].free;
        } else {
          assert !BothFree(bs, i);
        }
      }
    }
  }

  lemma {:induction false} MallocNothing(bs: Blocks, need: nat)
    requires Fit(bs, need) == |bs|
    ensures Malloc(bs, need) == bs
  {
  }

  lemma {:induction false} TakenLive(b: Block, need: nat, at: nat)
    requires b.free && b.size >= need
    ensures LiveFrom(Taken(b, need), at) == {(at + HEADER, Taken(b, need)[0].size)}
  {
    var r := Taken(b, need);
    if |r| == 2 {
      assert r[1..] == [r[1]] && r[1..][1..] == [];
      assert LiveFrom([r[1]], at + HEADER + need) == {} + LiveFrom([], at + HEADER + need + HEADER + r[1].size);
    } else {
      assert r[1..] == [];
    }
  }

  /** A successful `kmalloc` adds one live payload, as large as asked, and disturbs no other. What the found block
      has left over stays free when it can hold a header and 4 bytes, and goes with the payload otherwise. */
  lemma {:induction false} MallocLive(bs: Blocks, need: nat)
    requires Fit(bs, need) < |bs|
    ensures
      var i := Fit(bs, need);
      var p := (Start(bs, i) + HEADER, Taken(bs[i], need)[0].size);
      && Live(Malloc(bs, need)) == Live(bs) + {p}
      && p !in Live(bs) && p.1 >= need
      && p.1 == (if bs[i].size - need >= 16 then need else bs[i].size)
      && Length(Malloc(bs, need)) == Length(bs)
      && (forall q :: q in Live(bs) ==> q.0 + q.1 <= p.0 - HEADER || p.0 + p.1 <= q.0 - HEADER)
  {
    hide FitFrom, LiveFrom, Length, Taken;
    var i := Fit(bs, need);
    var a, c, k := bs[..i], bs[i + 1..], Taken(bs[i], need);
    assert bs == a + [bs[i]] + c;
    ThreeParts(a, [bs[i]], c);
    ThreeParts(a, k, c);
    TakenLive(bs[i], need, Length(a));
    FreeBlockLive(bs[i], Length(a));
    TakenSize(bs[i], need);
    MallocApart(bs, i, k[0].size);
  }

  /** A list in three parts. */
  lemma {:induction false} ThreeParts(a: Blocks, k: Blocks, c: Blocks)
    ensures Live(a + k + c) == LiveFrom(a, 0) + LiveFrom(k, Length(a)) + LiveFrom(c, Length(a) + Length(k))
    ensures Length(a + k + c) == Length(a) + Length(k) + Length(c)
  {
    hide LiveFrom, Length;
    LiveConcat(a + k, c, 0);
    LiveConcat(a, k, 0);
    LengthConcat(a, k);
    LengthConcat(a + k, c);
  }

  lemma {:induction false} TakenSize(b: Block, need: nat)
    requires b.free && b.size >= need
    ensures Taken(b, need) != [] && need <= Taken(b, need)[0].size <= b.size && !Taken(b, need)[0].free
    ensures Taken(b, need)[0].size == if b.size - need >= 16 then need else b.size
  {
  }

  /** No live payload overlaps the front of a free block. */
  lemma {:induction false} MallocApart(bs: Blocks, i: nat, n: nat)
    requires i < |bs| && bs[i].free && n <= bs[i].size
    ensures (Start(bs, i) + HEADER, n) !in Live(bs)
    ensures forall q :: q in Live(bs) ==>
      q.0 + q.1 <= Start(bs, i) || Start(bs, i) + HEADER + n <= q.0 - HEADER
  {
    hide LiveFrom, Length;
    forall q | q in Live(bs)
      ensures q.0 + q.1 <= Start(bs, i) || Start(bs, i) + HEADER + n <= q.0 - HEADER
    {
      var j := LiveIndex(bs, 0, q.0, q.1);
      if j < i {
        StartOrder(bs, j, i);
      } else {
        StartOrder(bs, i, j);
      }
    }
    var p := (Start(bs, i) + HEADER, n);
    if p in Live(bs) {
      assert false;
    }
  }

  lemma {:induction false} FreeBlockLive(b: Block, at: nat)
    requires b.free
    ensures LiveFrom([b], at) == {}
  {
    assert [b][1..] == [];
  }

  // ---------- kfree ----------

  /** `kfree` takes exactly its own payload out of the live ones and leaves no two free neighbours. */
  lemma {:induction false} FreeLive(bs: Blocks, i: nat)
    requires i < |bs| && !bs[i].free
    ensures Live(Free(bs, i)) == Live(bs) - {(Start(bs, i) + HEADER, bs[i].size)}
    ensures Length(Free(bs, i)) == Length(bs)
    ensures Tight(Free(bs, i))
  {
    hide LiveFrom, Length, Coalesce;
    var f := bs[i].(free := true);
    var a, c := bs[..i], bs[i + 1..];
    var p := (Start(bs, i) + HEADER, bs[i].size);
    var u := bs[i := f];
    assert bs == a + [bs[i]] + c && u == a + [f] + c;
    ThreeParts(a, [bs[i]], c);
    ThreeParts(a, [f], c);
    LengthOne(bs[i]);
    LengthOne(f);
    FreeBlockLive(f, Length(a));
    UsedBlockLive(bs[i], Length(a));
    OutsideParts(a, c, p, Length(a) + HEADER + bs[i].size);
    assert Live(u) == Live(bs) - {p};
    CoalesceKeeps(u, 0);
    CoalesceTight(u);
  }

  lemma {:induction false} OutsideParts(a: Blocks, c: Blocks, p: (nat, nat), e: nat)
    requires p.0 == Length(a) + HEADER && p.0 + p.1 == e
    ensures p !in LiveFrom(a, 0) && p !in LiveFrom(c, e)
  {
    hide LiveFrom, Length;
    if p in LiveFrom(a, 0) {
      LiveRange(a, 0, p.0, p.1);
      assert false;
    }
    if p in LiveFrom(c, e) {
      LiveRange(c, e, p.0, p.1);
      assert false;
    }
  }

  lemma {:induction false} UsedBlockLive(b: Block, at: nat)
    requires !b.free
    ensures LiveFrom([b], at) == {(at + HEADER, b.size)}
  {
    assert [b][1..] == [];
  }

  // ---------- undo ----------

  lemma {:induction false} CoalescePrefix(a: Blocks, b: Blocks)
    requires Tight(a) && (a != [] && b != [] ==> !(a[|a| - 1].free && b[0].free))
    requires b != []
    ensures Coalesce(a + b) == a + Coalesce(b)
    decreases |a|
  {
    if a == [] {
      assert a + b == b;
    } else {
      var s := a + b;
      assert s[1..] == a[1..] + b;
      assert s[0].free ==> !s[1].free by {
        if |a| > 1 {
          assert !BothFree(a, 0);
        }
      }
      TightPart(a, 1, |a|);
      assert a[1..] == a[1..|a|];
      CoalescePrefix(a[1..], b);
      assert a + Coalesce(b) == [a[0]] + (a[1..] + Coalesce(b));
    }
  }

  /** Freeing what `kmalloc` has just returned restores the block list. */
  lemma {:induction false} MallocThenFree(bs: Blocks, need: nat)
    requires Tight(bs) && Fit(bs, need) < |bs|
    ensures var i := Fit(bs, need);
            i < |Malloc(bs, need)| && !Malloc(bs, need)[i].free && Free(Malloc(bs, need), i) == bs
  {
    hide FitFrom, Coalesce, Length;
    var i := Fit(bs, need);
    var a, c, k := bs[..i], bs[i + 1..], Taken(bs[i], need);
    var m := Malloc(bs, need);
    assert m[i] == k[0];
    var u := m[i := m[i].(free := true)];
    if |k| == 1 {
      assert u == bs;
      TightFixed(bs);
    } else {
      var v := [k[0].(free := true), k[1]] + c;
      assert u == a + v;
      SplitRejoins(bs, i, v[0].size, v[1].size);
    }
  }

  /** The neighbours of a free block in a tight list are in use. */
  lemma {:induction false} TightNeighbours(bs: Blocks, i: nat)
    requires Tight(bs) && i < |bs| && bs[i].free
    ensures i > 0 ==> !bs[i - 1].free
    ensures i + 1 < |bs| ==> !bs[i + 1].free
  {
    if i > 0 {
      var j := i - 1;
      assert !BothFree(bs, j);
    }
    if i + 1 < |bs| {
      assert !BothFree(bs, i);
    }
  }

  lemma {:induction false} MergeStep(x: nat, y: nat, c: Blocks)
    ensures Coalesce([Block(x, true), Block(y, true)] + c) == Coalesce([Block(x + HEADER + y, true)] + c)
  {
    assert ([Block(x, true), Block(y, true)] + c)[2..] == c;
  }

  /** Coalescing undoes the split of one free block of a tight list. */
  lemma {:induction false} SplitRejoins(bs: Blocks, i: nat, x: nat, y: nat)
    requires Tight(bs) && i < |bs| && bs[i].free && bs[i].size == x + HEADER + y
    ensures Coalesce(bs[..i] + ([Block(x, true), Block(y, true)] + bs[i + 1..])) == bs
  {
    hide Coalesce, Tight;
    var a, c := bs[..i], bs[i + 1..];
    TightPart(bs, 0, i);
    assert a == bs[0..i];
    TightNeighbours(bs, i);
    CoalescePrefix(a, [Block(x, true), Block(y, true)] + c);
    MergeStep(x, y, c);
    TightPart(bs, i, |bs|);
    CutAt(bs, i);
    TightFixed(bs[i..|bs|]);
  }

  lemma {:induction false} CutAt(bs: Blocks, i: nat)
    requires i < |bs|
    ensures [bs[i]] + bs[i + 1..] == bs[i..|bs|] && bs[..i] + bs[i..|bs|] == bs
  {
  }

  // ---------- gaps ----------

  /** The bytes from `lo` to `hi` touch no live allocation, headers included. */
  predicate Clear(live: set<(nat, nat)>, lo: nat, hi: nat) {
    forall p :: p in live ==> hi <= p.0 - HEADER || p.0 + p.1 <= lo
  }

  /** Every stretch of memory clear of live allocations lies inside a single free block. */
  lemma {:induction false} GapIsOneBlock(bs: Blocks, at: nat, lo: nat, hi: nat) returns (i: nat)
    requires Tight(bs) && at <= lo < hi <= at + Length(bs)
    requires Clear(LiveFrom(bs, at), lo, hi)
    ensures i < |bs| && bs[i].free && at + Start(bs, i) <= lo && hi <= at + Start(bs, i) + HEADER + bs[i].size
    decreases |bs|
  {
    var e := at + HEADER + bs[0].size;
    if bs[0].free && hi <= e {
      i := 0;
      assert bs[..0] == [];
    } else {
      if bs[0].free {
        assert bs[1..] != [];
        assert !BothFree(bs, 0);
        assert (e + HEADER, bs[1].size) in LiveFrom(bs[1..], e);
      } else {
        assert (at + HEADER, bs[0].size) in LiveFrom(bs, at);
      }
      TightPart(bs, 1, |bs|);
      assert bs[1..] == bs[1..|bs|];
      var k := GapIsOneBlock(bs[1..], e, lo, hi);
      i := k + 1;
      assert bs[..i][1..] == bs[1..][..k] && bs[..i][0] == bs[0];
    }
  }

  lemma {:induction false} FreeBlockIsClear(bs: Blocks, i: nat)
    requires i < |bs| && bs[i].free
    ensures Clear(Live(bs), Start(bs, i), Start(bs, i) + HEADER + bs[i].size)
    ensures Start(bs, i) + HEADER + bs[i].size <= Length(bs)
  {
    forall p | p in Live(bs)
      ensures Start(bs, i) + HEADER + bs[i].size <= p.0 - HEADER || p.0 + p.1 <= Start(bs, i)
    {
      var j := LiveIndex(bs, 0, p.0, p.1);
      if i < j {
        StartOrder(bs, i, j);
      } else {
        StartOrder(bs, j, i);
      }
    }
    StartOrder(bs, i, |bs|);
    assert bs[..|bs|] == bs;
  }

  /** A header and `need` bytes fit at `lo` without touching a live allocation. */
  predicate Holds(bs: Blocks, lo: nat, need: nat) {
    lo + HEADER + need <= Length(bs) && Clear(Live(bs), lo, lo + HEADER + need)
  }

  /** `kmalloc` finds nothing exactly when no stretch of the heap clear of live allocations can hold a
      header and the request; otherwise what it returns is the lowest such stretch. */
  lemma {:induction false} MallocComplete(bs: Blocks, need: nat)
    requires Tight(bs)
    ensures Fit(bs, need) < |bs| <==> exists lo: nat :: Holds(bs, lo, need)
    ensures Fit(bs, need) < |bs| ==> Holds(bs, Start(bs, Fit(bs, need)), need)
    ensures Fit(bs, need) < |bs| ==> forall lo: nat :: Holds(bs, lo, need) ==> Start(bs, Fit(bs, need)) <= lo
  {
    hide FitFrom, Clear, Length, LiveFrom;
    var i := Fit(bs, need);
    forall lo: nat | Holds(bs, lo, need)
      ensures i < |bs| && Start(bs, i) <= lo
    {
      var j := GapIsOneBlock(bs, 0, lo, lo + HEADER + need);
      assert i <= j;
      if i < j {
        StartOrder(bs, i, j);
      }
    }
    if i < |bs| {
      FreeBlockIsClear(bs, i);
      ClearWithin(Live(bs), Start(bs, i), Start(bs, i) + HEADER + bs[i].size, Start(bs, i) + HEADER + need);
      assert Holds(bs, Start(bs, i), need);
    }
  }

  lemma {:induction false} ClearWithin(live: set<(nat, nat)>, lo: nat, hi: nat, hi': nat)
    requires Clear(live, lo, hi) && hi' <= hi
    ensures Clear(live, lo, hi')
  {
  }

  /** Without live allocations a tight heap is one free block. */
  lemma {:induction false} NothingLive(bs: Blocks)
    requires Tight(bs) && bs != [] && Live(bs) == {}
    ensures bs == [Block(Length(bs) - HEADER, true)]
  {
    forall i | 0 <= i < |bs| ensures bs[i].free {
      if !bs[i].free {
        IndexLive(bs, i);
        assert false;
      }
    }
    if |bs| > 1 {
      TightNeighbours(bs, 0);
      assert false;
    }
    LengthOne(bs[0]);
  }

  // ---------- runs ----------

  /** Requests by aligned size, releases by the payload offset handed out. */
  datatype HeapOp = Alloc(need: nat) | Release(ptr: nat)

  /** The block whose payload is at offset `p`, or |bs|. */
  function BlockAt(bs: Blocks, p: nat): (i: nat)
    ensures i <= |bs|
    ensures i < |bs| ==> !bs[i].free && Start(bs, i) + HEADER == p
    ensures i == |bs| ==> forall j :: 0 <= j < |bs| && !bs[j].free ==> Start(bs, j) + HEADER != p
  {
    BlockAtFrom(bs, p, 0)
  }

  function BlockAtFrom(bs: Blocks, p: nat, i: nat): (r: nat)
    requires i <= |bs|
    ensures i <= r <= |bs|
    ensures r < |bs| ==> !bs[r].free && Start(bs, r) + HEADER == p
    ensures r == |bs| ==> forall j :: i <= j < |bs| && !bs[j].free ==> Start(bs, j) + HEADER != p
    decreases |bs| - i
  {
    if i == |bs| || (!bs[i].free && Start(bs, i) + HEADER == p) then i else BlockAtFrom(bs, p, i + 1)
  }

  /** The pointer `kmalloc` returned names the block it took. */
  lemma {:induction false} TakenAt(bs: Blocks, need: nat)
    requires Fit(bs, need) < |bs|
    ensures BlockAt(Malloc(bs, need), Start(bs, Fit(bs, need)) + HEADER) == Fit(bs, need)
  {
    hide Length, FitFrom, BlockAtFrom;
    var i := Fit(bs, need);
    var r := Malloc(bs, need);
    assert r[i] == Taken(bs[i], need)[0];
    assert r[..i] == bs[..i];
    var j := BlockAt(r, Start(bs, i) + HEADER);
    assert Start(r, i) == Start(bs, i);
    if j < i {
      StartOrder(r, j, i);
    } else if i < j < |r| {
      StartOrder(r, i, j);
    }
  }

  /** A release must name a live payload. */
  predicate Legal(bs: Blocks, op: HeapOp) {
    op.Release? ==> BlockAt(bs, op.ptr) < |bs|
  }

  function HeapStep(bs: Blocks, op: HeapOp): Blocks
    requires Legal(bs, op)
  {
    match op
    case Alloc(need) => Malloc(bs, need)
    case Release(ptr) => Free(bs, BlockAt(bs, ptr))
  }

  /** Every state of a run, first to last. */
  predicate HeapRun(states: seq<Blocks>, ops: seq<HeapOp>) {
    && |states| == |ops| + 1
    && forall i :: 0 <= i < |ops| ==> Legal(states[i], ops[i]) && states[i + 1] == HeapStep(states[i], ops[i])
  }

  lemma {:induction false} StepKeeps(bs: Blocks, op: HeapOp)
    requires Tight(bs) && bs != [] && Legal(bs, op)
    ensures Tight(HeapStep(bs, op)) && HeapStep(bs, op) != [] && Length(HeapStep(bs, op)) == Length(bs)
  {
    match op
    case Alloc(need) =>
      MallocTight(bs, need);
      if Fit(bs, need) < |bs| {
        MallocLive(bs, need);
      }
    case Release(ptr) =>
      FreeLive(bs, BlockAt(bs, ptr));
  }

  /** In every state of every run the blocks tile the heap and no two neighbours are free; and once
      nothing is live the heap is the single block it started as. */
  lemma {:induction false} RunKeeps(states: seq<Blocks>, ops: seq<HeapOp>, i: nat)
    requires HeapRun(states, ops) && i < |states|
    requires Tight(states[0]) && states[0] != []
    ensures Tight(states[i]) && states[i] != [] && Length(states[i]) == Length(states[0])
    ensures Live(states[i]) == {} ==> states[i] == [Block(Length(states[0]) - HEADER, true)]
  {
    if i > 0 {
      RunKeeps(states, ops, i - 1);
      StepKeeps(states[i - 1], ops[i - 1]);
      assert states[i - 1 + 1] == HeapStep(states[i - 1], ops[i - 1]);
    }
    if Live(states[i]) == {} {
      NothingLive(states[i]);
    }
  }

  /** The pointers of all live payloads. */
  function Pointers(bs: Blocks): set<nat> { set p | p in Live(bs) :: p.0 }

  function ReleaseAll(bs: Blocks, ptrs: seq<nat>): Blocks
    decreases |ptrs|
  {
    if ptrs == [] || BlockAt(bs, ptrs[0]) == |bs| then bs
    else ReleaseAll(Free(bs, BlockAt(bs, ptrs[0])), ptrs[1..])
  }

  /** Freeing all live blocks, in any order, restores the single initial block. */
  lemma {:induction false} FreeAllAnyOrder(bs: Blocks, ptrs: seq<nat>)
    requires Tight(bs) && bs != []
    requires Pointers(bs) == set p | p in ptrs
    requires forall i, j :: 0 <= i < j < |ptrs| ==> ptrs[i] != ptrs[j]
    ensures ReleaseAll(bs, ptrs) == [Block(Length(bs) - HEADER, true)]
    decreases |ptrs|
  {
    if ptrs == [] {
      assert forall p :: p in Live(bs) ==> p.0 in Pointers(bs);
      assert Live(bs) == {};
      NothingLive(bs);
    } else {
      var p := ptrs[0];
      assert p in Pointers(bs);
      var q :| q in Live(bs) && q.0 == p;
      var k := LiveIndex(bs, 0, q.0, q.1);
      var i := BlockAt(bs, p);
      FreeLive(bs, i);
      PointersAfterFree(bs, i);
      var r := Free(bs, i);
      assert Pointers(r) == set x | x in ptrs[1..] by {
        assert ptrs == [p] + ptrs[1..];
      }
      FreeAllAnyOrder(r, ptrs[1..]);
    }
  }

  lemma {:induction false} PointersAfterFree(bs: Blocks, i: nat)
    requires i < |bs| && !bs[i].free
    ensures Pointers(Free(bs, i)) == Pointers(bs) - {Start(bs, i) + HEADER}
  {
    hide Free, Live;
    FreeLive(bs, i);
    var g := (Start(bs, i) + HEADER, bs[i].size);
    IndexLive(bs, i);
    forall q | q in Live(bs) && q != g ensures q.0 != g.0 {
      LiveDisjoint(bs, q.0, q.1, g.0, g.1);
    }
    forall x | x in Pointers(bs) - {g.0} ensures x in Pointers(Free(bs, i)) {
      var q :| q in Live(bs) && q.0 == x;
      assert q in Live(Free(bs, i));
    }
  }
}
