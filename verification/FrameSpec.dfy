/** Physical frames as a set, and the runs of the frame allocator (kernel/pmm.c). */
module FrameSpec {

  const PAGE_SIZE := 4096
  const MAX_PAGES := 32768

  /** The frames below `total` that are in use. */
  datatype Frames = Frames(total: nat, used: set<nat>)

  predicate Ok(f: Frames) {
    0 < f.total <= MAX_PAGES && 0 in f.used && forall i :: i in f.used ==> i < f.total
  }

  /** The lowest free frame at or above `i`, or `total`. */
  function FreeFrom(f: Frames, i: nat): (r: nat)
    requires i <= f.total
    ensures i <= r <= f.total
    ensures r < f.total ==> r !in f.used
    ensures forall j :: i <= j < r ==> j in f.used
    decreases f.total - i
  {
    if i == f.total || i !in f.used then i else FreeFrom(f, i + 1)
  }

  function Lowest(f: Frames): (r: nat)
    ensures r <= f.total
  {
    FreeFrom(f, 0)
  }

  /** `pmm_alloc`: the address of the lowest free frame, now in use, or 0. */
  function Alloc(f: Frames): Frames {
    if Lowest(f) == f.total then f else f.(used := f.used + {Lowest(f)})
  }

  function Address(f: Frames): nat {
    if Lowest(f) == f.total then 0 else Lowest(f) * PAGE_SIZE
  }

  function Release(f: Frames, page: nat): Frames { f.(used := f.used - {page}) }

  function FreeCount(f: Frames): int { f.total - |f.used| }

  lemma {:induction false} AllOfThem(s: set<nat>, n: nat)
    requires forall i :: i in s <==> 0 <= i < n
    ensures |s| == n
    decreases n
  {
    if n == 0 {
      assert s == {};
    } else {
      AllOfThem(s - {n - 1}, n - 1);
    }
  }

  lemma {:induction false} SomeOfThem(s: set<nat>, n: nat)
    requires forall i :: i in s ==> 0 <= i < n
    ensures |s| <= n
    decreases n
  {
    if n == 0 {
      assert s == {};
    } else {
      SomeOfThem(s - {n - 1}, n - 1);
      assert s <= (s - {n - 1}) + {n - 1};
    }
  }

  /** The result is 0 exactly when no frame is free; otherwise it is a free frame, never frame 0. */
  lemma {:induction false} AllocFacts(f: Frames)
    requires Ok(f)
    ensures Address(f) == 0 <==> FreeCount(f) == 0
    ensures Address(f) != 0 ==> Address(f) % PAGE_SIZE == 0 && Address(f) / PAGE_SIZE < f.total
                                && Address(f) / PAGE_SIZE !in f.used
                                && Alloc(f).used == f.used + {Address(f) / PAGE_SIZE}
    ensures Ok(Alloc(f))
    ensures FreeCount(Alloc(f)) == if Address(f) == 0 then 0 else FreeCount(f) - 1
    ensures FreeCount(f) >= 0
  {
    hide FreeFrom;
    SomeOfThem(f.used, f.total);
    if Lowest(f) == f.total {
      AllOfThem(f.used, f.total);
    } else {
      var a := Lowest(f);
      assert a != 0;
      SomeOfThem(f.used + {a}, f.total);
    }
  }

  /** `pmm_free` of a frame in use: it is free again, nothing else changes, and there is one more to hand out. */
  lemma {:induction false} ReleaseFacts(f: Frames, page: nat)
    requires Ok(f) && page in f.used && page != 0
    ensures
      var r := Release(f, page);
      && Ok(r) && r.total == f.total && page !in r.used && FreeCount(r) == FreeCount(f) + 1
      && (forall q :: q != page ==> (q in r.used <==> q in f.used))
      && Address(r) != 0
  {
    hide FreeFrom;
    var r := Release(f, page);
    assert r.used + {page} == f.used;
    AllocFacts(f);
    AllocFacts(r);
  }

  /** Giving back what was just taken restores the state; taking again then gives the same frame. */
  lemma {:induction false} TakeAndGive(f: Frames)
    requires Ok(f) && Address(f) != 0
    ensures Release(Alloc(f), Address(f) / PAGE_SIZE) == f
  {
    hide FreeFrom;
    AllocFacts(f);
    var a := Address(f) / PAGE_SIZE;
    assert f.used + {a} - {a} == f.used;
  }

  // ---------- runs ----------

  datatype FrameOp = Take | Give(page: nat)

  /** Only a frame in use may be given back, and never frame 0. */
  predicate Legal(f: Frames, op: FrameOp) { op.Give? ==> op.page in f.used && op.page != 0 }

  function Next(f: Frames, op: FrameOp): Frames {
    if op.Take? then Alloc(f) else Release(f, op.page)
  }

  predicate RunOf(fs: seq<Frames>, ops: seq<FrameOp>) {
    && |fs| == |ops| + 1
    && forall i :: 0 <= i < |ops| ==> Legal(fs[i], ops[i]) && fs[i + 1] == Next(fs[i], ops[i])
  }

  lemma {:induction false} RunOk(fs: seq<Frames>, ops: seq<FrameOp>, i: nat)
    requires RunOf(fs, ops) && Ok(fs[0]) && i < |fs|
    ensures Ok(fs[i]) && fs[i].total == fs[0].total
  {
    hide FreeFrom;
    if i > 0 {
      RunOk(fs, ops, i - 1);
      assert fs[i - 1 + 1] == Next(fs[i - 1], ops[i - 1]);
      AllocFacts(fs[i - 1]);
    }
  }

  /** Frames taken with success, and given back, over a run. */
  function TakenCount(fs: seq<Frames>, ops: seq<FrameOp>, n: nat): nat
    requires |fs| == |ops| + 1 && n <= |ops|
  {
    if n == 0 then 0
    else TakenCount(fs, ops, n - 1) + if ops[n - 1] == Take && Address(fs[n - 1]) != 0 then 1 else 0
  }

  function GivenCount(ops: seq<FrameOp>, n: nat): nat
    requires n <= |ops|
  {
    if n == 0 then 0 else GivenCount(ops, n - 1) + if ops[n - 1].Give? then 1 else 0
  }

  /** Conservation: over every run the free frames are those there were, less those taken, plus those given. */
  lemma {:induction false} FramesConserved(fs: seq<Frames>, ops: seq<FrameOp>, n: nat)
    requires RunOf(fs, ops) && Ok(fs[0]) && n <= |ops|
    ensures FreeCount(fs[n]) == FreeCount(fs[0]) - TakenCount(fs, ops, n) + GivenCount(ops, n)
  {
    hide FreeFrom, FreeCount;
    if n > 0 {
      FramesConserved(fs, ops, n - 1);
      RunOk(fs, ops, n - 1);
      assert fs[n - 1 + 1] == Next(fs[n - 1], ops[n - 1]);
      AllocFacts(fs[n - 1]);
      if ops[n - 1].Give? {
        ReleaseFacts(fs[n - 1], ops[n - 1].page);
      }
    }
  }

  /** A frame stays in use until it is given back. */
  lemma {:induction false} StaysUsed(fs: seq<Frames>, ops: seq<FrameOp>, page: nat, i: nat, j: nat)
    requires RunOf(fs, ops) && i <= j < |fs| && page in fs[i].used
    requires forall k :: i <= k < j ==> ops[k] != Give(page)
    ensures page in fs[j].used
    decreases j
  {
    hide FreeFrom;
    if i < j {
      StaysUsed(fs, ops, page, i, j - 1);
      assert fs[j - 1 + 1] == Next(fs[j - 1], ops[j - 1]);
    }
  }

  /** No live frame is handed out twice: between two allocations of the same frame it was given back. */
  lemma {:induction false} NoFrameTwice(fs: seq<Frames>, ops: seq<FrameOp>, i: nat, j: nat)
    requires RunOf(fs, ops) && Ok(fs[0]) && i < j < |ops| && ops[i] == Take && ops[j] == Take
    requires Address(fs[i]) != 0 && Address(fs[j]) == Address(fs[i])
    ensures exists k :: i < k < j && ops[k] == Give(Address(fs[i]) / PAGE_SIZE)
  {
    hide FreeFrom;
    var page := Address(fs[i]) / PAGE_SIZE;
    RunOk(fs, ops, i);
    RunOk(fs, ops, j);
    AllocFacts(fs[i]);
    AllocFacts(fs[j]);
    assert fs[i + 1] == Next(fs[i], ops[i]);
    if forall k :: i < k < j ==> ops[k] != Give(page) {
      StaysUsed(fs, ops, page, i + 1, j);
      assert false;
    }
  }
}
