/** The kernel heap as a sequence of blocks: first fit, splitting and coalescing (kernel/heap.c). */
module HeapSpec {

  const HEADER := 12

  /** A block: its usable size and whether it is free. */
  datatype Block = Block(size: nat, free: bool)

  type Blocks = seq<Block>

  /** Bytes taken by a list of blocks, headers included. */
  function Length(bs: Blocks): nat {
    if bs == [] then 0 else HEADER + bs[0].size + Length(bs[1..])
  }

  /** Where block `i` starts. */
  function Start(bs: Blocks, i: nat): nat
    requires i <= |bs|
  {
    Length(bs[..i])
  }

  // ---------- the operations ----------

  /** The lowest block at or above `i` that is free and large enough, or |bs|. */
  function FitFrom(bs: Blocks, need: nat, i: nat): (r: nat)
    requires i <= |bs|
    ensures i <= r <= |bs|
    ensures r < |bs| ==> bs[r].free && bs[r].size >= need
    ensures forall j :: i <= j < r ==> !(bs[j].free && bs[j].size >= need)
    decreases |bs| - i
  {
    if i == |bs| || (bs[i].free && bs[i].size >= need) then i else FitFrom(bs, need, i + 1)
  }

  function Fit(bs: Blocks, need: nat): (r: nat)
    ensures r <= |bs|
  {
    FitFrom(bs, need, 0)
  }

  /** What a free block becomes when `need` bytes of it are taken (kernel/heap.c:96-105). */
  function Taken(b: Block, need: nat): (r: Blocks)
    requires b.free && b.size >= need
    ensures Length(r) == Length([b])
  {
    if b.size >= need + HEADER + 4 then
      var r := [Block(need, false), Block(b.size - need - HEADER, true)];
      assert r[1..] == [r[1]] && r[1..][1..] == [] && [b][1..] == [];
      r
    else
      assert [b][1..] == [] && [Block(b.size, false)][1..] == [];
      [Block(b.size, false)]
  }

  /** The list after `kmalloc` of an aligned size; unchanged when nothing fits. */
  function Malloc(bs: Blocks, need: nat): Blocks {
    var i := Fit(bs, need);
    if i == |bs| then bs else bs[..i] + Taken(bs[i], need) + bs[i + 1..]
  }

  /** The pass that merges neighbouring free blocks (kernel/heap.c:49-60). */
  function Coalesce(bs: Blocks): (r: Blocks)
    ensures bs != [] ==> r != []
    ensures bs != [] && !bs[0].free ==> !r[0].free
    decreases |bs|
  {
    if |bs| < 2 then bs
    else if bs[0].free && bs[1].free then Coalesce([Block(bs[0].size + HEADER + bs[1].size, true)] + bs[2..])
    else [bs[0]] + Coalesce(bs[1..])
  }

  /** The list after `kfree` of block `i`. */
  function Free(bs: Blocks, i: nat): Blocks
    requires i < |bs|
  {
    Coalesce(bs[i := bs[i].(free := true)])
  }

  // ---------- lengths and concatenation ----------

  lemma {:induction false} LengthConcat(a: Blocks, b: Blocks)
    ensures Length(a + b) == Length(a) + Length(b)
  {
    if a == [] {
      assert a + b == b;
    } else {
      LengthConcat(a[1..], b);
      assert (a + b)[1..] == a[1..] + b;
    }
  }

  lemma {:induction false} LengthOne(b: Block)
    ensures Length([b]) == HEADER + b.size
  {
    assert [b][1..] == [];
  }

  lemma {:induction false} StartStep(bs: Blocks, i: nat)
    requires i < |bs|
    ensures Start(bs, i + 1) == Start(bs, i) + HEADER + bs[i].size
  {
    LengthConcat(bs[..i], [bs[i]]);
    LengthOne(bs[i]);
    assert bs[..i + 1] == bs[..i] + [bs[i]];
  }

  /** Later blocks start beyond earlier ones. */
  lemma {:induction false} StartOrder(bs: Blocks, i: nat, j: nat)
    requires i < j <= |bs|
    ensures Start(bs, i) + HEADER + bs[i].size <= Start(bs, j)
    decreases j
  {
    if i + 1 == j {
      StartStep(bs, i);
    } else {
      StartOrder(bs, i, j - 1);
      StartStep(bs, j - 1);
    }
  }

  // ---------- live allocations ----------

  /** The payloads in use, as pairs of offset and size, of blocks laid out from `at` on. */
  function LiveFrom(bs: Blocks, at: nat): set<(nat, nat)> {
    if bs == [] then {}
    else (if bs[0].free then {} else {(at + HEADER, bs[0].size)}) + LiveFrom(bs[1..], at + HEADER + bs[0].size)
  }

  function Live(bs: Blocks): set<(nat, nat)> { LiveFrom(bs, 0) }

  lemma {:induction false} LiveConcat(a: Blocks, b: Blocks, at: nat)
    ensures LiveFrom(a + b, at) == LiveFrom(a, at) + LiveFrom(b, at + Length(a))
  {
    if a == [] {
      assert a + b == b;
    } else {
      var e := at + HEADER + a[0].size;
      LiveConcat(a[1..], b, e);
      assert (a + b)[1..] == a[1..] + b;
      var x: set<(nat, nat)> := if a[0].free then {} else {(at + HEADER, a[0].size)};
      assert LiveFrom(a + b, at) == x + LiveFrom(a[1..] + b, e);
      assert LiveFrom(a, at) == x + LiveFrom(a[1..], e);
    }
  }

  lemma {:induction false} LiveRange(bs: Blocks, at: nat, o: nat, n: nat)
    requires (o, n) in LiveFrom(bs, at)
    ensures at + HEADER <= o && o + n <= at + Length(bs)
  {
    if (o, n) in LiveFrom(bs[1..], at + HEADER + bs[0].size) {
      LiveRange(bs[1..], at + HEADER + bs[0].size, o, n);
    }
  }

  /** A pair is live exactly when it is the payload of some used block. */
  lemma {:induction false} LiveIndex(bs: Blocks, at: nat, o: nat, n: nat) returns (i: nat)
    requires (o, n) in LiveFrom(bs, at)
    ensures i < |bs| && !bs[i].free && bs[i].size == n && o == at + Start(bs, i) + HEADER
  {
    if !bs[0].free && (o, n) == (at + HEADER, bs[0].size) {
      i := 0;
      assert bs[..0] == [];
    } else {
      var k := LiveIndex(bs[1..], at + HEADER + bs[0].size, o, n);
      i := k + 1;
      assert bs[..i][1..] == bs[1..][..k] && bs[..i][0] == bs[0];
    }
  }

  lemma {:induction false} IndexLive(bs: Blocks, i: nat)
    requires i < |bs| && !bs[i].free
    ensures (Start(bs, i) + HEADER, bs[i].size) in Live(bs)
  {
    assert bs == bs[..i] + bs[i..];
    LiveConcat(bs[..i], bs[i..], 0);
  }

  /** Different live payloads do not overlap, headers included. */
  lemma {:induction false} LiveDisjoint(bs: Blocks, o: nat, n: nat, q: nat, m: nat)
    requires (o, n) in Live(bs) && (q, m) in Live(bs) && (o, n) != (q, m)
    ensures o + n <= q - HEADER || q + m <= o - HEADER
  {
    var i := LiveIndex(bs, 0, o, n);
    var j := LiveIndex(bs, 0, q, m);
    if i < j {
      StartOrder(bs, i, j);
    } else if j < i {
      StartOrder(bs, j, i);
    }
  }

  // ---------- no two free neighbours ----------

  predicate BothFree(bs: Blocks, i: nat)
    requires i + 1 < |bs|
  {
    bs[i].free && bs[i + 1].free
  }

  predicate Tight(bs: Blocks) {
    forall i :: 0 <= i < |bs| - 1 ==> !BothFree(bs, i)
  }

  lemma {:induction false} TightPart(bs: Blocks, i: nat, j: nat)
    requires Tight(bs) && i <= j <= |bs|
    ensures Tight(bs[i..j])
  {
    var a := bs[i..j];
    forall k | 0 <= k < |a| - 1 ensures !BothFree(a, k) {
      assert !BothFree(bs, i + k);
    }
  }

  lemma {:induction false} CoalesceTight(bs: Blocks)
    ensures Tight(Coalesce(bs))
    decreases |bs|
  {
    if |bs| < 2 {
    } else if bs[0].free && bs[1].free {
      CoalesceTight([Block(bs[0].size + HEADER + bs[1].size, true)] + bs[2..]);
    } else {
      CoalesceTight(bs[1..]);
      var r := Coalesce(bs[1..]);
      assert bs[0].free ==> !bs[1..][0].free;
      forall i | 0 <= i < |Coalesce(bs)| - 1 ensures !BothFree(Coalesce(bs), i) {
        if i > 0 {
          assert !BothFree(r, i - 1);
        }
      }
    }
  }

  /** Coalescing keeps the total length and every live payload. */
  lemma {:induction false} CoalesceKeeps(bs: Blocks, at: nat)
    ensures Length(Coalesce(bs)) == Length(bs)
    ensures LiveFrom(Coalesce(bs), at) == LiveFrom(bs, at)
    decreases |bs|
  {
    if |bs| < 2 {
    } else if bs[0].free && bs[1].free {
      var m := [Block(bs[0].size + HEADER + bs[1].size, true)] + bs[2..];
      CoalesceKeeps(m, at);
      assert m[1..] == bs[2..] == bs[1..][1..];
    } else {
      CoalesceKeeps(bs[1..], at + HEADER + bs[0].size);
      assert Coalesce(bs)[1..] == Coalesce(bs[1..]);
    }
  }

  lemma {:induction false} TightFixed(bs: Blocks)
    requires Tight(bs)
    ensures Coalesce(bs) == bs
  {
    if |bs| >= 2 {
      TightPart(bs, 1, |bs|);
      assert bs[1..] == bs[1..|bs|];
      TightFixed(bs[1..]);
      assert !BothFree(bs, 0);
    }
  }
}
