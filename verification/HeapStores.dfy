/** The stores of kernel/heap.c: the heap's bytes after a call as a function of the bytes before it. */
module HeapStores {
  import opened Bytes
  import opened HeapSpec
  import opened HeapTheorems
  import opened HeapMemory

  // ---------- single fields ----------

  /** A 32-bit store. */
  function Put32(m: seq<byte>, o: nat, w: nat): (r: seq<byte>)
    requires o + 4 <= |m|
    ensures |r| == |m|
  {
    Splice(m, o, U32Bytes(w % WORD_LIMIT))
  }

  /** Size, free flag and successor of a new free block. */
  function PutHeader(m: seq<byte>, o: nat, size: nat, next: nat): (r: seq<byte>)
    requires o + HEADER <= |m|
    ensures |r| == |m|
  {
    Put32(Put32(m, o, size)[o + 4 := 1], o + 8, next)
  }

  lemma {:induction false} Put32Facts(m: seq<byte>, o: nat, w: nat)
    requires o + 4 <= |m| && w < WORD_LIMIT
    ensures U32At(Put32(m, o, w), o) == w && SameOutside(m, Put32(m, o, w), o, o + 4)
  {
    hide U32Bytes, U32At;
    var r := Put32(m, o, w);
    assert r[o..o + 4] == U32Bytes(w);
    U32RoundTrip(w, r, o);
  }

  lemma {:induction false} WordStays(m: seq<byte>, m': seq<byte>, o: nat, lo: nat, hi: nat)
    requires SameOutside(m, m', lo, hi) && o + 4 <= |m| && (o + 4 <= lo || hi <= o)
    ensures U32At(m', o) == U32At(m, o)
  {
  }

  lemma {:induction false} SizePut(m: seq<byte>, o: nat, b: Block, next: int, v: nat)
    requires o + HEADER <= |m| && Header(m, o, b, next) && v < WORD_LIMIT
    ensures Header(Put32(m, o, v), o, Block(v, b.free), next)
    ensures SameOutside(m, Put32(m, o, v), o, o + HEADER)
  {
    hide U32At, Put32;
    Put32Facts(m, o, v);
    WordStays(m, Put32(m, o, v), o + 8, o, o + 4);
  }

  lemma {:induction false} NextPut(m: seq<byte>, o: nat, b: Block, next: int, v: nat)
    requires o + HEADER <= |m| && Header(m, o, b, next) && v < WORD_LIMIT
    ensures Header(Put32(m, o + 8, v), o, b, v)
    ensures SameOutside(m, Put32(m, o + 8, v), o, o + HEADER)
  {
    hide U32At, Put32;
    Put32Facts(m, o + 8, v);
    WordStays(m, Put32(m, o + 8, v), o, o + 8, o + 12);
  }

  lemma {:induction false} FlagPut(m: seq<byte>, o: nat, b: Block, next: int, v: byte)
    requires o + HEADER <= |m| && Header(m, o, b, next)
    ensures Header(m[o + 4 := v], o, Block(b.size, v != 0), next)
    ensures SameOutside(m, m[o + 4 := v], o, o + HEADER)
  {
    hide U32At;
    WordStays(m, m[o + 4 := v], o, o + 4, o + 5);
    WordStays(m, m[o + 4 := v], o + 8, o + 4, o + 5);
  }

  lemma {:induction false} HeaderPut(m: seq<byte>, o: nat, size: nat, next: nat)
    requires o + HEADER <= |m| && size < WORD_LIMIT && next < WORD_LIMIT
    ensures Header(PutHeader(m, o, size, next), o, Block(size, true), next)
    ensures SameOutside(m, PutHeader(m, o, size, next), o, o + HEADER)
  {
    hide U32At, Put32;
    var m1 := Put32(m, o, size);
    var m2 := m1[o + 4 := 1];
    Put32Facts(m, o, size);
    WordStays(m1, m2, o, o + 4, o + 5);
    Put32Facts(m2, o + 8, next);
    WordStays(m2, Put32(m2, o + 8, next), o, o + 8, o + 12);
  }

  // ---------- kmalloc ----------

  /** The found block at `o` split if worthwhile, and marked as used (kernel/heap.c:96-105). */
  function TakeMem(m: seq<byte>, o: nat, size: nat, need: nat, next: nat): (r: seq<byte>)
    requires need <= size && o + HEADER + size <= |m|
    ensures |r| == |m|
  {
    if size >= need + HEADER + 4 then
      var rest := o + HEADER + need;
      var m1 := PutHeader(m, rest, size - need - HEADER, next);
      Put32(Put32(m1, o + 8, HEAP_START + rest), o, need)[o + 4 := 0]
    else m[o + 4 := 0]
  }

  /** The bytes after `kmalloc` of an aligned size. */
  function MallocMem(m: seq<byte>, bs: Blocks, need: nat): (r: seq<byte>)
    requires Length(bs) <= |m|
    ensures |r| == |m|
  {
    var i := Fit(bs, need);
    if i == |bs| then m
    else
      StartBound(bs, i);
      TakeMem(m, Start(bs, i), bs[i].size, need, NextOf(bs, i))
  }

  /** The stores of a split leave two headers, and nothing outside the block is touched. */
  lemma {:induction false} SplitMem(m: seq<byte>, o: nat, b: Block, need: nat, next: nat)
    requires b.free && b.size >= need + HEADER + 4 && o + HEADER + b.size <= |m|
    requires Header(m, o, b, next) && HEAP_START + |m| < WORD_LIMIT && next < WORD_LIMIT
    ensures
      var r := TakeMem(m, o, b.size, need, next);
      && Header(r, o, Block(need, false), HEAP_START + o + HEADER + need)
      && Header(r, o + HEADER + need, Block(b.size - need - HEADER, true), next)
      && SameOutside(m, r, o, o + HEADER + b.size)
  {
    hide Header, Put32, PutHeader;
    var rest, left := o + HEADER + need, Block(b.size - need - HEADER, true);
    var m1 := PutHeader(m, rest, left.size, next);
    HeaderPut(m, rest, left.size, next);
    HeaderFrame(m, m1, o, b, next);
    var m2 := Put32(m1, o + 8, HEAP_START + rest);
    NextPut(m1, o, b, next, HEAP_START + rest);
    var m3 := Put32(m2, o, need);
    SizePut(m2, o, b, HEAP_START + rest, need);
    FlagPut(m3, o, Block(need, true), HEAP_START + rest, 0);
    HeaderFrame(m1, m3[o + 4 := 0], rest, left, next);
  }

  /** `kmalloc` leaves the new list in memory and no byte of a live payload changed. */
  lemma {:induction false} MallocMemFacts(m: seq<byte>, bs: Blocks, need: nat)
    requires Lays(m, bs) && need % 4 == 0
    ensures Lays(MallocMem(m, bs, need), Malloc(bs, need))
    ensures Kept(m, MallocMem(m, bs, need), Live(bs))
  {
    hide Length, Header, LiveFrom, FitFrom, Put32, PutHeader, TakeMem;
    var i := Fit(bs, need);
    if i < |bs| {
      var o, b, next := Start(bs, i), bs[i], NextOf(bs, i);
      StartBound(bs, i);
      NextBound(bs, i);
      assert HeaderOk(m, bs, i);
      var r := TakeMem(m, o, b.size, need, next);
      if b.size >= need + HEADER + 4 {
        SplitMem(m, o, b, need, next);
        SplitLays(m, r, bs, i, need);
        KeptInFree(m, r, bs, i, o, o + HEADER + b.size);
      } else {
        assert r == m[o + 4 := 0] by {
          Unsplit(m, o, b.size, need, next);
        }
        FlagPut(m, o, b, next, 0);
        MarkLays(m, r, bs, i, false);
        KeptInFree(m, r, bs, i, o, o + HEADER);
        assert bs[i := Block(b.size, false)] == bs[..i] + Taken(b, need) + bs[i + 1..];
      }
    }
  }

  lemma {:induction false} Unsplit(m: seq<byte>, o: nat, size: nat, need: nat, next: nat)
    requires need <= size < need + HEADER + 4 && o + HEADER + size <= |m|
    ensures TakeMem(m, o, size, need, next) == m[o + 4 := 0]
  {
  }

  lemma {:induction false} NextBound(bs: Blocks, i: nat)
    requires i < |bs|
    ensures 0 <= NextOf(bs, i) <= HEAP_START + Length(bs)
  {
    hide Length;
    if i + 1 < |bs| {
      StartBound(bs, i + 1);
    }
  }

  // ---------- kfree ----------

  /** The address of the header behind the first of `bs`, which starts at `o`. */
  function Behind(bs: Blocks, o: nat): nat
    requires bs != []
  {
    if |bs| > 1 then HEAP_START + o + HEADER + bs[0].size else 0
  }

  /** The bytes after `heap_coalesce` has passed over the blocks `bs` from `o` on (kernel/heap.c:49-60). */
  function CoalesceMem(m: seq<byte>, bs: Blocks, o: nat): (r: seq<byte>)
    requires o + Length(bs) <= |m|
    ensures |r| == |m|
    decreases |bs|
  {
    if |bs| < 2 then m
    else
      assert bs[1..][1..] == bs[2..];
      if bs[0].free && bs[1].free then
        var b := Merged(bs[0], bs[1]);
        assert ([b] + bs[2..])[1..] == bs[2..];
        CoalesceMem(MergeMem(m, bs, o), [b] + bs[2..], o)
      else CoalesceMem(m, bs[1..], o + HEADER + bs[0].size)
  }

  /** The two stores that join the first two blocks. */
  function MergeMem(m: seq<byte>, bs: Blocks, o: nat): (r: seq<byte>)
    requires |bs| >= 2 && o + HEADER <= |m|
    ensures |r| == |m|
  {
    Put32(Put32(m, o, bs[0].size + HEADER + bs[1].size), o + 8, Behind(bs[1..], o + HEADER + bs[0].size))
  }

  /** The bytes after `kfree` of block `i`. */
  function FreeMem(m: seq<byte>, bs: Blocks, i: nat): (r: seq<byte>)
    requires Length(bs) <= |m| && i < |bs|
    ensures |r| == |m|
  {
    StartBound(bs, i);
    MarkLength(bs, i, true);
    CoalesceMem(m[Start(bs, i) + 4 := 1], bs[i := bs[i].(free := true)], 0)
  }

  lemma {:induction false} MarkLength(bs: Blocks, i: nat, free: bool)
    requires i < |bs|
    ensures Length(bs[i := bs[i].(free := free)]) == Length(bs)
  {
    hide Length;
    var b := bs[i].(free := free);
    Cut(bs, i, 1);
    assert bs[i..i + 1] == [bs[i]];
    assert bs[i := b] == bs[..i] + [b] + bs[i + 1..];
    ThreeParts(bs[..i], [bs[i]], bs[i + 1..]);
    ThreeParts(bs[..i], [b], bs[i + 1..]);
    LengthOne(b);
    LengthOne(bs[i]);
  }

  /** The stores of one join. */
  lemma {:induction false} MergeMemLays(m: seq<byte>, a: Blocks, bs: Blocks)
    requires Lays(m, a + bs) && |bs| >= 2 && bs[0].free && bs[1].free && Length(a) + HEADER <= |m|
    ensures Lays(MergeMem(m, bs, Length(a)), a + ([Merged(bs[0], bs[1])] + bs[2..]))
    ensures Live(a + ([Merged(bs[0], bs[1])] + bs[2..])) == Live(a + bs)
    ensures Kept(m, MergeMem(m, bs, Length(a)), Live(a + bs))
  {
    hide Length, Header, LiveFrom, Put32, U32At;
    var i, all := |a|, a + bs;
    var x, y, o := bs[0], bs[1], Length(a);
    assert all[..i] == a && all[i] == x && all[i + 1] == y && all[i + 2..] == bs[2..];
    assert Start(all, i) == o;
    MergeSize(all, i);
    NextBound(all, i + 1);
    assert HeaderOk(m, all, i);
    BehindNext(a, bs);
    var m1 := Put32(m, o, x.size + HEADER + y.size);
    SizePut(m, o, x, NextOf(all, i), x.size + HEADER + y.size);
    NextPut(m1, o, Merged(x, y), NextOf(all, i), NextOf(all, i + 1));
    var r := MergeMem(m, bs, o);
    MergeLays(m, r, all, i);
    KeptInFree(m, r, all, i, o, o + HEADER);
    MergeLive(all, i);
    assert all[..i] + [Merged(x, y)] + all[i + 2..] == a + ([Merged(x, y)] + bs[2..]);
  }

  lemma {:induction false} BehindNext(a: Blocks, bs: Blocks)
    requires |bs| >= 2
    ensures NextOf(a + bs, |a| + 1) == Behind(bs[1..], Length(a) + HEADER + bs[0].size)
    ensures Start(a + bs, |a| + 1) == Length(a) + HEADER + bs[0].size
  {
    hide Length;
    var all := a + bs;
    assert all[..|a|] == a;
    StartStep(all, |a|);
    StartStep(all, |a| + 1);
  }

  /** The joined block still fits the heap, so its size does not wrap. */
  lemma {:induction false} MergeSize(bs: Blocks, i: nat)
    requires i + 1 < |bs|
    ensures Start(bs, i) + HEADER + bs[i].size + HEADER + bs[i + 1].size <= Length(bs)
    ensures Start(bs, i) + HEADER <= Length(bs)
  {
    StartStep(bs, i);
    StartBound(bs, i + 1);
  }

  /** Joining two free neighbours changes no live payload. */
  lemma {:induction false} MergeLive(bs: Blocks, i: nat)
    requires i + 1 < |bs| && bs[i].free && bs[i + 1].free
    ensures Live(bs[..i] + [Merged(bs[i], bs[i + 1])] + bs[i + 2..]) == Live(bs)
  {
    hide LiveFrom, Length;
    var a, x, y, c := bs[..i], bs[i], bs[i + 1], bs[i + 2..];
    assert bs == a + [x, y] + c;
    ThreeParts(a, [x, y], c);
    ThreeParts(a, [Merged(x, y)], c);
    FreePairLive(x, y, Length(a));
  }

  lemma {:induction false} FreePairLive(x: Block, y: Block, at: nat)
    requires x.free && y.free
    ensures LiveFrom([x, y], at) == {} && LiveFrom([Merged(x, y)], at) == {}
    ensures Length([x, y]) == Length([Merged(x, y)])
  {
    assert [x, y][1..] == [y];
    FreeBlockLive(y, at + HEADER + x.size);
    FreeBlockLive(Merged(x, y), at);
    LengthOne(y);
    LengthOne(Merged(x, y));
  }

  /** One round of the pass: join, or step to the next block. */
  lemma {:induction false} CoalesceRound(m: seq<byte>, bs: Blocks, o: nat)
    requires o + Length(bs) <= |m| && |bs| >= 2
    ensures
      var cs := [Merged(bs[0], bs[1])] + bs[2..];
      && Length(cs) == Length(bs) == HEADER + bs[0].size + Length(bs[1..])
      && if bs[0].free && bs[1].free
         then Coalesce(bs) == Coalesce(cs) && CoalesceMem(m, bs, o) == CoalesceMem(MergeMem(m, bs, o), cs, o)
         else
           && Coalesce(bs) == [bs[0]] + Coalesce(bs[1..])
           && CoalesceMem(m, bs, o) == CoalesceMem(m, bs[1..], o + HEADER + bs[0].size)
  {
    hide MergeMem;
    assert bs[1..][1..] == bs[2..] && ([Merged(bs[0], bs[1])] + bs[2..])[1..] == bs[2..];
  }

  /** The pass leaves the coalesced list in memory and every live payload's bytes alone. */
  lemma {:induction false} CoalesceMemFacts(m: seq<byte>, a: Blocks, bs: Blocks)
    requires Lays(m, a + bs) && Length(a) + Length(bs) <= |m|
    ensures Lays(CoalesceMem(m, bs, Length(a)), a + Coalesce(bs))
    ensures Kept(m, CoalesceMem(m, bs, Length(a)), Live(a + bs))
    decreases |bs|
  {
    hide Length, Coalesce, CoalesceMem, Lays, Kept, Live, MergeMem, Merged;
    if |bs| < 2 {
      CoalesceShort(m, bs, Length(a));
      KeptSelf(m, Live(a + bs));
    } else {
      CoalesceRound(m, bs, Length(a));
      if bs[0].free && bs[1].free {
        var cs, m1 := [Merged(bs[0], bs[1])] + bs[2..], MergeMem(m, bs, Length(a));
        MergeMemLays(m, a, bs);
        CoalesceMemFacts(m1, a, cs);
        KeptBoth(m, m1, CoalesceMem(m1, cs, Length(a)), Live(a + bs));
      } else {
        MoveOn(a, bs);
        CoalesceMemFacts(m, a + [bs[0]], bs[1..]);
      }
    }
  }

  lemma {:induction false} CoalesceShort(m: seq<byte>, bs: Blocks, o: nat)
    requires o + Length(bs) <= |m| && |bs| < 2
    ensures CoalesceMem(m, bs, o) == m && Coalesce(bs) == bs
  {
  }

  lemma {:induction false} MoveOn(a: Blocks, bs: Blocks)
    requires bs != []
    ensures Length(a + [bs[0]]) == Length(a) + HEADER + bs[0].size && a + [bs[0]] + bs[1..] == a + bs
    ensures a + [bs[0]] + Coalesce(bs[1..]) == a + ([bs[0]] + Coalesce(bs[1..]))
  {
    hide Length, Coalesce;
    LengthConcat(a, [bs[0]]);
    LengthOne(bs[0]);
  }

  lemma {:induction false} KeptSelf(m: seq<byte>, live: set<(nat, nat)>)
    ensures Kept(m, m, live)
  {
  }

  lemma {:induction false} KeptBoth(m: seq<byte>, m1: seq<byte>, m2: seq<byte>, live: set<(nat, nat)>)
    requires Kept(m, m1, live) && Kept(m1, m2, live)
    ensures Kept(m, m2, live)
  {
    hide InLive;
  }

  lemma {:induction false} KeptFewer(m: seq<byte>, m': seq<byte>, big: set<(nat, nat)>, small: set<(nat, nat)>)
    requires Kept(m, m', big) && small <= big
    ensures Kept(m, m', small)
  {
    forall k | 0 <= k < |m| && InLive(small, k) ensures m'[k] == m[k] {
      assert InLive(big, k);
    }
  }

  /** `kfree` leaves the new list in memory and no byte of a payload that stays live changed. */
  lemma {:induction false} FreeMemFacts(m: seq<byte>, bs: Blocks, i: nat)
    requires Lays(m, bs) && i < |bs| && !bs[i].free
    ensures Lays(FreeMem(m, bs, i), Free(bs, i))
    ensures Kept(m, FreeMem(m, bs, i), Live(Free(bs, i)))
  {
    hide Length, Header, LiveFrom, Coalesce, CoalesceMem;
    var o := Start(bs, i);
    StartBound(bs, i);
    assert HeaderOk(m, bs, i);
    var m1, cs := m[o + 4 := 1], bs[i := bs[i].(free := true)];
    FlagPut(m, o, bs[i], NextOf(bs, i), 1);
    MarkLays(m, m1, bs, i, true);
    KeptInHeader(m, m1, bs, i);
    EmptyLength();
    assert [] + cs == cs && [] + Coalesce(cs) == Coalesce(cs);
    CoalesceMemFacts(m1, [], cs);
    CoalesceKeeps(cs, 0);
    FreeLive(bs, i);
    assert FreeMem(m, bs, i) == CoalesceMem(m1, cs, 0);
    KeptFewer(m, m1, Live(bs), Live(cs));
    KeptBoth(m, m1, CoalesceMem(m1, cs, 0), Live(cs));
  }

  lemma {:induction false} EmptyLength()
    ensures Length([]) == 0
  {
  }
}
