/** kernel/pmm.c: the bitmap frame allocator. */
module Pmm {
  import opened FrameSpec

  // ---------- single bits of 32-bit words ----------

  function Shifted(w: bv32, n: nat): bv32 {
    if n == 0 then w else Shifted(w, n - 1) << 1
  }

  /** `1 << k`. */
  function Mask(k: nat): bv32 { Shifted(1, k) }

  lemma {:induction false} ShiftedSum(w: bv32, a: nat, b: nat)
    ensures Shifted(Shifted(w, a), b) == Shifted(w, a + b)
    decreases b
  {
    if b > 0 {
      ShiftedSum(w, a, b - 1);
    }
  }

  lemma {:induction false} ShiftedZero(n: nat)
    ensures Shifted(0, n) == 0
    decreases n
  {
    if n > 0 {
      ShiftedZero(n - 1);
    }
  }

  lemma {:induction false} ShiftedStep(w: bv32, n: nat)
    ensures Shifted(w, 0) == w && Shifted(w, n + 1) == Shifted(w, n) << 1
  {
  }

  lemma {:induction false} Shift2(w: bv32)
    ensures Shifted(w, 2) == w << 2
  {
    hide Shifted;
    ShiftedStep(w, 0);
    ShiftedStep(w, 1);
  }

  lemma {:induction false} Shift4(w: bv32)
    ensures Shifted(w, 4) == w << 4
  {
    hide Shifted;
    ShiftedSum(w, 2, 2);
    Shift2(w);
    Shift2(w << 2);
  }

  lemma {:induction false} Shift8(w: bv32)
    ensures Shifted(w, 8) == w << 8
  {
    hide Shifted;
    ShiftedSum(w, 4, 4);
    Shift4(w);
    Shift4(w << 4);
  }

  /** The shift by 31 does not lose the bit. */
  lemma {:induction false} MaskTop()
    ensures Shifted(1, 31) != 0
  {
    hide Shifted;
    ShiftedSum(1, 8, 8);
    ShiftedSum(1, 16, 8);
    ShiftedSum(1, 24, 4);
    ShiftedSum(1, 28, 2);
    Shift8(1);
    Shift8(0x100);
    Shift8(0x1_0000);
    Shift4(0x100_0000);
    Shift2(0x1000_0000);
    ShiftedStep(1, 30);
  }

  lemma {:induction false} MaskNonZero(k: nat)
    requires k < 32
    ensures Mask(k) != 0
  {
    ShiftedSum(1, k, 31 - k);
    MaskTop();
    ShiftedZero(31 - k);
  }

  lemma {:induction false} MasksApart(j: nat, k: nat)
    requires j < k < 32
    ensures Mask(j) & Mask(k) == 0
    decreases j
  {
    MaskStep(k);
    MaskStep(j);
    hide Shifted, Mask;
    if j > 0 {
      MasksApart(j - 1, k - 1);
      ShiftBoth(Mask(j - 1), Mask(k - 1));
    } else {
      LowBit(Mask(k - 1));
    }
  }

  lemma {:induction false} MaskStep(k: nat)
    ensures Mask(k) == if k == 0 then 1 else Mask(k - 1) << 1
  {
  }

  lemma {:induction false} ShiftBoth(a: bv32, b: bv32)
    requires a & b == 0
    ensures (a << 1) & (b << 1) == 0
  {
  }

  lemma {:induction false} LowBit(a: bv32)
    ensures 1 & (a << 1) == 0
  {
  }

  lemma {:induction false} Commutes(a: bv32, b: bv32)
    ensures a & b == b & a
  {
  }

  lemma {:induction false} Apart(j: nat, k: nat)
    requires j < 32 && k < 32
    ensures j != k ==> !Hit(Mask(j), Mask(k))
  {
    hide Mask;
    if j < k {
      MasksApart(j, k);
    } else if k < j {
      MasksApart(k, j);
      Commutes(Mask(j), Mask(k));
    }
  }

  predicate Hit(w: bv32, m: bv32) { w & m != 0 }

  function Or(w: bv32, m: bv32): bv32 { w | m }

  function AndNot(w: bv32, m: bv32): bv32 { w & !m }

  /** Bit `k` of a word, and the word with it set or cleared (kernel/pmm.c:21-34). */
  predicate BitOf(w: bv32, k: nat) { Hit(w, Mask(k)) }

  function WithBit(w: bv32, k: nat): bv32 { Or(w, Mask(k)) }

  function WithoutBit(w: bv32, k: nat): bv32 { AndNot(w, Mask(k)) }

  lemma {:induction false} OrHits(w: bv32, m: bv32)
    requires m != 0
    ensures Hit(Or(w, m), m)
  {
  }

  lemma {:induction false} Distributes(w: bv32, m: bv32, k: bv32)
    ensures (w | m) & k == (w & k) | (m & k)
  {
  }

  lemma {:induction false} Associates(w: bv32, m: bv32, k: bv32)
    ensures (w & m) & k == w & (m & k)
  {
  }

  lemma {:induction false} OrNothing(w: bv32)
    ensures w | 0 == w
  {
  }

  lemma {:induction false} OutsideMask(m: bv32, k: bv32)
    requires m & k == 0
    ensures !m & k == k
  {
  }

  lemma {:induction false} OrElsewhere(w: bv32, m: bv32, k: bv32)
    requires !Hit(m, k)
    ensures Hit(Or(w, m), k) <==> Hit(w, k)
  {
    Distributes(w, m, k);
    OrNothing(w & k);
  }

  lemma {:induction false} AndNotElsewhere(w: bv32, m: bv32, k: bv32)
    requires !Hit(m, k)
    ensures Hit(AndNot(w, m), k) <==> Hit(w, k)
  {
    Associates(w, !m, k);
    OutsideMask(m, k);
  }

  lemma {:induction false} AndNotMisses(w: bv32, m: bv32)
    ensures !Hit(AndNot(w, m), m)
  {
  }

  lemma {:induction false} WithBitIs(w: bv32, j: nat, k: nat)
    requires j < 32 && k < 32
    ensures BitOf(WithBit(w, j), k) <==> j == k || BitOf(w, k)
    ensures BitOf(WithoutBit(w, j), k) <==> j != k && BitOf(w, k)
  {
    hide Mask, Hit, Or, AndNot;
    if j == k {
      MaskNonZero(j);
      OrHits(w, Mask(j));
      AndNotMisses(w, Mask(j));
    } else {
      Apart(j, k);
      OrElsewhere(w, Mask(j), Mask(k));
      AndNotElsewhere(w, Mask(j), Mask(k));
    }
  }

  // ---------- the bitmap ----------

  /** Bit `page` of the bitmap. */
  predicate Bit(bm: seq<bv32>, page: nat)
    requires |bm| == 1024 && page < MAX_PAGES
  {
    BitOf(bm[page / 32], page % 32)
  }

  lemma {:induction false} SetBit(bm: seq<bv32>, page: nat, q: nat)
    requires |bm| == 1024 && page < MAX_PAGES && q < MAX_PAGES
    ensures Bit(bm[page / 32 := WithBit(bm[page / 32], page % 32)], q) <==> q == page || Bit(bm, q)
  {
    hide BitOf, WithBit;
    WithBitIs(bm[page / 32], page % 32, q % 32);
  }

  lemma {:induction false} ClearBit(bm: seq<bv32>, page: nat, q: nat)
    requires |bm| == 1024 && page < MAX_PAGES && q < MAX_PAGES
    ensures Bit(bm[page / 32 := WithoutBit(bm[page / 32], page % 32)], q) <==> q != page && Bit(bm, q)
  {
    hide BitOf, WithoutBit;
    WithBitIs(bm[page / 32], page % 32, q % 32);
  }

  /** The set of frames below `total` whose bit is set. */
  function UsedSet(bm: seq<bv32>, total: nat): set<nat>
    requires |bm| == 1024 && total <= MAX_PAGES
  {
    set i: nat | i < total && Bit(bm, i)
  }

  class FrameAllocator {
    const bitmap: array<bv32>
    var totalPages: nat
    var usedPages: int

    /** The bitmap stands for a set of used frames and the counter counts them. */
    ghost predicate Valid()
      reads this, bitmap
    {
      && bitmap.Length == 1024 && totalPages <= MAX_PAGES
      && Ok(View()) && usedPages == |View().used|
    }

    ghost function View(): Frames
      requires bitmap.Length == 1024 && totalPages <= MAX_PAGES
      reads this, bitmap
    {
      Frames(totalPages, UsedSet(bitmap[..], totalPages))
    }

    constructor ()
      ensures bitmap.Length == 1024 && fresh(bitmap)
    {
      bitmap := new bv32[1024](_ => 0);
      totalPages, usedPages := 0, 0;
    }

    method Set(page: nat)
      requires bitmap.Length == 1024 && page < MAX_PAGES
      modifies bitmap
      ensures forall q :: 0 <= q < MAX_PAGES ==> (Bit(bitmap[..], q) <==> q == page || Bit(old(bitmap[..]), q))
    {
      hide Bit, WithBit;
      ghost var bm := bitmap[..];
      bitmap[page / 32] := WithBit(bitmap[page / 32], page % 32);
      assert bitmap[..] == bm[page / 32 := WithBit(bm[page / 32], page % 32)];
      forall q | 0 <= q < MAX_PAGES ensures Bit(bitmap[..], q) <==> q == page || Bit(bm, q) {
        SetBit(bm, page, q);
      }
    }

    method Clear(page: nat)
      requires bitmap.Length == 1024 && page < MAX_PAGES
      modifies bitmap
      ensures forall q :: 0 <= q < MAX_PAGES ==> (Bit(bitmap[..], q) <==> q != page && Bit(old(bitmap[..]), q))
    {
      hide Bit, WithoutBit;
      ghost var bm := bitmap[..];
      bitmap[page / 32] := WithoutBit(bitmap[page / 32], page % 32);
      assert bitmap[..] == bm[page / 32 := WithoutBit(bm[page / 32], page % 32)];
      forall q | 0 <= q < MAX_PAGES ensures Bit(bitmap[..], q) <==> q != page && Bit(bm, q) {
        ClearBit(bm, page, q);
      }
    }

    method Test(page: nat) returns (b: bool)
      requires bitmap.Length == 1024 && page < MAX_PAGES
      ensures b == Bit(bitmap[..], page)
    {
      hide BitOf;
      b := BitOf(bitmap[page / 32], page % 32);
    }

    /** `pmm_init`: all frames used, then those from the kernel's end to the end of memory freed. The
        counter is right exactly when the kernel ends within memory. */
    method Init(memUpper: nat, kernelEndPage: nat)
      requires bitmap.Length == 1024 && memUpper < 0x1_0000_0000
      modifies this, bitmap
      ensures totalPages == Total(memUpper) && Counts(memUpper, totalPages) && usedPages == kernelEndPage
      ensures forall q :: 0 <= q < MAX_PAGES ==> (Bit(bitmap[..], q) <==> q < kernelEndPage || q >= totalPages)
      ensures usedPages == |View().used| <==> kernelEndPage <= totalPages
      ensures 1 <= kernelEndPage <= totalPages ==>
                Valid() && forall i :: i in View().used <==> 0 <= i < kernelEndPage
    {
      hide Bit;
      totalPages := (memUpper + 1024) % 0x1_0000_0000 / 4;
      if totalPages > MAX_PAGES {
        totalPages := MAX_PAGES;
      }
      var i := 0;
      while i < 1024
        invariant 0 <= i <= 1024 && totalPages == Total(memUpper)
        invariant forall k :: 0 <= k < i ==> bitmap[k] == 0xFFFF_FFFF
      {
        bitmap[i] := 0xFFFF_FFFF;
        i := i + 1;
      }
      AllOnes(bitmap[..]);
      i := kernelEndPage;
      while i < totalPages
        invariant kernelEndPage <= i && totalPages == Total(memUpper)
        invariant if kernelEndPage <= totalPages then i <= totalPages else i == kernelEndPage
        invariant forall q :: 0 <= q < MAX_PAGES ==> (Bit(bitmap[..], q) <==> !(kernelEndPage <= q < i))
      {
        Clear(i);
        usedPages := (usedPages - 1) % 0x1_0000_0000;
        i := i + 1;
      }
      usedPages := kernelEndPage;
      ghost var n := if kernelEndPage <= totalPages then kernelEndPage else totalPages;
      assert forall i :: i in View().used <==> 0 <= i < n;
      AllOfThem(View().used, n);
    }

    lemma {:induction false} AllOnes(bm: seq<bv32>)
      requires |bm| == 1024 && forall k :: 0 <= k < 1024 ==> bm[k] == 0xFFFF_FFFF
      ensures forall q :: 0 <= q < MAX_PAGES ==> Bit(bm, q)
    {
      hide Mask, Hit;
      forall q | 0 <= q < MAX_PAGES ensures Bit(bm, q) {
        MaskNonZero(q % 32);
        OnesHit(Mask(q % 32));
      }
    }

    lemma {:induction false} OnesHit(m: bv32)
      requires m != 0
      ensures Hit(0xFFFF_FFFF, m)
    {
    }

    /** `pmm_alloc`. */
    method Allocate() returns (addr: nat)
      requires Valid()
      modifies this, bitmap
      ensures Valid() && View() == Alloc(old(View())) && addr == Address(old(View()))
    {
      hide Bit, FreeFrom;
      AllocFacts(View());
      var i := 0;
      while i < totalPages
        invariant 0 <= i <= totalPages
        invariant Valid() && View() == old(View()) && totalPages == old(totalPages)
        invariant forall j :: 0 <= j < i ==> j in View().used
      {
        var b := Test(i);
        if !b {
          ghost var v := View();
          assert i !in v.used;
          assert Lowest(v) == i;
          Set(i);
          usedPages := usedPages + 1;
          assert View().used == v.used + {i};
          return i * PAGE_SIZE;
        }
        i := i + 1;
      }
      assert Lowest(View()) == totalPages;
      return 0;
    }

    /** `pmm_free` of a frame in use. */
    method FreeFrame(addr: nat)
      requires Valid() && addr / PAGE_SIZE in View().used && addr / PAGE_SIZE != 0
      modifies this, bitmap
      ensures Valid() && View() == Release(old(View()), addr / PAGE_SIZE)
    {
      hide Bit;
      ghost var v := View();
      var page := addr / PAGE_SIZE;
      Clear(page);
      usedPages := usedPages - 1;
      assert View().used == v.used - {page};
    }

    /** `pmm_free_pages`: the number of clear bits below `total_pages`. */
    method FreePages() returns (n: int)
      requires Valid()
      ensures n == FreeCount(View()) && n == |set i: nat | i < totalPages && !Bit(bitmap[..], i)|
    {
      hide Bit;
      n := totalPages - usedPages;
      ghost var free := set i: nat | i < totalPages && !Bit(bitmap[..], i);
      ghost var all := free + View().used;
      AllOfThem(all, totalPages);
      assert |all| == |free| + |View().used|;
    }
  }

  /** `t` is the number of whole 4 KB pages in 1 MB plus `memUpper` KB, at most 32768 of them (128 MB); a sum of
      2^32 KB or more wraps to what exceeds 2^32. */
  predicate Counts(memUpper: nat, t: nat) {
    var kb := memUpper + 1024;
    if kb >= 0x1_0000_0000 then 4 * t <= kb - 0x1_0000_0000 < 4 * t + 4
    else if kb >= 4 * 32769 then t == 32768
    else 4 * t <= kb < 4 * t + 4
  }

  /** Total frames for the memory size GRUB reports, in KB above 1 MB (kernel/pmm.c:46-48). */
  function Total(memUpper: nat): (t: nat)
    ensures memUpper < 0x1_0000_0000 ==> Counts(memUpper, t)
  {
    var t := (memUpper + 1024) % 0x1_0000_0000 / 4;
    if t > MAX_PAGES then MAX_PAGES else t
  }

  /** A machine with 128 MB, of which 129920 KB are reported. */
  lemma {:induction false} CommonMachine()
    ensures Total(129920) == 32736
  {
  }

  /** A machine with no memory above 1 MB: the kernel, which is linked at 2 MB, ends beyond it. */
  lemma {:induction false} TooSmall()
    ensures Total(0) == 256 < 0x20_0000 / PAGE_SIZE
  {
  }
}
