/** kernel/elf.c: the loader, with the heap buffer it reads the file into and every exit path. */
module ElfLoader {
  import opened Bytes
  import opened FrameSpec
  import opened Pmm
  import opened Paging
  import opened WalkMemory
  import opened Vmm
  import opened ElfSpec
  import HeapSpec
  import HeapTheorems
  import HeapMemory
  import HeapStores
  import opened HeapView
  import KernelHeap

  /** How a load ends: code 0, code -1, or a page fault because a page could not be mapped. */
  datatype Outcome = Loaded(entry: u32) | Failed | Faulted

  /** How one segment ends. */
  datatype SegmentResult = Fine | OutOfFrames | PageFault

  /** The buffer shows the file's bytes. */
  ghost predicate Holds(s: Vm, buf: u32, file: seq<byte>)
    requires Has(s.mem, s.dir)
  {
    && buf + |file| <= WORD_LIMIT
    && forall v: u32 :: buf <= v < buf + |file| ==> VByte(s, v) == Some(file[v - buf])
  }

  class Loader {
    const vm: KernelVm
    const heap: KernelHeap.Heap

    /** The first page behind the kernel, as `pmm_init` is told. */
    const kernelEnd: nat

    constructor (v: KernelVm, h: KernelHeap.Heap, end: nat)
      ensures vm == v && heap == h && kernelEnd == end
    {
      vm, heap, kernelEnd := v, h, end;
    }

    /** Whether every page of the `n` bytes from `dst` on is among `P`. */
    ghost predicate Covered(dst: u32, n: nat, P: set<nat>) {
      forall v: int :: dst <= v < dst + n ==> v / 4096 in P
    }

    /** Pages of the range are separate pages of `P`, or not mapped at all. */
    ghost predicate Usable(s: Vm, dst: u32, n: nat, P: set<nat>)
      requires Has(s.mem, s.dir)
    {
      && dst + n <= WORD_LIMIT
      && forall v: u32 :: dst <= v < dst + n ==> v / 4096 in P || FrameOf(s, v / 4096) == None
    }

    /** The bytes of the range are `data`; the rest of the pages of `P` reads as before. */
    ghost predicate Filled(s: Vm, t: Vm, dst: u32, data: seq<byte>, P: set<nat>)
      requires Has(s.mem, s.dir) && Has(t.mem, t.dir) && dst + |data| <= WORD_LIMIT
    {
      && (forall v: u32 :: dst <= v < dst + |data| ==> VByte(t, v) == Some(data[v - dst]))
      && (forall v: u32 :: v / 4096 in P && !(dst <= v < dst + |data|) ==> VByte(t, v) == VByte(s, v))
    }

    /** The pages of `P` read the same except for `n` bytes from `lo` on. */
    ghost predicate SameBut(s: Vm, t: Vm, lo: u32, n: nat, P: set<nat>)
      requires Has(s.mem, s.dir) && Has(t.mem, t.dir)
    {
      forall v: u32 :: v / 4096 in P && !(lo <= v < lo + n) ==> VByte(t, v) == VByte(s, v)
    }

    /** A copy that got as far as `data` has written nothing outside its range. */
    lemma {:induction false} FilledPart(s: Vm, t: Vm, dst: u32, data: seq<byte>, n: nat, P: set<nat>)
      requires Has(s.mem, s.dir) && Has(t.mem, t.dir) && dst + |data| <= WORD_LIMIT
      requires Filled(s, t, dst, data, P) && |data| <= n
      ensures SameBut(s, t, dst, n, P)
    {
      hide VByte;
    }

    /** One byte of a copy or a fill: stored, or a fault on a page that is not mapped. */
    method Put(v: u32, b: byte, ghost s: Vm, ghost dst: u32, ghost data: seq<byte>, ghost P: set<nat>)
      returns (ok: bool)
      requires vm.Valid() && VmOk(s) && SameTables(s, vm.State()) && Separate(vm.State(), P)
      requires v == dst + |data| && (v / 4096 in P || FrameOf(s, v / 4096) == None)
      requires Filled(s, vm.State(), dst, data, P) && Covered(dst, |data|, P)
      modifies vm
      ensures vm.Valid() && SameTables(s, vm.State()) && Separate(vm.State(), P)
      ensures ok == (v / 4096 in P)
      ensures ok ==> Filled(s, vm.State(), dst, data + [b], P)
      ensures !ok ==> Filled(s, vm.State(), dst, data, P)
    {
      hide VByte, FrameOf, VmOk, VStore, Pde, Owned;
      ghost var u := vm.State();
      if v / 4096 in P {
        StoreStep(u, P, v, b);
      } else {
        Unmapped(u, v);
      }
      ok := vm.StoreByte(v, b);
      if ok {
        assert forall w: u32 :: dst <= w < dst + |data| ==> w / 4096 in P;
      }
    }

    lemma {:induction false} Unmapped(s: Vm, v: u32)
      requires Has(s.mem, s.dir) && FrameOf(s, v / 4096) == None
      ensures VByte(s, v) == None
    {
    }

    /** Bytes stored one after the other, up to a page that is not mapped. */
    method StoreAll(dst: u32, data: seq<byte>, ghost P: set<nat>) returns (ok: bool)
      requires vm.Valid() && Separate(vm.State(), P) && Usable(vm.State(), dst, |data|, P)
      modifies vm
      ensures vm.Valid() && SameTables(old(vm.State()), vm.State()) && Separate(vm.State(), P)
      ensures ok <==> Covered(dst, |data|, P)
      ensures ok ==> Filled(old(vm.State()), vm.State(), dst, data, P)
      ensures SameBut(old(vm.State()), vm.State(), dst, |data|, P)
    {
      hide VByte, FrameOf, VmOk, Pde, Owned;
      ghost var s := vm.State();
      var i := 0;
      while i < |data|
        invariant 0 <= i <= |data|
        invariant vm.Valid() && SameTables(s, vm.State()) && Separate(vm.State(), P)
        invariant Filled(s, vm.State(), dst, data[..i], P)
        invariant Covered(dst, i, P)
      {
        assert data[..i + 1] == data[..i] + [data[i]];
        var stored := Put(dst + i, data[i], s, dst, data[..i], P);
        if !stored {
          FilledPart(s, vm.State(), dst, data[..i], |data|, P);
          assert dst <= dst + i < dst + |data|;
          return false;
        }
        i := i + 1;
      }
      assert data[..i] == data;
      ok := true;
    }

    /** The copy into the buffer that `fs_read` makes. */
    method FillBuffer(buf: u32, file: seq<byte>, ghost P: set<nat>)
      requires vm.Valid() && Separate(vm.State(), P) && buf + |file| <= WORD_LIMIT && Covered(buf, |file|, P)
      modifies vm
      ensures vm.Valid() && SameTables(old(vm.State()), vm.State()) && Separate(vm.State(), P)
      ensures Filled(old(vm.State()), vm.State(), buf, file, P) && Holds(vm.State(), buf, file)
    {
      hide VByte, FrameOf, VmOk, Pde, Separate, SameTables;
      var ok := StoreAll(buf, file, P);
    }

    /** `elf_memcpy` from the buffer to the segment. */
    method Memcpy(dst: u32, src: u32, n: nat, ghost data: seq<byte>, ghost P: set<nat>) returns (ok: bool)
      requires vm.Valid() && Separate(vm.State(), P) && |data| == n && Usable(vm.State(), dst, n, P)
      requires src + n <= WORD_LIMIT && Covered(src, n, P) && Holds(vm.State(), src, data)
      requires src + n <= dst || dst + n <= src
      modifies vm
      ensures vm.Valid() && SameTables(old(vm.State()), vm.State()) && Separate(vm.State(), P)
      ensures ok <==> Covered(dst, n, P)
      ensures ok ==> Filled(old(vm.State()), vm.State(), dst, data, P)
      ensures SameBut(old(vm.State()), vm.State(), dst, n, P)
    {
      hide VByte, FrameOf, VmOk, Pde, Owned;
      ghost var s := vm.State();
      var i := 0;
      while i < n
        invariant 0 <= i <= n
        invariant vm.Valid() && SameTables(s, vm.State()) && Separate(vm.State(), P)
        invariant Filled(s, vm.State(), dst, data[..i], P)
        invariant Covered(dst, i, P)
      {
        assert src <= src + i < src + n;
        var b := vm.LoadByte(src + i);
        assert b == Some(data[i]);
        assert data[..i + 1] == data[..i] + [data[i]];
        var stored := Put(dst + i, b.value, s, dst, data[..i], P);
        if !stored {
          FilledPart(s, vm.State(), dst, data[..i], n, P);
          assert dst <= dst + i < dst + n;
          return false;
        }
        i := i + 1;
      }
      assert data[..i] == data;
      ok := true;
    }

    /** `elf_memset` with 0. */
    method Memset(dst: u32, n: nat, ghost P: set<nat>) returns (ok: bool)
      requires vm.Valid() && Separate(vm.State(), P) && Usable(vm.State(), dst, n, P)
      modifies vm
      ensures vm.Valid() && SameTables(old(vm.State()), vm.State()) && Separate(vm.State(), P)
      ensures ok <==> Covered(dst, n, P)
      ensures ok ==> Filled(old(vm.State()), vm.State(), dst, seq(n, _ => 0), P)
      ensures SameBut(old(vm.State()), vm.State(), dst, n, P)
    {
      hide VByte, FrameOf, VmOk, Pde, Owned;
      ghost var s := vm.State();
      ghost var data: seq<byte> := seq(n, _ => 0);
      var i := 0;
      while i < n
        invariant 0 <= i <= n
        invariant vm.Valid() && SameTables(s, vm.State()) && Separate(vm.State(), P)
        invariant Filled(s, vm.State(), dst, data[..i], P)
        invariant Covered(dst, i, P)
      {
        assert data[..i + 1] == data[..i] + [0];
        var stored := Put(dst + i, 0, s, dst, data[..i], P);
        if !stored {
          FilledPart(s, vm.State(), dst, data[..i], n, P);
          assert dst <= dst + i < dst + n;
          return false;
        }
        i := i + 1;
      }
      assert data[..i] == data;
      ok := true;
    }

    // ---------- one segment ----------

    /** One pass of the mapping loop: take a frame, map it. `vmm_map` gives up silently when the page has no
        table and there is no frame left for one; the page then stays unmapped. */
    method MapOne(virt: u32, ghost Q: set<nat>, ghost K: set<nat>) returns (got: bool, ghost can: bool)
      requires vm.Valid() && Separate(vm.State(), Q) && virt / 4096 !in Q && virt / 4096 !in K
      requires Pinned(vm.State(), K) && PageTable(vm.State().frames, Dirs(vm.State()), virt / 4096) <= K
      modifies vm, vm.pmm, vm.pmm.bitmap
      ensures vm.Valid() && Pinned(vm.State(), K)
      ensures vm.State().frames == FramesNext(old(vm.State()).frames, Dirs(old(vm.State())), virt / 4096)
      ensures OpensUp(old(vm.State()), vm.State(), if got && can then {virt / 4096} else {})
      ensures
        var s, t, page := old(vm.State()), vm.State(), virt / 4096;
        var d := page / 1024;
        && (got <==> FreeCount(s.frames) > 0)
        && (!got ==> t == s)
        && (got ==> (can <==> d in Dirs(s) || FreeCount(s.frames) > 1))
        && SameMap(s, t, if got && can then {page} else {})
        && (got && can ==>
              && Separate(t, Q + {page}) && SameOn(s, t, Q) && Dirs(t) == Dirs(s) + {d}
              && FreeCount(t.frames) == FreeCount(s.frames) - 1 - (if d in Dirs(s) then 0 else 1))
        && (got && !can ==>
              Separate(t, Q) && SameOn(s, t, Q) && FreeCount(t.frames) == 0 && FrameOf(t, page) == None)
    {
      hide VByte, FrameOf, VmOk, Pde, Owned, MapOn, FreeFrom, Bit, Lowest, Alloc, FreeCount, Present, Separate, SameOn,
           Dirs, Pinned, TableReach, SameMap, PageTable, FramesNext, OpensUp;
      ghost var s, page := vm.State(), virt / 4096;
      LowestFacts(s.frames);
      AddressIs(s.frames);
      var phys := vm.pmm.Allocate();
      if phys == 0 {
        TakenNothing(s, page);
        SameMapSelf(s);
        OpensSelf(s);
        return false, false;
      }
      MapOneFacts(s, Q, page);
      can := CanMap(Taken(s), page);
      PinnedTaken(s, K);
      TakenOk(s);
      TableOfPage(s.frames, Dirs(s), page, K);
      PinnedReach(Taken(s), K, page / 1024);
      PinnedMap(Taken(s), K, page, phys / 4096, 7);
      OpensTaken(s);
      MapOpens(Taken(s), page, phys / 4096);
      OpensTwice(s, Taken(s), MapOn(Taken(s), page, phys / 4096, 7), {}, if can then {page} else {});
      assert (if can then {} + {page} else {} + {}) == if can then {page} else {};
      vm.Map(virt, phys, 7);
      got := true;
    }

    lemma {:induction false} TableOfPage(f: Frames, have: set<nat>, page: nat, K: set<nat>)
      requires PageTable(f, have, page) <= K
      ensures TableIn(Alloc(f), have, page / 1024, K)
    {
    }

    lemma {:induction false} OpensSelf(s: Vm)
      requires Has(s.mem, s.dir)
      ensures OpensUp(s, s, {})
    {
    }

    lemma {:induction false} SameMapSelf(s: Vm)
      requires Has(s.mem, s.dir)
      ensures SameMap(s, s, {})
    {
    }

    /** What that pass does to the state. */
    lemma {:induction false} MapOneFacts(s: Vm, Q: set<nat>, page: nat)
      requires VmOk(s) && Separate(s, Q) && page !in Q && page < 0x10_0000 && HasFree(s.frames)
      ensures VmOk(Taken(s)) && Lowest(s.frames) < 0x10_0000
      ensures
        var t := MapOn(Taken(s), page, Lowest(s.frames), 7);
        var d := page / 1024;
        && VmOk(t) && SameMap(s, t, if CanMap(Taken(s), page) then {page} else {})
        && t.frames == FramesNext(s.frames, Dirs(s), page)
        && (CanMap(Taken(s), page) <==> d in Dirs(s) || FreeCount(s.frames) > 1)
        && (CanMap(Taken(s), page) ==>
              && Separate(t, Q + {page}) && SameOn(s, t, Q) && Dirs(t) == Dirs(s) + {d}
              && FreeCount(t.frames) == FreeCount(s.frames) - 1 - (if d in Dirs(s) then 0 else 1))
        && (!CanMap(Taken(s), page) ==>
              Separate(t, Q) && SameOn(s, t, Q) && FreeCount(t.frames) == 0 && FrameOf(t, page) == None)
    {
      hide VByte, FrameOf, VmOk, Pde, Owned, FreeFrom, Lowest, Alloc, FreeCount, Present, Separate, SameOn, Dirs;
      var w := Taken(s);
      LowestFacts(s.frames);
      AddressIs(s.frames);
      TakenOk(s);
      LowestFacts(w.frames);
      DirsTell(w, page);
      MapDirs(w, page, Lowest(s.frames), 7);
      AllocNothing(w.frames);
      MapCorrect(w, page, Lowest(s.frames), 7);
      if CanMap(w, page) {
        MapStep(s, Q, page);
        MapCost(s, page);
      } else {
        GivesUp(s, w, page, Q);
      }
    }

    /** The loop that allocates and maps the pages of a segment. `mapped` counts the pages in place. */
    method MapPages(vaddr: u32, pages: nat, ghost P: set<nat>, ghost K: set<nat>)
      returns (ok: bool, ghost mapped: nat)
      requires vm.Valid() && Separate(vm.State(), P) && vaddr % 4096 == 0
      requires vaddr / 4096 + pages <= 0x10_0000 && Pages(vaddr / 4096, pages) * P == {}
      requires Pages(vaddr / 4096, pages) * K == {}
      requires Pinned(vm.State(), K) && TablesFor(vm.State().frames, Dirs(vm.State()), vaddr / 4096, pages) <= K
      modifies vm, vm.pmm, vm.pmm.bitmap
      ensures vm.Valid() && mapped <= pages && Pinned(vm.State(), K)
      ensures
        var s, t, first := old(vm.State()), vm.State(), vaddr / 4096;
        && Separate(t, P + Pages(first, mapped)) && SameOn(s, t, P)
        && SameMap(s, t, Pages(first, mapped)) && OpensUp(s, t, Pages(first, mapped))
        && Cost(Dirs(s), first, mapped) <= FreeCount(s.frames)
        && (mapped < pages ==> Cost(Dirs(s), first, mapped + 1) > FreeCount(s.frames))
        && (mapped == pages <==> Cost(Dirs(s), first, pages) <= FreeCount(s.frames))
        && (ok && mapped < pages <==> Faults(Dirs(s), first, pages, FreeCount(s.frames)))
        && (mapped == pages ==> ok && Dirs(t) == Dirs(s) + DirsOf(first, pages)
                                && FreeCount(t.frames) == FreeCount(s.frames) - Cost(Dirs(s), first, pages)
                                && t.frames == FramesAfter(s.frames, Dirs(s), first, pages))
        && (ok && mapped < pages ==> mapped == pages - 1 && FrameOf(t, first + mapped) == None)
    {
      hide VByte, FrameOf, VmOk, Pde, Owned, Cost, Bit, Dirs, FreeCount, SameOn, Separate, Pages, DirsOf, Pinned,
           SameMap, TablesFor, FramesAfter, PageTable, FramesNext, Faults, OpensUp;
      ghost var s, first := vm.State(), vaddr / 4096;
      ghost var have, free := Dirs(s), FreeCount(s.frames);
      ghost var goal := FramesAfter(s.frames, have, first, pages);
      ghost var broken := false;
      mapped := 0;
      StartLoop(s, have, first, P);
      var p := 0;
      while p < pages
        invariant 0 <= p <= pages && mapped == (if broken then p - 1 else p) && mapped >= 0
        invariant vm.Valid() && SameOn(s, vm.State(), P)
        invariant Separate(vm.State(), P + Pages(first, mapped))
        invariant !broken ==> Dirs(vm.State()) == have + DirsOf(first, p)
        invariant !broken ==> FreeCount(vm.State().frames) == free - Cost(have, first, p) >= 0
        invariant broken ==> FreeCount(vm.State().frames) == 0 && FrameOf(vm.State(), first + p - 1) == None
        invariant broken ==> Cost(have, first, p) > free
        invariant broken ==> Faults(have, first, p, free)
        invariant Cost(have, first, mapped) <= free && SameMap(s, vm.State(), Pages(first, mapped))
        invariant Pinned(vm.State(), K) && OpensUp(s, vm.State(), Pages(first, mapped))
        invariant TablesFor(vm.State().frames, Dirs(vm.State()), first + p, pages - p) <= K
        invariant !broken ==> FramesAfter(vm.State().frames, Dirs(vm.State()), first + p, pages - p) == goal
      {
        ghost var u := vm.State();
        CostStep(have, first, p);
        CostGrows(have, first, p + 1, pages);
        CostGrows(have, first, p, pages);
        PageAddress(vaddr, p);
        ghost var Q := P + Pages(first, mapped);
        NotInBoth(first + p, Pages(first, pages), P);
        NotInBoth(first + p, Pages(first, pages), K);
        NextTables(u.frames, Dirs(u), first + p, pages - p);
        var got;
        ghost var can;
        got, can := MapOne(vaddr + p * 4096, Q, K);
        if !got {
          CostGrows(have, first, p, pages - 1);
          NotLast(have, first, pages, free);
          return false, mapped;
        }
        LastFrame(have, first, p, free);
        NothingLeft(vm.State(), first + p + 1, pages - p - 1);
        SameOnTwice(s, u, vm.State(), P, Q);
        NextPage(P, first, p, have);
        SameMapTwice(s, u, vm.State(), Pages(first, mapped), if can then {first + p} else {},
                     Pages(first, if can then p + 1 else mapped));
        OpensTwice(s, u, vm.State(), Pages(first, mapped), if can then {first + p} else {});
        assert Pages(first, mapped) + {} == Pages(first, mapped);
        broken := !can;
        mapped := if can then p + 1 else p;
        p := p + 1;
      }
      FramesDone(vm.State(), first + pages);
      if !broken {
        NoFault(have, first, pages, free);
      }
      ok := true;
    }

    /** One page of the sequence. */
    lemma {:induction false} NextTables(f: Frames, have: set<nat>, page: nat, n: nat)
      requires n > 0
      ensures PageTable(f, have, page) <= TablesFor(f, have, page, n)
      ensures
        var f', have' := FramesNext(f, have, page), have + {page / 1024};
        && TablesFor(f', have', page + 1, n - 1) <= TablesFor(f, have, page, n)
        && FramesAfter(f', have', page + 1, n - 1) == FramesAfter(f, have, page, n)
    {
      hide PageTable, FramesNext;
    }

    lemma {:induction false} FramesDone(s: Vm, page: nat)
      requires Has(s.mem, s.dir)
      ensures FramesAfter(s.frames, Dirs(s), page, 0) == s.frames
    {
    }

    lemma {:induction false} NothingLeft(s: Vm, page: nat, n: nat)
      requires VmOk(s)
      ensures FreeCount(s.frames) == 0 ==> TablesFor(s.frames, Dirs(s), page, n) == {}
    {
      hide FreeCount, TablesFor, Dirs;
      LowestFacts(s.frames);
      if !HasFree(s.frames) {
        NoTablesLeft(s.frames, Dirs(s), page, n);
      }
    }

    /** The frames ran out before the last page. */
    lemma {:induction false} NotLast(have: set<nat>, first: nat, pages: nat, free: int)
      requires pages > 0 && free <= Cost(have, first, pages - 1)
      ensures !Faults(have, first, pages, free)
    {
    }

    /** The frame for page `p` is the last, and a table is missing. */
    lemma {:induction false} LastFrame(have: set<nat>, first: nat, p: nat, free: int)
      ensures free == Cost(have, first, p) + 1 && (first + p) / 1024 !in have + DirsOf(first, p) ==>
              Faults(have, first, p + 1, free)
    {
    }

    /** Frames enough for all pages leave none missing. */
    lemma {:induction false} NoFault(have: set<nat>, first: nat, pages: nat, free: int)
      requires Cost(have, first, pages) <= free
      ensures !Faults(have, first, pages, free)
    {
      hide Cost, DirsOf;
      if pages > 0 {
        CostStep(have, first, pages - 1);
      }
    }

    lemma {:induction false} StartLoop(s: Vm, have: set<nat>, first: nat, P: set<nat>)
      requires VmOk(s)
      ensures P + Pages(first, 0) == P && have + DirsOf(first, 0) == have && Cost(have, first, 0) == 0
      ensures SameOn(s, s, P) && FreeCount(s.frames) >= 0 && SameMap(s, s, Pages(first, 0))
      ensures OpensUp(s, s, Pages(first, 0))
    {
      LowestFacts(s.frames);
    }

    lemma {:induction false} NextPage(P: set<nat>, first: nat, p: nat, have: set<nat>)
      ensures (P + Pages(first, p)) + {first + p} == P + Pages(first, p + 1)
      ensures Pages(first, p) + {first + p} == Pages(first, p + 1)
      ensures have + DirsOf(first, p + 1) == have + DirsOf(first, p) + {(first + p) / 1024}
    {
    }

    lemma {:induction false} AddressIs(f: Frames)
      requires Ok(f)
      ensures HasFree(f) <==> Address(f) != 0
      ensures HasFree(f) ==> Address(f) == Lowest(f) * 4096 && Lowest(f) < 0x10_0000
    {
      LowestFacts(f);
    }

    lemma {:induction false} PageAddress(vaddr: u32, p: nat)
      requires vaddr % 4096 == 0 && vaddr / 4096 + p < 0x10_0000
      ensures vaddr + p * 4096 < WORD_LIMIT && (vaddr + p * 4096) / 4096 == vaddr / 4096 + p
    {
    }

    lemma {:induction false} TakenNothing(s: Vm, page: nat)
      requires Has(s.mem, s.dir) && !HasFree(s.frames)
      ensures Alloc(s.frames) == s.frames && FramesNext(s.frames, Dirs(s), page) == s.frames
    {
      hide FreeFrom;
    }

    lemma {:induction false} AllocNothing(f: Frames)
      ensures !HasFree(f) ==> Alloc(f) == f
    {
      hide FreeFrom;
    }

    lemma {:induction false} DirsTell(s: Vm, page: nat)
      requires VmOk(s) && page < 0x10_0000
      ensures CanMap(s, page) <==> page / 1024 in Dirs(s) || HasFree(s.frames)
      ensures page / 1024 !in Dirs(s) ==> FrameOf(s, page) == None
    {
      hide Pde;
    }

    lemma {:induction false} SameOnTwice(s: Vm, u: Vm, t: Vm, P: set<nat>, Q: set<nat>)
      requires Has(s.mem, s.dir) && Has(u.mem, u.dir) && Has(t.mem, t.dir)
      requires SameOn(s, u, P) && SameOn(u, t, Q) && P <= Q
      ensures SameOn(s, t, P)
    {
      hide VByte;
    }

    /** A frame taken but not mapped leaves the pages as they were. */
    lemma {:induction false} GivesUp(u: Vm, w: Vm, page: nat, Q: set<nat>)
      requires VmOk(u) && w == Taken(u) && Separate(u, Q) && page < 0x10_0000
      ensures Has(w.mem, w.dir) && Separate(w, Q) && SameOn(u, w, Q)
    {
      hide FrameOf, VmOk, IsTable;
      LowestFacts(u.frames);
      TakenOk(u);
      forall p | p in Q ensures Owned(w, p) {
        assert Owned(u, p);
      }
      forall v: u32 | v / 4096 in Q ensures VByte(w, v) == VByte(u, v) {
        SameWalk(u, w, v);
      }
    }

    lemma {:induction false} NotInBoth(x: nat, A: set<nat>, B: set<nat>)
      requires A * B == {} && x in A
      ensures x !in B
    {
      var both := A * B;
      assert x in both <==> x in B;
    }

    /** The part of the buffer a segment is copied from. */
    lemma {:induction false} HoldsPart(s: Vm, buf: u32, file: seq<byte>, o: nat, n: nat)
      requires Has(s.mem, s.dir) && Holds(s, buf, file) && o + n <= |file| && buf + o < WORD_LIMIT
      ensures Holds(s, buf + o, file[o..o + n])
    {
      hide VByte;
      var data := file[o..o + n];
      forall v: u32 | buf + o <= v < buf + o + n ensures VByte(s, v) == Some(data[v - (buf + o)]) {
        assert file[v - buf] == data[v - (buf + o)];
      }
    }

    lemma {:induction false} HoldsKept(s: Vm, t: Vm, buf: u32, file: seq<byte>, P: set<nat>)
      requires Has(s.mem, s.dir) && Has(t.mem, t.dir) && Holds(s, buf, file) && SameOn(s, t, P)
      requires Covered(buf, |file|, P)
      ensures Holds(t, buf, file)
    {
      hide VByte;
      forall v: u32 | buf <= v < buf + |file| ensures VByte(t, v) == Some(file[v - buf]) {
        assert v / 4096 in P;
      }
    }

    /** Ranges on disjoint pages do not meet. */
    lemma {:induction false} RangesApart(src: u32, dst: u32, n: nat, P: set<nat>, S: set<nat>)
      requires Covered(src, n, P) && Covered(dst, n, S) && S * P == {}
      ensures src + n <= dst || dst + n <= src
    {
      if src < dst + n && dst < src + n {
        var v := if src < dst then dst else src;
        assert src <= v < src + n && dst <= v < dst + n;
        NotInBoth(v / 4096, S, P);
        assert false;
      }
    }

    /** The bytes of a segment lie on its pages; its last page holds some of them. */
    lemma {:induction false} SegmentSpan(g: Segment)
      requires g.vaddr % 4096 == 0 && g.memSize + 4095 < WORD_LIMIT && g.vaddr + g.memSize <= WORD_LIMIT
      ensures g.vaddr / 4096 + PageCount(g) <= 0x10_0000
      ensures Covered(g.vaddr, g.memSize, SegmentPages(g))
      ensures PageCount(g) > 0 ==> g.vaddr + 4096 * (PageCount(g) - 1) < g.vaddr + g.memSize
      ensures forall v: int :: g.vaddr <= v < g.vaddr + g.memSize ==>
        v / 4096 < g.vaddr / 4096 + PageCount(g) && v / 4096 >= g.vaddr / 4096
    {
    }

    /** One loadable segment: map its pages, copy the file part, zero the rest. It succeeds exactly when there
        are frames for its pages and for the tables they lack. */
    method LoadSegment(g: Segment, buf: u32, ghost file: seq<byte>, ghost P: set<nat>, ghost K: set<nat>)
      returns (r: SegmentResult)
      requires vm.Valid() && Separate(vm.State(), P) && Fits(g, |file|, P) && SegmentPages(g) * K == {}
      requires Holds(vm.State(), buf, file) && Covered(buf, |file|, P) && buf + |file| < WORD_LIMIT
      requires Pinned(vm.State(), K)
      requires TablesFor(vm.State().frames, Dirs(vm.State()), g.vaddr / 4096, PageCount(g)) <= K
      modifies vm, vm.pmm, vm.pmm.bitmap
      ensures vm.Valid() && Separate(vm.State(), P) && SameOn(old(vm.State()), vm.State(), P)
      ensures Pinned(vm.State(), K) && SameMap(old(vm.State()), vm.State(), SegmentPages(g))
      ensures OpensUp(old(vm.State()), vm.State(), if r == Fine then SegmentPages(g) else {})
      ensures r == Fine <==>
        Cost(Dirs(old(vm.State())), g.vaddr / 4096, PageCount(g)) <= FreeCount(old(vm.State()).frames)
      ensures r == PageFault <==>
        Faults(Dirs(old(vm.State())), g.vaddr / 4096, PageCount(g), FreeCount(old(vm.State()).frames))
      ensures
        var s, t, first := old(vm.State()), vm.State(), g.vaddr / 4096;
        r == Fine ==>
          && Separate(t, P + SegmentPages(g)) && Shown(t, file, g)
          && Dirs(t) == Dirs(s) + DirsOf(first, PageCount(g))
          && FreeCount(t.frames) == FreeCount(s.frames) - Cost(Dirs(s), first, PageCount(g))
          && t.frames == FramesAfter(s.frames, Dirs(s), first, PageCount(g))
    {
      hide VByte, FrameOf, VmOk, Pde, Owned, Cost, Bit, Dirs, FreeCount, Separate, DirsOf, Alloc, Holds, SameOn, Pages,
           Shown, Pinned, SameMap, SameBut, Faults, TablesFor, FramesAfter, OpensUp;
      ghost var s := vm.State();
      SegmentSpan(g);
      var pages := (g.memSize + 4095) % WORD_LIMIT / 4096;
      ghost var mapped;
      var ok;
      ok, mapped := MapPages(g.vaddr, pages, P, K);
      FewerPages(g.vaddr / 4096, mapped, pages);
      SameMapMore(s, vm.State(), Pages(g.vaddr / 4096, mapped), SegmentPages(g));
      if !ok {
        SeparateFewer(vm.State(), P, P + Pages(g.vaddr / 4096, mapped));
        OpensFewer(s, vm.State(), {}, Pages(g.vaddr / 4096, mapped));
        return OutOfFrames;
      }
      ghost var u := vm.State();
      HoldsKept(s, u, buf, file, P);
      ok := FillSegment(g, buf, file, P, mapped);
      SameDirs(u, vm.State());
      SameOnTwice(s, u, vm.State(), P, P);
      SeparateFewer(vm.State(), P, P + Pages(g.vaddr / 4096, mapped));
      PinnedSame(u, vm.State(), K);
      TablesSameMap(s, u, vm.State(), SegmentPages(g));
      OpensSame(u, vm.State());
      OpensTwice(s, u, vm.State(), Pages(g.vaddr / 4096, mapped), {});
      OpensFewer(s, vm.State(), if ok then SegmentPages(g) else {}, Pages(g.vaddr / 4096, mapped) + {});
      r := if ok then Fine else PageFault;
    }

    lemma {:induction false} OpensFewer(s: Vm, t: Vm, P: set<nat>, Q: set<nat>)
      requires Has(s.mem, s.dir) && Has(t.mem, t.dir) && OpensUp(s, t, Q) && P <= Q
      ensures OpensUp(s, t, P)
    {
      hide OpenPage, DirsOpen;
    }

    lemma {:induction false} FewerPages(first: nat, n: nat, m: nat)
      requires n <= m
      ensures Pages(first, n) <= Pages(first, m)
    {
    }

    lemma {:induction false} SameMapMore(s: Vm, t: Vm, P: set<nat>, Q: set<nat>)
      requires Has(s.mem, s.dir) && Has(t.mem, t.dir) && SameMap(s, t, P) && P <= Q
      ensures SameMap(s, t, Q)
    {
      hide FrameOf;
    }

    lemma {:induction false} TablesSameMap(s: Vm, u: Vm, t: Vm, Q: set<nat>)
      requires Has(s.mem, s.dir) && Has(u.mem, u.dir) && Has(t.mem, t.dir) && SameMap(s, u, Q) && SameTables(u, t)
      ensures SameMap(s, t, Q)
    {
      hide FrameOf, Pde;
    }

    lemma {:induction false} SeparateFewer(s: Vm, P: set<nat>, Q: set<nat>)
      requires Has(s.mem, s.dir) && Separate(s, Q) && P <= Q
      ensures Separate(s, P)
    {
      hide Owned, FrameOf;
    }

    /** The first `mapped` pages of the segment are in place, and at most the last one is missing. */
    ghost predicate Placed(s: Vm, g: Segment, mapped: nat)
      requires Has(s.mem, s.dir)
    {
      mapped == PageCount(g)
      || (mapped == PageCount(g) - 1 && g.vaddr / 4096 + mapped < 0x10_0000
          && FrameOf(s, g.vaddr / 4096 + mapped) == None)
    }

    /** The copy of the file part. */
    method CopyPart(g: Segment, buf: u32, ghost file: seq<byte>, ghost P: set<nat>, ghost mapped: nat)
      returns (ok: bool)
      requires vm.Valid() && Separate(vm.State(), P + Pages(g.vaddr / 4096, mapped)) && Fits(g, |file|, P)
      requires Holds(vm.State(), buf, file) && Covered(buf, |file|, P) && buf + |file| < WORD_LIMIT
      requires Placed(vm.State(), g, mapped)
      modifies vm
      ensures vm.Valid() && SameTables(old(vm.State()), vm.State()) && SameOn(old(vm.State()), vm.State(), P)
      ensures Separate(vm.State(), P + Pages(g.vaddr / 4096, mapped))
      ensures !ok ==> mapped != PageCount(g)
      ensures ok ==>
        var Q := P + Pages(g.vaddr / 4096, mapped);
        && Covered(g.vaddr, g.fileSize, Q)
        && Filled(old(vm.State()), vm.State(), g.vaddr, file[g.offset..g.offset + g.fileSize], Q)
    {
      hide VByte, FrameOf, VmOk, Pde, Owned, Bit, Separate, Pages, Filled, SameOn, SameBut;
      ghost var u := vm.State();
      ghost var Q := P + Pages(g.vaddr / 4096, mapped);
      SegmentSpan(g);
      HoldsPart(u, buf, file, g.offset, g.fileSize);
      RangesApart(buf + g.offset, g.vaddr, g.fileSize, P, SegmentPages(g));
      UsableRange(u, g, 0, g.fileSize, mapped, Q);
      ok := Memcpy(g.vaddr, buf + g.offset, g.fileSize, file[g.offset..g.offset + g.fileSize], Q);
      OutsideSegment(u, vm.State(), g, 0, g.fileSize, P, Q);
      if !ok {
        NotCovered(g, mapped, P, Q, 0, g.fileSize);
      }
    }

    /** The zero fill behind it. */
    method ZeroPart(g: Segment, ghost P: set<nat>, ghost mapped: nat) returns (ok: bool)
      requires vm.Valid() && Separate(vm.State(), P + Pages(g.vaddr / 4096, mapped))
      requires Fits(g, g.offset + g.fileSize, P) && Placed(vm.State(), g, mapped) && g.memSize > g.fileSize
      modifies vm
      ensures vm.Valid() && SameTables(old(vm.State()), vm.State()) && SameOn(old(vm.State()), vm.State(), P)
      ensures Separate(vm.State(), P + Pages(g.vaddr / 4096, mapped))
      ensures !ok ==> mapped != PageCount(g)
      ensures ok ==>
        var Q := P + Pages(g.vaddr / 4096, mapped);
        && g.vaddr + g.fileSize < WORD_LIMIT && Covered(g.vaddr + g.fileSize, g.memSize - g.fileSize, Q)
        && Filled(old(vm.State()), vm.State(), g.vaddr + g.fileSize, seq(g.memSize - g.fileSize, _ => 0), Q)
    {
      hide VByte, FrameOf, VmOk, Pde, Owned, Bit, Separate, Pages, Filled, SameOn, SameBut;
      ghost var w := vm.State();
      ghost var Q := P + Pages(g.vaddr / 4096, mapped);
      SegmentSpan(g);
      UsableRange(w, g, g.fileSize, g.memSize - g.fileSize, mapped, Q);
      ok := Memset(g.vaddr + g.fileSize, g.memSize - g.fileSize, Q);
      OutsideSegment(w, vm.State(), g, g.fileSize, g.memSize - g.fileSize, P, Q);
      if !ok {
        NotCovered(g, mapped, P, Q, g.fileSize, g.memSize - g.fileSize);
      }
    }

    lemma {:induction false} StillPlaced(s: Vm, t: Vm, g: Segment, mapped: nat)
      requires Has(s.mem, s.dir) && Has(t.mem, t.dir) && SameTables(s, t) && Placed(s, g, mapped)
      ensures Placed(t, g, mapped)
    {
      hide FrameOf, Pde;
    }

    /** The copy and the zero fill of a segment whose first `mapped` pages are in place: a page fault exactly
        when one page is missing. */
    method FillSegment(g: Segment, buf: u32, ghost file: seq<byte>, ghost P: set<nat>, ghost mapped: nat)
      returns (ok: bool)
      requires vm.Valid() && Separate(vm.State(), P + Pages(g.vaddr / 4096, mapped)) && Fits(g, |file|, P)
      requires Holds(vm.State(), buf, file) && Covered(buf, |file|, P) && buf + |file| < WORD_LIMIT
      requires Placed(vm.State(), g, mapped)
      modifies vm
      ensures vm.Valid() && SameTables(old(vm.State()), vm.State())
      ensures Separate(vm.State(), P + Pages(g.vaddr / 4096, mapped))
      ensures ok <==> mapped == PageCount(g)
      ensures SameOn(old(vm.State()), vm.State(), P)
      ensures ok ==> Shown(vm.State(), file, g)
    {
      hide VByte, FrameOf, VmOk, Pde, Bit, Separate, Pages, Filled, SameOn, Shown, Placed, Holds, Covered;
      ghost var u := vm.State();
      ok := CopyPart(g, buf, file, P, mapped);
      ghost var w := vm.State();
      StillPlaced(u, w, g, mapped);
      if !ok {
        return false;
      }
      if g.memSize > g.fileSize {
        ok := ZeroPart(g, P, mapped);
        SameOnTwice(u, w, vm.State(), P, P);
        if !ok {
          return false;
        }
      }
      PlacedCount(w, g, mapped);
      AllCovered(g, mapped, P, P + Pages(g.vaddr / 4096, mapped));
      SegmentShown(u, w, vm.State(), file, g, P);
    }

    lemma {:induction false} PlacedCount(s: Vm, g: Segment, mapped: nat)
      requires Has(s.mem, s.dir) && Placed(s, g, mapped)
      ensures mapped == PageCount(g) || mapped == PageCount(g) - 1
    {
    }

    /** Writing part of the segment changes nothing on other pages. */
    lemma {:induction false} OutsideSegment(s: Vm, t: Vm, g: Segment, from: nat, n: nat, P: set<nat>, Q: set<nat>)
      requires Has(s.mem, s.dir) && Has(t.mem, t.dir) && Fits(g, g.offset + g.fileSize, P) && P <= Q
      requires from + n <= g.memSize && g.vaddr + from < WORD_LIMIT && SameBut(s, t, g.vaddr + from, n, Q)
      ensures SameOn(s, t, P)
    {
      hide VByte, Pages;
      SegmentSpan(g);
      forall v: u32 | v / 4096 in P ensures VByte(t, v) == VByte(s, v) {
        if g.vaddr + from <= v < g.vaddr + from + n {
          NotInBoth(v / 4096, SegmentPages(g), P);
        }
      }
    }

    /** After mapping, a part of the segment lies on mapped pages of `Q` or on one page that is not mapped. */
    lemma {:induction false} UsableRange(s: Vm, g: Segment, from: nat, n: nat, mapped: nat, Q: set<nat>)
      requires Has(s.mem, s.dir) && g.vaddr % 4096 == 0
      requires g.memSize + 4095 < WORD_LIMIT && g.vaddr + g.memSize <= WORD_LIMIT
      requires from + n <= g.memSize && g.vaddr + from < WORD_LIMIT
      requires Pages(g.vaddr / 4096, mapped) <= Q
      requires mapped == PageCount(g)
               || (mapped == PageCount(g) - 1 && g.vaddr / 4096 + mapped < 0x10_0000
                   && FrameOf(s, g.vaddr / 4096 + mapped) == None)
      ensures Usable(s, g.vaddr + from, n, Q)
    {
      hide FrameOf, Pages;
      SegmentSpan(g);
    }

    /** A fault happens only when a page is missing. */
    lemma {:induction false} NotCovered(g: Segment, mapped: nat, P: set<nat>, Q: set<nat>, from: nat, n: nat)
      requires g.vaddr % 4096 == 0 && g.memSize + 4095 < WORD_LIMIT && g.vaddr + g.memSize <= WORD_LIMIT
      requires from + n <= g.memSize && g.vaddr + from < WORD_LIMIT && Q == P + Pages(g.vaddr / 4096, mapped)
      requires !Covered(g.vaddr + from, n, Q)
      ensures mapped != PageCount(g)
    {
      hide Pages;
      SegmentSpan(g);
    }

    /** Without a fault, every page is there. */
    lemma {:induction false} AllCovered(g: Segment, mapped: nat, P: set<nat>, Q: set<nat>)
      requires Fits(g, g.offset + g.fileSize, P) && Q == P + Pages(g.vaddr / 4096, mapped) && mapped <= PageCount(g)
      requires mapped == PageCount(g) || mapped == PageCount(g) - 1
      requires Covered(g.vaddr, g.fileSize, Q)
      requires g.memSize > g.fileSize ==>
        g.vaddr + g.fileSize < WORD_LIMIT && Covered(g.vaddr + g.fileSize, g.memSize - g.fileSize, Q)
      ensures mapped == PageCount(g)
    {
      hide Pages;
      SegmentSpan(g);
      if mapped == PageCount(g) - 1 {
        var v := g.vaddr + 4096 * mapped;
        assert v / 4096 == g.vaddr / 4096 + mapped;
        assert v / 4096 in Q;
        NotInBoth(v / 4096, SegmentPages(g), P);
        assert false;
      }
    }

    /** The copy and the fill together show the segment, and disturb no page outside it. */
    lemma {:induction false} SegmentShown(u: Vm, w: Vm, t: Vm, file: seq<byte>, g: Segment, P: set<nat>)
      requires Has(u.mem, u.dir) && Has(w.mem, w.dir) && Has(t.mem, t.dir) && Fits(g, |file|, P)
      requires Filled(u, w, g.vaddr, file[g.offset..g.offset + g.fileSize], P + SegmentPages(g))
      requires if g.memSize > g.fileSize
               then g.vaddr + g.fileSize < WORD_LIMIT
                    && Filled(w, t, g.vaddr + g.fileSize, seq(g.memSize - g.fileSize, _ => 0), P + SegmentPages(g))
               else t == w
      ensures Shown(t, file, g) && SameOn(u, t, P)
    {
      hide VByte, Pages;
      SegmentSpan(g);
      var data := file[g.offset..g.offset + g.fileSize];
      forall v: u32 | g.vaddr <= v < g.vaddr + g.memSize ensures VByte(t, v) == Some(Wanted(file, g, v - g.vaddr)) {
        assert v / 4096 in SegmentPages(g);
        if v < g.vaddr + g.fileSize {
          assert data[v - g.vaddr] == file[g.offset + (v - g.vaddr)];
        }
      }
      forall v: u32 | v / 4096 in P ensures VByte(t, v) == VByte(u, v) {
        if g.vaddr <= v < g.vaddr + g.memSize {
          NotInBoth(v / 4096, SegmentPages(g), P);
        }
      }
    }

    // ---------- the heap's pages ----------

    /** `heap_map_pages` for the heap's 1 MB: as many of its 256 pages as there are frames for, with their table,
        end up mapped to different frames of their own. */
    method MapHeap(ghost K: set<nat>) returns (ghost mapped: nat)
      requires vm.Valid() && HeapPages * K == {} && Pinned(vm.State(), K)
      requires TablesFor(vm.State().frames, Dirs(vm.State()), 0x1000, 0x100) <= K
      modifies vm, vm.pmm, vm.pmm.bitmap
      ensures vm.Valid() && Pinned(vm.State(), K) && mapped <= 0x100
      ensures
        var s, t := old(vm.State()), vm.State();
        && Separate(t, Pages(0x1000, mapped)) && SameMap(s, t, Pages(0x1000, mapped))
        && OpensUp(s, t, Pages(0x1000, mapped))
        && Cost(Dirs(s), 0x1000, mapped) <= FreeCount(s.frames)
        && (mapped < 0x100 ==> Cost(Dirs(s), 0x1000, mapped + 1) > FreeCount(s.frames))
        && (mapped == 0x100 ==> Dirs(t) == Dirs(s) + DirsOf(0x1000, 0x100)
                                && t.frames == FramesAfter(s.frames, Dirs(s), 0x1000, 0x100))
    {
      hide VmOk, Cost, Dirs, FreeCount, FrameOf, Owned, Pinned, DirsOf, SameMap, Faults, TablesFor, FramesAfter,
           OpensUp;
      assert Separate(vm.State(), {});
      assert Pages(0x1000, 0x100) == HeapPages;
      var ok;
      ok, mapped := MapPages(0x100_0000, 0x100, {}, K);
      assert {} + Pages(0x1000, mapped) == Pages(0x1000, mapped);
    }

    /** The header of one free block over the whole heap, as the walk shows it. */
    ghost predicate FirstHeader(s: Vm)
      requires Has(s.mem, s.dir)
    {
      HeapMemory.Header(HeapBytes(s), 0, HeapSpec.Block(HeapMemory.HEAP_SIZE - HeapSpec.HEADER, true), 0)
    }

    /** `heap_init` on pages not mapped before. It faults exactly when not even the first page could be mapped.
        Otherwise the header is in place, and the heap is in order exactly when there were frames for all of
        its pages and their table. */
    method HeapInit(ghost K: set<nat>) returns (ok: bool)
      requires heap.vm == vm && vm.Valid() && HeapPages * K == {} && Pinned(vm.State(), K)
      requires TablesFor(vm.State().frames, Dirs(vm.State()), 0x1000, 0x100) <= K
      requires forall p :: p in HeapPages ==> FrameOf(vm.State(), p) == None
      modifies heap, vm, vm.pmm, vm.pmm.bitmap
      ensures vm.Valid() && Pinned(vm.State(), K)
      ensures OpensUp(old(vm.State()), vm.State(), if heap.Valid() then HeapPages else {})
      ensures ok <==> Cost(Dirs(old(vm.State())), 0x1000, 1) <= FreeCount(old(vm.State()).frames)
      ensures ok ==> heap.head == HeapMemory.HEAP_START && FirstHeader(vm.State())
      ensures heap.Valid() <==> Cost(Dirs(old(vm.State())), 0x1000, 0x100) <= FreeCount(old(vm.State()).frames)
      ensures heap.Valid() ==>
        && heap.blocks == [HeapSpec.Block(HeapMemory.HEAP_SIZE - HeapSpec.HEADER, true)]
        && Dirs(vm.State()) == Dirs(old(vm.State())) + DirsOf(0x1000, 0x100)
        && vm.State().frames == FramesAfter(old(vm.State()).frames, Dirs(old(vm.State())), 0x1000, 0x100)
    {
      hide VmOk, Cost, Dirs, FreeCount, FrameOf, Owned, Pinned, Separate, HeapBytes, Pages, SameMap, VByte, DirsOf,
           Filled, U32Bytes, SameBut, HeapMemory.Lays, HeapMemory.Header, HeapSpec.Tight, Pde, TablesFor,
           FramesAfter, OpensUp;
      ghost var s := vm.State();
      ghost var mapped := MapHeap(K);
      ghost var t, P := vm.State(), Pages(0x1000, mapped);
      HeapCost(Dirs(s), mapped, FreeCount(s.frames));
      StillUnmapped(s, t, mapped);
      heap.head := HeapMemory.HEAP_START;
      heap.blocks := [HeapSpec.Block(HeapMemory.HEAP_SIZE - HeapSpec.HEADER, true)];
      InFirstPage(t, mapped, 0, 4);
      ok := StoreAll(HeapMemory.HEAP_START, U32Bytes(HeapMemory.HEAP_SIZE - HeapSpec.HEADER), P);
      ghost var t1 := vm.State();
      PinnedSame(t, t1, K);
      OpensSame(t, t1);
      OpensTwice(s, t, t1, P, {});
      OpensFewer(s, t1, {}, P + {});
      SameDirs(t, t1);
      StillPartial(t, t1, mapped);
      if !ok {
        return;
      }
      InFirstPage(t1, mapped, 4, 1);
      ok := StoreAll(HeapMemory.HEAP_START + 4, [1], P);
      ghost var t2 := vm.State();
      PinnedSame(t1, t2, K);
      OpensSame(t1, t2);
      OpensTwice(s, t1, t2, P + {}, {});
      SameDirs(t1, t2);
      StillPartial(t1, t2, mapped);
      InFirstPage(t2, mapped, 8, 4);
      ok := StoreAll(HeapMemory.HEAP_START + 8, U32Bytes(0), P);
      PinnedSame(t2, vm.State(), K);
      OpensSame(t2, vm.State());
      OpensTwice(s, t2, vm.State(), P + {} + {}, {});
      OpensFewer(s, vm.State(), P, P + {} + {} + {});
      OpensFewer(s, vm.State(), {}, P);
      SameDirs(t2, vm.State());
      StillPartial(t2, vm.State(), mapped);
      HeaderThere(t, t1, t2, vm.State(), P, mapped);
      if mapped == 0x100 {
        OneBlockLays(HeapBytes(vm.State()));
        WholeHeap();
      }
    }

    /** How far the frames reach decides which pages of the heap are mapped. */
    lemma {:induction false} HeapCost(have: set<nat>, mapped: nat, free: int)
      requires mapped <= 0x100 && Cost(have, 0x1000, mapped) <= free
      requires mapped < 0x100 ==> Cost(have, 0x1000, mapped + 1) > free
      ensures mapped > 0 <==> Cost(have, 0x1000, 1) <= free
      ensures mapped == 0x100 <==> Cost(have, 0x1000, 0x100) <= free
    {
      hide Cost;
      if mapped > 0 {
        CostGrows(have, 0x1000, 1, mapped);
      }
      if mapped < 0x100 {
        CostGrows(have, 0x1000, mapped + 1, 0x100);
      }
    }

    /** The page behind the mapped ones is missing. */
    ghost predicate Partial(s: Vm, mapped: nat)
      requires Has(s.mem, s.dir)
    {
      mapped < 0x100 ==> FrameOf(s, 0x1000 + mapped) == None
    }

    lemma {:induction false} StillUnmapped(s: Vm, t: Vm, mapped: nat)
      requires Has(s.mem, s.dir) && Has(t.mem, t.dir) && SameMap(s, t, Pages(0x1000, mapped)) && mapped <= 0x100
      requires forall p :: p in HeapPages ==> FrameOf(s, p) == None
      ensures Partial(t, mapped)
    {
      hide FrameOf, Pages;
      if mapped < 0x100 {
        assert 0x1000 + mapped in HeapPages;
      }
    }

    lemma {:induction false} StillPartial(s: Vm, t: Vm, mapped: nat)
      requires Has(s.mem, s.dir) && Has(t.mem, t.dir) && SameTables(s, t) && Partial(s, mapped)
      ensures Partial(t, mapped)
      ensures mapped < 0x100 ==> !Separate(t, HeapPages)
    {
      hide FrameOf, Pde;
      if mapped < 0x100 {
        assert 0x1000 + mapped in HeapPages && !Owned(t, 0x1000 + mapped);
      }
    }

    /** The first header lies on the first page. */
    lemma {:induction false} InFirstPage(s: Vm, mapped: nat, o: nat, n: nat)
      requires Has(s.mem, s.dir) && Partial(s, mapped) && mapped <= 0x100 && o + n <= 12 && n > 0
      ensures Usable(s, HeapMemory.HEAP_START + o, n, Pages(0x1000, mapped))
      ensures Covered(HeapMemory.HEAP_START + o, n, Pages(0x1000, mapped)) <==> mapped > 0
    {
      hide FrameOf, Pages;
      var v := HeapMemory.HEAP_START + o;
      assert forall w: int :: v <= w < v + n ==> w / 4096 == 0x1000;
      if Covered(v, n, Pages(0x1000, mapped)) {
        assert v / 4096 in Pages(0x1000, mapped);
      }
    }

    /** The three fields, once stored, make the header. */
    lemma {:induction false} HeaderThere(t: Vm, t1: Vm, t2: Vm, t3: Vm, P: set<nat>, mapped: nat)
      requires Has(t.mem, t.dir) && Has(t1.mem, t1.dir) && Has(t2.mem, t2.dir) && Has(t3.mem, t3.dir)
      requires mapped > 0 && P == Pages(0x1000, mapped)
      requires Filled(t, t1, HeapMemory.HEAP_START, U32Bytes(HeapMemory.HEAP_SIZE - HeapSpec.HEADER), P)
      requires Filled(t1, t2, HeapMemory.HEAP_START + 4, [1], P)
      requires Filled(t2, t3, HeapMemory.HEAP_START + 8, U32Bytes(0), P)
      ensures FirstHeader(t3)
    {
      hide VByte, Pages, U32Bytes, U32At;
      var m, size, z := HeapBytes(t3), U32Bytes(HeapMemory.HEAP_SIZE - HeapSpec.HEADER), U32Bytes(0);
      forall k | 0 <= k < 12 && !(5 <= k < 8)
        ensures m[k] == if k < 4 then size[k] else if k == 4 then 1 else z[k - 8]
      {
        var v: u32 := HeapMemory.HEAP_START + k;
        assert v / 4096 == 0x1000 && v / 4096 in P;
        assert m[k] == ByteOf(VByte(t3, v));
        if k < 8 {
          assert VByte(t3, v) == VByte(t2, v);
          assert k < 4 ==> VByte(t2, v) == VByte(t1, v);
        }
      }
      assert m[0..4] == size && m[8..12] == z;
      U32RoundTrip(HeapMemory.HEAP_SIZE - HeapSpec.HEADER, m, 0);
      U32RoundTrip(0, m, 8);
    }

    lemma {:induction false} OneBlockLays(m: seq<byte>)
      requires |m| == HeapMemory.HEAP_SIZE
      requires HeapMemory.Header(m, 0, HeapSpec.Block(HeapMemory.HEAP_SIZE - HeapSpec.HEADER, true), 0)
      ensures
        var bs := [HeapSpec.Block(HeapMemory.HEAP_SIZE - HeapSpec.HEADER, true)];
        HeapMemory.Lays(m, bs) && HeapSpec.Tight(bs)
    {
      hide U32At;
      var bs := [HeapSpec.Block(HeapMemory.HEAP_SIZE - HeapSpec.HEADER, true)];
      HeapSpec.LengthOne(bs[0]);
      assert bs[..0] == [];
      assert HeapMemory.HeaderOk(m, bs, 0);
    }

    lemma {:induction false} WholeHeap()
      ensures Pages(0x1000, 0x100) == HeapPages
    {
    }

    // ---------- the whole image ----------

    method Read32(a: u32, ghost buf: u32, ghost file: seq<byte>) returns (w: u32)
      requires vm.Valid() && Holds(vm.State(), buf, file) && buf <= a && a - buf + 4 <= |file|
      ensures w == U32At(file, a - buf)
    {
      hide VByte, VmOk;
      var b0 := vm.LoadByte(a);
      var b1 := vm.LoadByte(a + 1);
      var b2 := vm.LoadByte(a + 2);
      var b3 := vm.LoadByte(a + 3);
      w := U32At([b0.value, b1.value, b2.value, b3.value], 0);
    }

    method Read16(a: u32, ghost buf: u32, ghost file: seq<byte>) returns (w: nat)
      requires vm.Valid() && Holds(vm.State(), buf, file) && buf <= a && a - buf + 2 <= |file|
      ensures w == U16At(file, a - buf)
    {
      hide VByte, VmOk;
      var b0 := vm.LoadByte(a);
      var b1 := vm.LoadByte(a + 1);
      w := U16At([b0.value, b1.value], 0);
    }

    /** The header checks. */
    method CheckHeader(buf: u32, ghost file: seq<byte>) returns (ok: bool)
      requires vm.Valid() && Holds(vm.State(), buf, file) && |file| >= 52 && buf + |file| < WORD_LIMIT
      ensures ok == Accepted(file)
    {
      hide VByte, VmOk, U32At, U16At, FrameOf;
      var magic := Read32(buf, buf, file);
      var bits := vm.LoadByte(buf + 4);
      var kind := Read16(buf + 16, buf, file);
      var machine := Read16(buf + 18, buf, file);
      ok := magic == ELF_MAGIC && bits == Some(1) && machine == 3 && kind == 2;
    }

    /** Program header `i`, field by field. */
    method ReadSegment(ph: u32, i: nat, ghost buf: u32, ghost file: seq<byte>) returns (g: Segment)
      requires vm.Valid() && Holds(vm.State(), buf, file) && HeadersInside(file) && i < SegmentCount(file)
      requires buf + |file| < WORD_LIMIT && ph == buf + U32At(file, 28)
      ensures g == SegmentAt(file, i)
    {
      hide VByte, VmOk, U32At, U16At, FrameOf, Holds;
      var a := ph + 32 * i;
      var kind := Read32(a, buf, file);
      var offset := Read32(a + 4, buf, file);
      var vaddr := Read32(a + 8, buf, file);
      var fileSize := Read32(a + 16, buf, file);
      var memSize := Read32(a + 20, buf, file);
      g := Segment(kind, offset, vaddr, fileSize, memSize);
    }

    /** All loadable segments before the `i`-th are in place. */
    ghost predicate ShownBefore(s: Vm, file: seq<byte>, i: nat)
      requires Has(s.mem, s.dir) && HeadersInside(file) && i <= SegmentCount(file)
    {
      forall j :: 0 <= j < i && SegmentAt(file, j).kind == 1 ==> Shown(s, file, SegmentAt(file, j))
    }

    lemma {:induction false} TakingHas(file: seq<byte>, i: nat, j: nat, P: set<nat>)
      requires HeadersInside(file) && i <= SegmentCount(file)
      ensures P <= Taking(file, i, P)
      ensures j < i && SegmentAt(file, j).kind == 1 ==> SegmentPages(SegmentAt(file, j)) <= Taking(file, i, P)
      decreases i
    {
      hide SegmentAt, SegmentPages;
      if i > 0 {
        TakingHas(file, i - 1, j, P);
      }
    }

    lemma {:induction false} TakingMore(file: seq<byte>, i: nat, P: set<nat>, B: set<nat>)
      requires HeadersInside(file) && i <= SegmentCount(file) && P <= B
      ensures Taking(file, i, P) <= Taking(file, i, B)
      decreases i
    {
      hide SegmentAt, SegmentPages;
      if i > 0 {
        TakingMore(file, i - 1, P, B);
      }
    }

    /** A segment clear of the pages kept and of the pinned ones is clear of each. */
    lemma {:induction false} FitsFewer(file: seq<byte>, i: nat, P: set<nat>, K: set<nat>)
      requires WellFormed(file, P + K) && i < SegmentCount(file) && SegmentAt(file, i).kind == 1
      ensures Fits(SegmentAt(file, i), |file|, Taking(file, i, P)) && SegmentPages(SegmentAt(file, i)) * K == {}
    {
      hide SegmentAt, SegmentPages, Taking;
      var g := SegmentAt(file, i);
      TakingMore(file, i, P, P + K);
      TakingHas(file, i, 0, P + K);
      var B, S := Taking(file, i, P + K), SegmentPages(g);
      assert Fits(g, |file|, B) && S * B == {};
      forall x | x in S ensures x !in B {
        NotInBoth(x, S, B);
      }
    }

    lemma {:induction false} ShownBeforeKept(s: Vm, t: Vm, file: seq<byte>, i: nat, P: set<nat>, Q: set<nat>)
      requires Has(s.mem, s.dir) && Has(t.mem, t.dir) && WellFormed(file, P) && i <= SegmentCount(file)
      requires ShownBefore(s, file, i) && SameOn(s, t, Q)
      requires forall j :: 0 <= j < i && SegmentAt(file, j).kind == 1 ==> SegmentPages(SegmentAt(file, j)) <= Q
      ensures ShownBefore(t, file, i)
    {
      hide Shown, SegmentAt, SameOn, SegmentPages;
      forall j | 0 <= j < i && SegmentAt(file, j).kind == 1 ensures Shown(t, file, SegmentAt(file, j)) {
        ShownKept(s, t, file, SegmentAt(file, j), Q);
      }
    }

    /** The loader once the file is in the buffer. However it ends, the pages of `P` read as before, the pinned
        pages still map to themselves, and only pages of the image are mapped anew. */
    method LoadImage(buf: u32, ghost file: seq<byte>, ghost P: set<nat>, ghost K: set<nat>) returns (r: Outcome)
      requires vm.Valid() && Separate(vm.State(), P) && Holds(vm.State(), buf, file)
      requires Covered(buf, |file|, P) && buf + |file| < WORD_LIMIT
      requires |file| >= 52 && (Accepted(file) ==> WellFormed(file, P + K))
      requires Pinned(vm.State(), K) && ImageTables(file, vm.State().frames, Dirs(vm.State())) <= K
      modifies vm, vm.pmm, vm.pmm.bitmap
      ensures vm.Valid()
      ensures !Accepted(file) ==> r == Failed && vm.State() == old(vm.State())
      ensures Accepted(file) ==>
        (r.Loaded? <==> FramesFor(file, Dirs(old(vm.State()))) <= FreeCount(old(vm.State()).frames))
      ensures r == Faulted <==>
        Accepted(file) && ImageFaults(file, Dirs(old(vm.State())), FreeCount(old(vm.State()).frames))
      ensures r.Loaded? ==>
        && HeadersInside(file) && r.entry == U32At(file, 24) && ShownBefore(vm.State(), file, SegmentCount(file))
        && Separate(vm.State(), Taking(file, SegmentCount(file), P))
      ensures Separate(vm.State(), P) && SameOn(old(vm.State()), vm.State(), P) && Pinned(vm.State(), K)
      ensures SameMap(old(vm.State()), vm.State(), ImagePages(file))
      ensures OpensUp(old(vm.State()), vm.State(), if r.Loaded? then ImagePages(file) else {})
    {
      hide VByte, VmOk, U32At, U16At, FrameOf, Separate, Dirs, Cost, FreeCount, SameOn, SegmentAt, Shown, Fits, Bit,
           Alloc, Pages, Taking, DirsBefore, CostBefore, Pinned, SameMap, FaultsAt, Faults, SegmentPages,
           TablesFor, FramesAfter, TablesFrom, OpensUp;
      ghost var s := vm.State();
      var ok := CheckHeader(buf, file);
      if !ok {
        SameOnSelf(s, P, ImagePages(file));
        OpensSelf(s);
        return Failed;
      }
      ghost var have, free, n := Dirs(s), FreeCount(s.frames), SegmentCount(file);
      var offset := Read32(buf + 28, buf, file);
      var ph := buf + offset;
      var count := Read16(buf + 44, buf, file);
      Begin(s, file, P);
      var i := 0;
      while i < count
        invariant 0 <= i <= count && vm.Valid()
        invariant Separate(vm.State(), Taking(file, i, P)) && SameOn(s, vm.State(), P)
        invariant Holds(vm.State(), buf, file) && ShownBefore(vm.State(), file, i)
        invariant Dirs(vm.State()) == DirsBefore(file, i, have)
        invariant FreeCount(vm.State().frames) == free - CostBefore(file, i, have) >= 0
        invariant Pinned(vm.State(), K) && TablesFrom(file, i, vm.State().frames, Dirs(vm.State())) <= K
        invariant SameMap(s, vm.State(), Taking(file, i, {})) && OpensUp(s, vm.State(), Taking(file, i, {}))
        invariant forall j :: 0 <= j < i ==> !FaultsAt(file, j, have, free)
      {
        ghost var u, Q := vm.State(), Taking(file, i, P);
        CostBeforeGrows(file, i + 1, n, have);
        NextSegment(file, i, have, P);
        NextSegment(file, i, have, {});
        NextImageTables(file, i, u.frames, Dirs(u));
        TakingGrows(file, i + 1, n, {});
        TakingHas(file, i, 0, P);
        WidenCover(buf, |file|, P, Q);
        var g := ReadSegment(ph, i, buf, file);
        if g.kind == 1 {
          FitsFewer(file, i, P, K);
          var step := LoadSegment(g, buf, file, Q, K);
          SameMapTwice(s, u, vm.State(), Taking(file, i, {}), SegmentPages(g), Taking(file, i + 1, {}));
          FaultHere(file, i, have, free);
          OpensTwice(s, u, vm.State(), Taking(file, i, {}), if step == Fine then SegmentPages(g) else {});
          if step != Fine {
            SeparateFewer(vm.State(), P, Q);
            SameOnTwice(s, u, vm.State(), P, Q);
            SameMapMore(s, vm.State(), Taking(file, i + 1, {}), ImagePages(file));
            OpensFewer(s, vm.State(), {}, Taking(file, i, {}) + {});
            if step == PageFault {
              return Faulted;
            }
            NoFaultBeyond(file, i + 1, have, free);
            return Failed;
          }
          Counted(vm.State());
          HoldsKept(u, vm.State(), buf, file, Q);
          SegmentsTaken(file, i, P);
          ShownBeforeKept(u, vm.State(), file, i, P + K, Q);
          SameOnTwice(s, u, vm.State(), P, Q);
        }
        NoFaultAt(file, i, have, free);
        i := i + 1;
      }
      TakingHas(file, n, 0, P);
      SeparateFewer(vm.State(), P, Taking(file, n, P));
      var entry := Read32(buf + 24, buf, file);
      r := Loaded(entry);
    }

    lemma {:induction false} SegmentsTaken(file: seq<byte>, i: nat, P: set<nat>)
      requires HeadersInside(file) && i <= SegmentCount(file)
      ensures forall j :: 0 <= j < i && SegmentAt(file, j).kind == 1 ==>
        SegmentPages(SegmentAt(file, j)) <= Taking(file, i, P)
    {
      hide SegmentAt, SegmentPages, Taking;
      forall j | 0 <= j < i && SegmentAt(file, j).kind == 1
        ensures SegmentPages(SegmentAt(file, j)) <= Taking(file, i, P)
      {
        TakingHas(file, i, j, P);
      }
    }

    lemma {:induction false} NextImageTables(file: seq<byte>, i: nat, f: Frames, have: set<nat>)
      requires HeadersInside(file) && i < SegmentCount(file)
      ensures
        var g := SegmentAt(file, i);
        var first, n := g.vaddr / 4096, PageCount(g);
        if g.kind == 1 then
          && TablesFor(f, have, first, n) <= TablesFrom(file, i, f, have)
          && TablesFrom(file, i + 1, FramesAfter(f, have, first, n), have + DirsOf(first, n))
             <= TablesFrom(file, i, f, have)
        else TablesFrom(file, i + 1, f, have) == TablesFrom(file, i, f, have)
    {
      hide SegmentAt, TablesFor, FramesAfter, DirsOf;
    }

    /** What decides about a fault at segment `i`. */
    lemma {:induction false} FaultHere(file: seq<byte>, i: nat, have: set<nat>, free: int)
      requires HeadersInside(file) && i < SegmentCount(file) && SegmentAt(file, i).kind == 1
      ensures
        var g := SegmentAt(file, i);
        FaultsAt(file, i, have, free) <==>
        Faults(DirsBefore(file, i, have), g.vaddr / 4096, PageCount(g), free - CostBefore(file, i, have))
    {
    }

    lemma {:induction false} NoFaultBeyond(file: seq<byte>, i: nat, have: set<nat>, free: int)
      requires HeadersInside(file) && i <= SegmentCount(file) && CostBefore(file, i, have) > free
      ensures forall j :: i <= j < SegmentCount(file) ==> !FaultsAt(file, j, have, free)
    {
      hide FaultsAt, CostBefore, SegmentCount;
      forall j | i <= j < SegmentCount(file) ensures !FaultsAt(file, j, have, free) {
        CostBeforeGrows(file, i, j, have);
        NoFaultAt(file, j, have, free);
      }
    }

    lemma {:induction false} TakingGrows(file: seq<byte>, i: nat, j: nat, P: set<nat>)
      requires HeadersInside(file) && i <= j <= SegmentCount(file)
      ensures Taking(file, i, P) <= Taking(file, j, P)
      decreases j
    {
      hide SegmentAt, SegmentPages;
      if i < j {
        TakingGrows(file, i, j - 1, P);
      }
    }

    lemma {:induction false} SameOnSelf(s: Vm, P: set<nat>, Q: set<nat>)
      requires Has(s.mem, s.dir)
      ensures SameOn(s, s, P) && SameMap(s, s, Q)
    {
    }

    lemma {:induction false} Begin(s: Vm, file: seq<byte>, P: set<nat>)
      requires VmOk(s) && HeadersInside(file)
      ensures Taking(file, 0, P) == P && SameOn(s, s, P) && ShownBefore(s, file, 0)
      ensures Taking(file, 0, {}) == {} && SameMap(s, s, {}) && OpensUp(s, s, {})
      ensures DirsBefore(file, 0, Dirs(s)) == Dirs(s) && CostBefore(file, 0, Dirs(s)) == 0 && FreeCount(s.frames) >= 0
    {
      LowestFacts(s.frames);
    }

    /** What one program header adds. */
    lemma {:induction false} NextSegment(file: seq<byte>, i: nat, have: set<nat>, P: set<nat>)
      requires HeadersInside(file) && i < SegmentCount(file)
      ensures
        var g := SegmentAt(file, i);
        if g.kind == 1 then
          && Taking(file, i + 1, P) == Taking(file, i, P) + SegmentPages(g)
          && DirsBefore(file, i + 1, have) == DirsBefore(file, i, have) + DirsOf(g.vaddr / 4096, PageCount(g))
          && CostBefore(file, i + 1, have)
             == CostBefore(file, i, have) + Cost(DirsBefore(file, i, have), g.vaddr / 4096, PageCount(g))
        else
          && Taking(file, i + 1, P) == Taking(file, i, P)
          && DirsBefore(file, i + 1, have) == DirsBefore(file, i, have)
          && CostBefore(file, i + 1, have) == CostBefore(file, i, have)
    {
      hide SegmentAt, Cost;
    }

    lemma {:induction false} Counted(s: Vm)
      requires VmOk(s)
      ensures FreeCount(s.frames) >= 0
    {
      LowestFacts(s.frames);
    }

    lemma {:induction false} WidenCover(a: u32, n: nat, P: set<nat>, Q: set<nat>)
      requires Covered(a, n, P) && P <= Q
      ensures Covered(a, n, Q)
    {
    }

    // ---------- elf_load ----------

    /** The file could be read and its header is accepted. */
    predicate Welcome(content: Option<seq<byte>>) {
      content.Some? && |Prefix(content.value)| >= 52 && Accepted(Prefix(content.value))
    }

    /** The file could be read and its image, if the header is accepted, is in order and clear of the heap's
        pages and of the kernel pages `K`. */
    predicate Loadable(content: Option<seq<byte>>, K: set<nat>) {
      content.Some? && content.value != [] ==>
        && |Prefix(content.value)| >= 52
        && (Accepted(Prefix(content.value)) ==> WellFormed(Prefix(content.value), HeapPages + K))
    }

    /** The heap has room for the buffer, the file is there and not empty, its header is accepted, and there
        are frames for all pages and missing tables. */
    ghost predicate Succeeds(bs: HeapSpec.Blocks, s: Vm, content: Option<seq<byte>>)
      requires Has(s.mem, s.dir)
    {
      && HeapSpec.Fit(bs, BUFFER) < |bs|
      && content.Some? && |Prefix(content.value)| >= 52 && Accepted(Prefix(content.value))
      && FramesFor(Prefix(content.value), Dirs(s)) <= FreeCount(s.frames)
    }

    /** The buffer could be had, and the image ends in a page fault. */
    ghost predicate PageFaults(bs: HeapSpec.Blocks, s: Vm, content: Option<seq<byte>>)
      requires Has(s.mem, s.dir)
    {
      && HeapSpec.Fit(bs, BUFFER) < |bs|
      && content.Some? && |Prefix(content.value)| >= 52 && Accepted(Prefix(content.value))
      && ImageFaults(Prefix(content.value), Dirs(s), FreeCount(s.frames))
    }

    /** `elf_load`, given what `fs_read` finds under the name and a set of pages `K` that map to themselves: those
        up to the end of the kernel, the page tables, and the frames about to become tables. It succeeds exactly
        when `Succeeds` says so; then every loadable segment, read through the page walk, is the file's
        bytes followed by zeros. It ends in a page fault exactly when `PageFaults` says so. On every return
        the headers in the heap's memory are those of the block list there was; at a fault they are those
        with the buffer still taken. In all cases every live payload and all kernel data read as before, the
        pages of `K` still map to themselves, and no page outside the image is mapped differently. A loaded
        image is open to programs in ring 3, if the directory is; a file that is rejected leaves all tables
        and frames alone. */
    method ElfLoad(content: Option<seq<byte>>, ghost K: set<nat>) returns (r: Outcome)
      requires heap.vm == vm && heap.Valid() && Loadable(content, K) && forall p :: 0 <= p < kernelEnd ==> p in K
      requires Pinned(vm.State(), K) && TablesOf(content, vm.State().frames, Dirs(vm.State())) <= K
      modifies heap, vm, vm.pmm, vm.pmm.bitmap
      ensures vm.Valid()
      ensures r.Loaded? <==> Succeeds(old(heap.blocks), old(vm.State()), content)
      ensures r == Faulted <==> PageFaults(old(heap.blocks), old(vm.State()), content)
      ensures r.Loaded? ==>
        var file := Prefix(content.value);
        && HeadersInside(file) && r.entry == U32At(file, 24)
        && ShownBefore(vm.State(), file, SegmentCount(file))
      ensures heap.Valid()
      ensures heap.blocks == if r == Faulted then HeapSpec.Malloc(old(heap.blocks), BUFFER) else old(heap.blocks)
      ensures HeapMemory.Kept(old(heap.Mem()), heap.Mem(), HeapSpec.Live(old(heap.blocks)))
      ensures SameOn(old(vm.State()), vm.State(), KernelData(old(vm.State()), K)) && Pinned(vm.State(), K)
      ensures SameMap(old(vm.State()), vm.State(), PagesOf(content))
      ensures OpensUp(old(vm.State()), vm.State(), if r.Loaded? then PagesOf(content) else {})
      ensures !Welcome(content) ==> r == Failed && SameTables(old(vm.State()), vm.State())
    {
      hide VByte, VmOk, U32At, FrameOf, Separate, Dirs, FreeCount, SameOn, ShownBefore, OpensUp, SameTables, Bit,
           Pages, Accepted, Pinned,
           HeapSpec.FitFrom, HeapSpec.Malloc, HeapSpec.Free, HeapSpec.Length, HeapSpec.LiveFrom,
           HeapTheorems.BlockAtFrom,
           HeapMemory.Lays, HeapMemory.Kept, HeapSpec.Tight, WellFormed, FramesFor, KernelHeap.AlignUp, SegmentCount,
           KernelData, HeapStores.MallocMem, HeapStores.FreeMem, Beside, HeapBytes, SameBut, Taking, SameMap,
           ImageFaults, PagesOf, TablesOf;
      BufferAligned();
      ghost var bs, s, m := heap.blocks, vm.State(), heap.Mem();
      ghost var D := KernelData(s, K);
      ghost var P := HeapPages + D;
      KernelSeparate(s, K);
      var buf := heap.Kmalloc(BUFFER);
      ghost var s1, m1 := vm.State(), heap.Mem();
      HeapOnly(s, s1, P, K);
      BesideOpens(s, s1);
      BesideTables(s, s1);
      BesideMap(s, s1, s1, PagesOf(content));
      if buf == 0 {
        HeapTheorems.MallocNothing(bs, BUFFER);
        SameOnFewer(s, s1, D, P - HeapPages);
        return Failed;
      }
      BufferPlace(bs, buf);
      HeapTheorems.MallocThenFree(bs, BUFFER);
      HeapTheorems.TakenAt(bs, BUFFER);
      r := FromBuffer(buf, content, P, K);
      SeparateFewer(vm.State(), HeapPages, P);
      ghost var s2, m2 := vm.State(), heap.Mem();
      BufferOnly(s1, s2, bs, buf, P);
      BesideMap(s, s1, s2, PagesOf(content));
      ghost var I: set<nat> := if r.Loaded? then PagesOf(content) else {};
      OpensTwice(s, s1, s2, {}, I);
      assert {} + I == I && I + {} == I;
      HeapStores.KeptBoth(m, m1, m2, HeapSpec.Live(bs));
      if r == Faulted {
        SameOnSelf(s2, P - HeapPages, {});
        KernelSame(s, s1, s2, s2, D, P, P, buf);
      } else {
        ghost var Q := if r.Loaded? then Taking(Prefix(content.value), SegmentCount(Prefix(content.value)), P) else P;
        if r.Loaded? {
          TakingHas(Prefix(content.value), SegmentCount(Prefix(content.value)), 0, P);
        }
        heap.Kfree(buf);
        ghost var s3 := vm.State();
        HeapOnly(s2, s3, Q, K);
        KernelSame(s, s1, s2, s3, D, P, Q, buf);
        MapBeside(s, s2, s3, PagesOf(content));
        BesideOpens(s2, s3);
        OpensTwice(s, s2, s3, I, {});
        BesideTables(s2, s3);
        if !Welcome(content) {
          SameTablesTwice(s, s1, s2);
          SameTablesTwice(s, s2, s3);
        }
        HeapStores.KeptBoth(m, m2, heap.Mem(), HeapSpec.Live(bs));
        if r.Loaded? {
          ImageKept(s2, s3, Prefix(content.value), P, K);
        }
      }
    }

    /** Changes of the heap's bytes alone leave the mapping alone, before and after others. */
    lemma {:induction false} BesideMap(s: Vm, u: Vm, t: Vm, Q: set<nat>)
      requires VmOk(s) && Separate(s, HeapPages) && Has(u.mem, u.dir) && Beside(u) == Beside(s)
      requires Has(t.mem, t.dir) && (t == u || SameMap(u, t, Q))
      ensures SameMap(s, t, Q)
    {
      hide FrameOf, VmOk, Pde, Beside, Separate, IsTable;
      BesideTables(s, u);
    }

    lemma {:induction false} SameTablesTwice(s: Vm, u: Vm, t: Vm)
      requires Has(s.mem, s.dir) && Has(u.mem, u.dir) && Has(t.mem, t.dir) && SameTables(s, u) && SameTables(u, t)
      ensures SameTables(s, t)
    {
      hide FrameOf, LeafOf, Pde;
    }

    lemma {:induction false} BesideOpens(s: Vm, t: Vm)
      requires VmOk(s) && Separate(s, HeapPages) && Has(t.mem, t.dir) && Beside(t) == Beside(s)
      ensures OpensUp(s, t, {})
    {
      hide FrameOf, VmOk, Pde, Beside, Separate, IsTable, OpensUp;
      BesideTables(s, t);
      OpensSame(s, t);
    }

    lemma {:induction false} MapBeside(s: Vm, u: Vm, t: Vm, Q: set<nat>)
      requires Has(s.mem, s.dir) && VmOk(u) && Separate(u, HeapPages) && SameMap(s, u, Q)
      requires Has(t.mem, t.dir) && Beside(t) == Beside(u)
      ensures SameMap(s, t, Q)
    {
      hide FrameOf, VmOk, Pde, Beside, Separate, IsTable;
      BesideTables(u, t);
    }

    lemma {:induction false} BufferAligned()
      ensures KernelHeap.AlignUp(BUFFER) == BUFFER
    {
    }

    lemma {:induction false} SameOnFewer(s: Vm, t: Vm, P: set<nat>, Q: set<nat>)
      requires Has(s.mem, s.dir) && Has(t.mem, t.dir) && SameOn(s, t, Q) && P <= Q
      ensures SameOn(s, t, P)
    {
      hide VByte;
    }

    /** The buffer lies within the heap's pages. */
    lemma {:induction false} BufferPlace(bs: HeapSpec.Blocks, buf: u32)
      requires HeapSpec.Length(bs) == HeapMemory.HEAP_SIZE && HeapSpec.Fit(bs, BUFFER) < |bs|
      requires buf == HeapMemory.HEAP_START + HeapSpec.Start(bs, HeapSpec.Fit(bs, BUFFER)) + HeapSpec.HEADER
      ensures 0x100_0000 <= buf && buf + BUFFER <= 0x110_0000
      ensures Covered(buf, BUFFER, HeapPages)
    {
      hide HeapSpec.FitFrom, HeapSpec.Length;
      HeapMemory.StartBound(bs, HeapSpec.Fit(bs, BUFFER));
    }

    /** What was written to the buffer disturbs neither the headers nor any other payload. */
    lemma {:induction false} BufferOnly(s: Vm, t: Vm, bs: HeapSpec.Blocks, buf: u32, P: set<nat>)
      requires Has(s.mem, s.dir) && Has(t.mem, t.dir) && HeapPages <= P && SameBut(s, t, buf, BUFFER, P)
      requires HeapSpec.Fit(bs, BUFFER) < |bs| && HeapMemory.Lays(HeapBytes(s), HeapSpec.Malloc(bs, BUFFER))
      requires buf == HeapMemory.HEAP_START + HeapSpec.Start(bs, HeapSpec.Fit(bs, BUFFER)) + HeapSpec.HEADER
      ensures HeapMemory.Lays(HeapBytes(t), HeapSpec.Malloc(bs, BUFFER))
      ensures HeapMemory.Kept(HeapBytes(s), HeapBytes(t), HeapSpec.Live(bs))
    {
      hide VByte, HeapSpec.FitFrom, HeapSpec.Length, HeapSpec.LiveFrom, HeapMemory.Lays, HeapSpec.Malloc,
           HeapSpec.Taken;
      var i := HeapSpec.Fit(bs, BUFFER);
      HeapTheorems.TakenSize(bs[i], BUFFER);
      var p := (HeapSpec.Start(bs, i) + HeapSpec.HEADER, HeapSpec.Taken(bs[i], BUFFER)[0].size);
      HeapTheorems.MallocLive(bs, BUFFER);
      var m, m' := HeapBytes(s), HeapBytes(t);
      forall k | 0 <= k < |m| && !(p.0 <= k < p.0 + p.1) ensures m[k] == m'[k] {
        assert (HeapMemory.HEAP_START + k) / 4096 in HeapPages;
      }
      HeapMemory.PayloadLays(m, m', HeapSpec.Malloc(bs, BUFFER), p);
      forall k | 0 <= k < |m| && HeapMemory.InLive(HeapSpec.Live(bs), k) ensures m'[k] == m[k] {
        var q :| q in HeapSpec.Live(bs) && q.0 <= k < q.0 + q.1;
      }
    }

    /** Kernel data through the three phases: allocation, buffer and image, release. */
    lemma {:induction false} KernelSame(s: Vm, s1: Vm, s2: Vm, s3: Vm, D: set<nat>, P: set<nat>, Q: set<nat>, buf: u32)
      requires Has(s.mem, s.dir) && Has(s1.mem, s1.dir) && Has(s2.mem, s2.dir) && Has(s3.mem, s3.dir)
      requires SameOn(s, s1, P - HeapPages) && SameBut(s1, s2, buf, BUFFER, P) && SameOn(s2, s3, Q - HeapPages)
      requires D <= P <= Q && D !! HeapPages && Covered(buf, BUFFER, HeapPages)
      ensures SameOn(s, s3, D)
    {
      hide VByte;
      forall v: u32 | v / 4096 in D ensures VByte(s3, v) == VByte(s, v) {
        assert v / 4096 in P - HeapPages && v / 4096 in Q - HeapPages;
      }
    }

    /** The image stays as shown when only the heap's bytes change. */
    lemma {:induction false} ImageKept(s: Vm, t: Vm, file: seq<byte>, P: set<nat>, K: set<nat>)
      requires Has(s.mem, s.dir) && Has(t.mem, t.dir) && WellFormed(file, HeapPages + K)
      requires ShownBefore(s, file, SegmentCount(file))
      requires SameOn(s, t, Taking(file, SegmentCount(file), P) - HeapPages)
      ensures ShownBefore(t, file, SegmentCount(file))
    {
      hide SegmentAt, SegmentPages, Taking, SameOn, Shown, VByte;
      var n := SegmentCount(file);
      SegmentsTaken(file, n, P);
      assert K + HeapPages == HeapPages + K;
      forall j | 0 <= j < n && SegmentAt(file, j).kind == 1
        ensures SegmentPages(SegmentAt(file, j)) <= Taking(file, n, P) - HeapPages
      {
        FitsFewer(file, j, K, HeapPages);
        forall x | x in SegmentPages(SegmentAt(file, j)) ensures x !in HeapPages {
          NotInBoth(x, SegmentPages(SegmentAt(file, j)), HeapPages);
        }
      }
      ShownBeforeKept(s, t, file, n, HeapPages + K, Taking(file, n, P) - HeapPages);
    }

    /** From the read of the file to the return. */
    method FromBuffer(buf: u32, content: Option<seq<byte>>, ghost P: set<nat>, ghost K: set<nat>) returns (r: Outcome)
      requires vm.Valid() && Separate(vm.State(), P) && HeapPages <= P <= HeapPages + K && Loadable(content, K)
      requires Pinned(vm.State(), K) && TablesOf(content, vm.State().frames, Dirs(vm.State())) <= K
      requires 0x100_0000 <= buf && buf + BUFFER <= 0x110_0000 && Covered(buf, BUFFER, HeapPages)
      modifies vm, vm.pmm, vm.pmm.bitmap
      ensures vm.Valid()
      ensures r.Loaded? <==>
        && content.Some? && |Prefix(content.value)| >= 52 && Accepted(Prefix(content.value))
        && FramesFor(Prefix(content.value), Dirs(old(vm.State()))) <= FreeCount(old(vm.State()).frames)
      ensures r == Faulted <==>
        && content.Some? && |Prefix(content.value)| >= 52 && Accepted(Prefix(content.value))
        && ImageFaults(Prefix(content.value), Dirs(old(vm.State())), FreeCount(old(vm.State()).frames))
      ensures r.Loaded? ==>
        var file := Prefix(content.value);
        && HeadersInside(file) && r.entry == U32At(file, 24)
        && ShownBefore(vm.State(), file, SegmentCount(file))
        && Separate(vm.State(), Taking(file, SegmentCount(file), P))
      ensures Separate(vm.State(), P) && Pinned(vm.State(), K)
      ensures SameBut(old(vm.State()), vm.State(), buf, BUFFER, P)
      ensures SameMap(old(vm.State()), vm.State(), PagesOf(content))
      ensures OpensUp(old(vm.State()), vm.State(), if r.Loaded? then PagesOf(content) else {})
      ensures !Welcome(content) ==> r == Failed && SameTables(old(vm.State()), vm.State())
    {
      hide VByte, VmOk, U32At, FrameOf, LeafOf, Separate, Dirs, FreeCount, SameOn, SegmentAt, OpensUp, Shown, Bit,
           Pages, Accepted,
           WellFormed, Holds, SegmentCount, Pinned, FramesFor, SameBut, Filled, SameMap, ImageFaults, ImagePages,
           ImageTables;
      ghost var s := vm.State();
      SameButSelf(s, buf, BUFFER, P);
      SameOnSelf(s, P, PagesOf(content));
      OpensSelf(s);
      if content == None {
        return Failed;
      }
      var file := if |content.value| <= BUFFER then content.value else content.value[..BUFFER];
      if |file| == 0 {
        return Failed;
      }
      WidenCover(buf, BUFFER, HeapPages, P);
      assert Covered(buf, |file|, P);
      FillBuffer(buf, file, P);
      ghost var u := vm.State();
      SameDirs(s, u);
      PinnedSame(s, u, K);
      assert P + K == HeapPages + K;
      r := LoadImage(buf, file, P, K);
      ThroughBuffer(s, u, vm.State(), buf, file, P);
      SameTablesMap(s, u, vm.State(), ImagePages(file));
      OpensSame(s, u);
      ghost var I: set<nat> := if r.Loaded? then ImagePages(file) else {};
      OpensTwice(s, u, vm.State(), {}, I);
      assert {} + I == I;
    }

    lemma {:induction false} SameTablesMap(s: Vm, u: Vm, t: Vm, Q: set<nat>)
      requires Has(s.mem, s.dir) && Has(u.mem, u.dir) && Has(t.mem, t.dir) && SameTables(s, u) && SameMap(u, t, Q)
      ensures SameMap(s, t, Q)
    {
      hide FrameOf, Pde;
    }

    lemma {:induction false} SameButSelf(s: Vm, lo: u32, n: nat, P: set<nat>)
      requires Has(s.mem, s.dir)
      ensures SameBut(s, s, lo, n, P)
    {
    }

    lemma {:induction false} ThroughBuffer(s: Vm, u: Vm, t: Vm, buf: u32, file: seq<byte>, P: set<nat>)
      requires Has(s.mem, s.dir) && Has(u.mem, u.dir) && Has(t.mem, t.dir) && buf + |file| <= WORD_LIMIT
      requires |file| <= BUFFER && Filled(s, u, buf, file, P) && SameOn(u, t, P)
      ensures SameBut(s, t, buf, BUFFER, P)
    {
      hide VByte;
    }

    // ---------- from boot to a loaded program ----------

    function Below(k: nat): (r: set<nat>)
      ensures forall i :: i in r <==> 0 <= i < k
    {
      if k == 0 then {} else Below(k - 1) + {k - 1}
    }

    /** The frames below `k` are in use, as `pmm_init` leaves them. */
    ghost predicate UsedBelow(f: Frames, k: nat) { Ok(f) && k <= f.total && f.used == Below(k) }

    /** Frames are handed out in order. */
    lemma {:induction false} NextAfter(f: Frames, k: nat)
      requires UsedBelow(f, k)
      ensures FreeCount(f) == f.total - k
      ensures k < f.total ==> Lowest(f) == k && HasFree(f) && UsedBelow(Alloc(f), k + 1) && Alloc(f).total == f.total
    {
      hide FreeFrom, Below;
      AllOfThem(f.used, k);
      assert k !in f.used;
      if k < f.total {
        assert Below(k) + {k} == Below(k + 1);
      }
    }

    /** Pages whose tables are there take one frame each. */
    lemma {:induction false} InOrder(f: Frames, k: nat, have: set<nat>, first: nat, n: nat)
      requires UsedBelow(f, k) && k + n <= f.total && forall p :: first <= p < first + n ==> p / 1024 in have
      ensures UsedBelow(FramesAfter(f, have, first, n), k + n) && FramesAfter(f, have, first, n).total == f.total
      decreases n
    {
      hide Alloc, Lowest, UsedBelow;
      if n > 0 {
        NextAfter(f, k);
        assert first / 1024 in have && have + {first / 1024} == have;
        InOrder(Alloc(f), k + 1, have, first + 1, n - 1);
      }
    }

    lemma {:induction false} OneDirectory(first: nat, n: nat)
      requires n > 0 && first % 1024 + n <= 1024
      ensures DirsOf(first, n) == {first / 1024}
    {
      if n > 1 {
        OneDirectory(first, n - 1);
      }
      assert (first + n - 1) / 1024 == first / 1024;
    }

    /** The heap's pages share one table, which `vmm_init` did not make: 257 frames are enough, and with 2 to 256
        the first page is mapped and the heap is not in order. */
    lemma {:induction false} HeapNeeds()
      ensures DirsOf(0x1000, 0x100) == {4} && Cost({0, 1}, 0x1000, 0x100) == 257 && Cost({0, 1}, 0x1000, 1) == 2
    {
      hide DirsOf;
      OneDirectory(0x1000, 0x100);
      OneDirectory(0x1000, 1);
      var missing := {4} - {0, 1};
      assert missing == {4};
    }

    /** Of the frames the heap takes at boot, the second becomes its table. */
    lemma {:induction false} HeapTable(f: Frames, k: nat, first: nat, n: nat)
      requires UsedBelow(f, k) && k + n + 1 <= f.total && n > 0 && first == 0x1000 && n <= 0x100
      ensures TablesFor(f, {0, 1}, first, n) == {k + 1}
      ensures UsedBelow(FramesAfter(f, {0, 1}, first, n), k + n + 1)
      ensures FramesAfter(f, {0, 1}, first, n).total == f.total
    {
      hide Alloc, Lowest, UsedBelow, TablesFor, FramesAfter, HasFree;
      NextAfter(f, k);
      NextAfter(Alloc(f), k + 1);
      var g, have := Alloc(Alloc(f)), {0, 1} + {first / 1024};
      FirstPage(f, {0, 1}, first, n);
      forall p | first + 1 <= p < first + 1 + (n - 1) ensures p / 1024 in have {
        assert p / 1024 == 4;
      }
      TablesThere(g, have, first + 1, n - 1);
      InOrder(g, k + 2, have, first + 1, n - 1);
    }

    lemma {:induction false} FirstPage(f: Frames, have: set<nat>, page: nat, n: nat)
      requires n > 0
      ensures
        var f', have' := FramesNext(f, have, page), have + {page / 1024};
        && TablesFor(f, have, page, n) == PageTable(f, have, page) + TablesFor(f', have', page + 1, n - 1)
        && FramesAfter(f, have, page, n) == FramesAfter(f', have', page + 1, n - 1)
    {
      hide PageTable, FramesNext;
    }

    /** What `vmm_init` leaves is pinned, as far as it maps pages to themselves. */
    lemma {:induction false} BootPinned(s: Vm, K: set<nat>)
      requires Has(s.mem, s.dir) && K <= IdentityPages
      requires forall p :: 0 <= p < 2048 && p != 0x500 ==> FrameOf(s, p) == Some(p)
      requires forall f :: IsTable(s, f) ==> f in K
      ensures Pinned(s, K)
    {
      hide FrameOf, IsTable;
    }

    lemma {:induction false} RoomForBuffer()
      ensures HeapSpec.Fit([HeapSpec.Block(HeapMemory.HEAP_SIZE - HeapSpec.HEADER, true)], BUFFER) == 0
    {
    }

    /** What the kernel must reach after boot: itself, the heap's table, and the frames that become tables of the
        image. */
    function Needed(memUpper: nat, content: Option<seq<byte>>): set<nat> {
      Below(kernelEnd) + {kernelEnd + 2} + TablesOf(content, Frames(Total(memUpper), Below(kernelEnd + 258)), {0, 1, 4})
    }

    /** An image between 4 MB and 8 MB, where user programs are linked, makes no tables: the kernel needs nothing
        else within reach, whichever frames the image gets. */
    lemma {:induction false} UserImage(memUpper: nat, content: Option<seq<byte>>)
      requires content.Some? && HeadersInside(Prefix(content.value))
      requires
        var file := Prefix(content.value);
        forall j, p :: 0 <= j < SegmentCount(file) && SegmentAt(file, j).kind == 1 ==>
                         (p in SegmentPages(SegmentAt(file, j)) ==> 0x400 <= p < 0x800)
      ensures Needed(memUpper, content) == Below(kernelEnd) + {kernelEnd + 2}
    {
      hide SegmentAt, SegmentPages, SegmentCount, TablesFrom, Below;
      var file := Prefix(content.value);
      forall j, p | 0 <= j < SegmentCount(file) && SegmentAt(file, j).kind == 1
        ensures p in SegmentPages(SegmentAt(file, j)) ==> p / 1024 in {0, 1, 4}
      {
      }
      NoNewTables(file, 0, Frames(Total(memUpper), Below(kernelEnd + 258)), {0, 1, 4});
    }

    lemma {:induction false} OpensNow(s: Vm, t: Vm, Q: set<nat>)
      requires Has(s.mem, s.dir) && Has(t.mem, t.dir) && OpensUp(s, t, Q) && DirsOpen(s)
      ensures DirsOpen(t)
      ensures forall p :: p in Q || OpenPage(s, p) ==> OpenPage(t, p)
    {
      hide OpenPage, DirsOpen;
    }

    /** The three initialisations, with everything below the kernel's end and the heap's table within reach. */
    method BootHeap(memUpper: nat, pt0: nat, pt1: nat, ghost K: set<nat>)
      requires heap.vm == vm && vm.pmm.bitmap.Length == 1024 && memUpper < 0x1_0000_0000
      requires |vm.mem| == Total(memUpper) * 4096 && kernelEnd + 258 <= Total(memUpper)
      requires vm.dir < kernelEnd && pt0 < kernelEnd && pt1 < kernelEnd && vm.dir != pt0 && vm.dir != pt1 && pt0 != pt1
      requires K <= IdentityPages && Below(kernelEnd) <= K && kernelEnd + 2 in K
      modifies heap, vm, vm.pmm, vm.pmm.bitmap
      ensures heap.Valid() && Pinned(vm.State(), K)
      ensures heap.blocks == [HeapSpec.Block(HeapMemory.HEAP_SIZE - HeapSpec.HEADER, true)]
      ensures Dirs(vm.State()) == {0, 1, 4}
      ensures vm.State().frames == Frames(Total(memUpper), Below(kernelEnd + 258))
      ensures FreeCount(vm.State().frames) == Total(memUpper) - kernelEnd - 258
      ensures DirsOpen(vm.State()) && forall p :: 0 <= p < 2048 || p in HeapPages ==> OpenPage(vm.State(), p)
    {
      hide VmOk, FrameOf, VByte, Bit, Cost, FreeCount, Alloc, Lowest, Pinned, HeapMemory.Lays, HeapSpec.Tight, Separate,
           HeapBytes, IsTable, DirsOf, FreeFrom, Dirs, Pde, TablesFor, FramesAfter, Below, Present, Frame, Ok,
           OpensUp, OpenPage, DirsOpen, Counts;
      vm.pmm.Init(memUpper, kernelEnd);
      assert vm.pmm.View().used == Below(kernelEnd);
      NextAfter(vm.pmm.View(), kernelEnd);
      vm.Init(pt0, pt1);
      ghost var s := vm.State();
      NextAfter(s.frames, kernelEnd + 1);
      BootPinned(s, K);
      HeapNeeds();
      HeapTable(s.frames, kernelEnd + 1, 0x1000, 0x100);
      assert HeapPages * K == {};
      var ok := HeapInit(K);
      OpensNow(s, vm.State(), HeapPages);
      NextAfter(vm.State().frames, kernelEnd + 258);
      assert {0, 1} + {4} == {0, 1, 4};
    }

    /** `pmm_init`, `vmm_init`, `heap_init` and a load, on a machine with memory for kernel, user stack and heap. The
        kernel, the heap's table and the image's new tables must lie within the identity map, and the image
        must keep clear of them and of the heap; where its other frames lie does not matter. */
    method Boot(memUpper: nat, pt0: nat, pt1: nat, content: Option<seq<byte>>) returns (r: Outcome)
      requires heap.vm == vm && vm.pmm.bitmap.Length == 1024 && memUpper < 0x1_0000_0000
      requires |vm.mem| == Total(memUpper) * 4096 && kernelEnd + 258 <= Total(memUpper)
      requires vm.dir < kernelEnd && pt0 < kernelEnd && pt1 < kernelEnd && vm.dir != pt0 && vm.dir != pt1 && pt0 != pt1
      requires Needed(memUpper, content) <= IdentityPages && Loadable(content, Needed(memUpper, content))
      modifies heap, vm, vm.pmm, vm.pmm.bitmap
      ensures heap.Valid() && Pinned(vm.State(), Needed(memUpper, content))
      ensures
        var one := [HeapSpec.Block(HeapMemory.HEAP_SIZE - HeapSpec.HEADER, true)];
        heap.blocks == if r == Faulted then HeapSpec.Malloc(one, BUFFER) else one
      ensures r.Loaded? <==>
        && content.Some? && |Prefix(content.value)| >= 52 && Accepted(Prefix(content.value))
        && FramesFor(Prefix(content.value), {0, 1, 4}) <= Total(memUpper) - kernelEnd - 258
      ensures r == Faulted <==>
        && content.Some? && |Prefix(content.value)| >= 52 && Accepted(Prefix(content.value))
        && ImageFaults(Prefix(content.value), {0, 1, 4}, Total(memUpper) - kernelEnd - 258)
      ensures r.Loaded? ==>
        var file := Prefix(content.value);
        && HeadersInside(file) && r.entry == U32At(file, 24)
        && ShownBefore(vm.State(), file, SegmentCount(file))
      ensures forall p :: 0 <= p < 2048 || p in HeapPages || (r.Loaded? && p in PagesOf(content)) ==>
        OpenPage(vm.State(), p)
    {
      hide OpensUp, OpenPage, DirsOpen, SameTables, Counts, VmOk, FrameOf, VByte, Bit, Cost, FreeCount, Alloc, Lowest,
           Pinned, Accepted, FramesFor, Loadable,
           ShownBefore, U32At, HeapMemory.Lays, HeapSpec.Tight, HeapSpec.Length, Separate, HeapBytes, IsTable,
           DirsOf, FreeFrom,
           WellFormed, Dirs, SameMap, KernelData, HeapSpec.LiveFrom, HeapMemory.Kept, ImageFaults, Pde, TablesFor,
           FramesAfter, TablesOf, HeapSpec.Malloc, SameOn, PagesOf;
      ghost var K := Needed(memUpper, content);
      BootHeap(memUpper, pt0, pt1, K);
      RoomForBuffer();
      ghost var s := vm.State();
      r := ElfLoad(content, K);
      OpensNow(s, vm.State(), if r.Loaded? then PagesOf(content) else {});
    }
  }
}
