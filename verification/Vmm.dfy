/** kernel/vmm.c: building page tables in place. The kernel reaches table frames at their physical
    addresses, through the identity map of the first 8 MB. */
module Vmm {
  import opened Bytes
  import opened FrameSpec
  import opened Pmm
  import opened Paging
  import opened WalkMemory

  // ---------- sequences of maps ----------

  datatype Request = Request(page: nat, frame: nat, flags: nat)

  predicate Sound(r: Request) { r.page < 0x10_0000 && r.frame < 0x10_0000 && r.flags < 4096 }

  predicate AllSound(rs: seq<Request>) { forall i :: 0 <= i < |rs| ==> Sound(rs[i]) }

  function MapAll(s: Vm, rs: seq<Request>): (t: Vm)
    requires VmOk(s) && AllSound(rs)
    ensures VmOk(t) && t.dir == s.dir
    decreases |rs|
  {
    if rs == [] then s
    else
      assert Sound(rs[0]);
      MapCorrect(s, rs[0].page, rs[0].frame, rs[0].flags);
      MapAll(MapOn(s, rs[0].page, rs[0].frame, rs[0].flags), rs[1..])
  }

  /** What the requests ask for page `q`: the last one for it wins. */
  function Asked(rs: seq<Request>, q: nat, was: Option<nat>): Option<nat>
    decreases |rs|
  {
    if rs == [] then was else Asked(rs[1..], q, if rs[0].page == q then Some(rs[0].frame) else was)
  }

  /** The directory entries the requests go through. */
  function Needs(rs: seq<Request>): set<nat>
    decreases |rs|
  {
    if rs == [] then {} else {rs[0].page / 1024} + Needs(rs[1..])
  }

  /** The next `n` frames `pmm_alloc` hands out, or all that are left. */
  function Supply(f: Frames, n: nat): set<nat>
    decreases n
  {
    if n == 0 || !HasFree(f) then {} else {Lowest(f)} + Supply(Alloc(f), n - 1)
  }

  lemma {:induction false} SupplyStep(f: Frames, n: nat)
    ensures n > 0 && HasFree(f) ==> Lowest(f) in Supply(f, n) && Supply(Alloc(f), n - 1) <= Supply(f, n)
  {
    hide Alloc, Lowest;
  }

  lemma {:induction false} NoSupply(f: Frames, n: nat)
    ensures !HasFree(f) ==> Supply(f, n) == {}
  {
  }

  /** Every sequence of maps gives exactly the translation asked for if and only if the free frames suffice for
      the tables that are missing. In any case no data frame is touched, and every table frame is in use,
      so never handed out again. */
  lemma {:induction false} MapAllCorrect(s: Vm, rs: seq<Request>)
    requires VmOk(s) && AllSound(rs)
    ensures
      var t := MapAll(s, rs);
      && ((forall q :: 0 <= q < 0x10_0000 ==> FrameOf(t, q) == Asked(rs, q, FrameOf(s, q)))
          <==> |Needs(rs) - Dirs(s)| <= FreeCount(s.frames))
      && DataKept(s, t)
      && s.frames.used <= t.frames.used
      && (forall f :: IsTable(t, f) ==> f in t.frames.used && f != Lowest(t.frames))
  {
    hide MapOn, FrameOf, VmOk, IsTable, Lowest, Dirs, Needs, MapAll, Asked, FreeCount, DataKept;
    MapAllKeeps(s, rs);
    TablesUsed(MapAll(s, rs));
    if |Needs(rs) - Dirs(s)| <= FreeCount(s.frames) {
      MapAllAsked(s, rs);
    } else if forall q :: 0 <= q < 0x10_0000 ==> FrameOf(MapAll(s, rs), q) == Asked(rs, q, FrameOf(s, q)) {
      AskedNeeds(s, MapAll(s, rs), rs, rs);
      SubsetSize(Needs(rs) - Dirs(s), Dirs(MapAll(s, rs)) - Dirs(s));
      assert false;
    }
  }

  /** What holds after any sequence of maps; each new table cost one frame. */
  lemma {:induction false} MapAllKeeps(s: Vm, rs: seq<Request>)
    requires VmOk(s) && AllSound(rs)
    ensures
      var t := MapAll(s, rs);
      && DataKept(s, t) && s.frames.used <= t.frames.used
      && Dirs(s) <= Dirs(t) && FreeCount(t.frames) == FreeCount(s.frames) - |Dirs(t) - Dirs(s)| >= 0
    decreases |rs|
  {
    hide MapOn, FrameOf, VmOk, IsTable, Alloc, Lowest, Dirs, FreeCount, DataKept;
    if rs == [] {
      DataKeptSelf(s);
      LowestFacts(s.frames);
      assert Dirs(s) - Dirs(s) == {};
    } else {
      var r := rs[0];
      assert Sound(r);
      MapCorrect(s, r.page, r.frame, r.flags);
      MapDirs(s, r.page, r.frame, r.flags);
      var u, t := MapOn(s, r.page, r.frame, r.flags), MapAll(s, rs);
      LowestFacts(s.frames);
      MapAllKeeps(u, rs[1..]);
      DataKeptTwice(s, u, t);
      var d := r.page / 1024;
      if d in Dirs(s) || !CanMap(s, r.page) {
        assert Dirs(u) == Dirs(s);
      } else {
        assert Dirs(t) - Dirs(s) == (Dirs(t) - Dirs(u)) + {d};
      }
    }
  }

  /** With frames for the missing tables, every request is met. */
  lemma {:induction false} MapAllAsked(s: Vm, rs: seq<Request>)
    requires VmOk(s) && AllSound(rs) && |Needs(rs) - Dirs(s)| <= FreeCount(s.frames)
    ensures forall q :: 0 <= q < 0x10_0000 ==> FrameOf(MapAll(s, rs), q) == Asked(rs, q, FrameOf(s, q))
    decreases |rs|
  {
    hide MapOn, FrameOf, VmOk, IsTable, Alloc, Lowest, Dirs, FreeCount, DataKept;
    if rs != [] {
      var r := rs[0];
      assert Sound(r);
      MapCorrect(s, r.page, r.frame, r.flags);
      MapDirs(s, r.page, r.frame, r.flags);
      NeedsStep(rs, Dirs(s));
      MapAllAsked(MapOn(s, r.page, r.frame, r.flags), rs[1..]);
    }
  }

  lemma {:induction false} NeedsStep(rs: seq<Request>, have: set<nat>)
    requires rs != []
    ensures var d := rs[0].page / 1024;
            |Needs(rs[1..]) - (have + {d})| == |Needs(rs) - have| - (if d in have then 0 else 1)
  {
    var d := rs[0].page / 1024;
    if d in have {
      assert Needs(rs[1..]) - (have + {d}) == Needs(rs) - have;
    } else {
      assert Needs(rs) - have == (Needs(rs[1..]) - (have + {d})) + {d};
    }
  }

  /** A page that was asked for is asked for by the whole sequence, so its table must be there. */
  lemma {:induction false} AskedNeeds(s: Vm, t: Vm, rs: seq<Request>, all: seq<Request>)
    requires VmOk(s) && VmOk(t) && AllSound(all) && |rs| <= |all| && rs == all[|all| - |rs|..]
    requires forall q :: 0 <= q < 0x10_0000 ==> FrameOf(t, q) == Asked(all, q, FrameOf(s, q))
    ensures Needs(rs) <= Dirs(t)
    decreases |rs|
  {
    hide FrameOf, VmOk, Dirs, Asked;
    if rs != [] {
      AskedNeeds(s, t, rs[1..], all);
      var k := |all| - |rs|;
      assert rs[0] == all[k] && Sound(all[k]);
      AskedSome(all, k, FrameOf(s, rs[0].page));
      TableThere(t, rs[0].page);
    }
  }

  lemma {:induction false} AskedSome(rs: seq<Request>, k: nat, was: Option<nat>)
    requires k < |rs|
    ensures Asked(rs, rs[k].page, was) != None
    decreases |rs|
  {
    if k > 0 {
      AskedSome(rs[1..], k - 1, if rs[0].page == rs[k].page then Some(rs[0].frame) else was);
    } else {
      AskedKeeps(rs[1..], rs[0].page, Some(rs[0].frame));
    }
  }

  lemma {:induction false} AskedKeeps(rs: seq<Request>, q: nat, was: Option<nat>)
    requires was != None
    ensures Asked(rs, q, was) != None
    decreases |rs|
  {
    if rs != [] {
      AskedKeeps(rs[1..], q, if rs[0].page == q then Some(rs[0].frame) else was);
    }
  }

  lemma {:induction false} TableThere(s: Vm, page: nat)
    requires VmOk(s) && page < 0x10_0000 && FrameOf(s, page) != None
    ensures page / 1024 in Dirs(s)
  {
    hide Pde;
  }

  lemma {:induction false} TablesUsed(s: Vm)
    requires VmOk(s)
    ensures forall f :: IsTable(s, f) ==> f in s.frames.used && f != Lowest(s.frames)
  {
    hide Pde, Present, Frame, FreeFrom;
    LowestFacts(s.frames);
    forall f | IsTable(s, f) ensures f in s.frames.used && f != Lowest(s.frames) {
      if f != s.dir {
        var d :| 0 <= d < 1024 && Present(Pde(s, d)) && Frame(Pde(s, d)) == f;
        assert TableFine(s, d);
      }
    }
  }

  // ---------- the kernel's code ----------

  /** The pages that `vmm_init` maps to themselves. */
  const IdentityPages: set<nat> := set q: nat | q < 2048 && q != 0x500

  class KernelVm {
    var mem: Phys
    const dir: nat
    const pmm: FrameAllocator

    constructor (m: Phys, d: nat, p: FrameAllocator)
      ensures mem == m && dir == d && pmm == p
    {
      mem, dir, pmm := m, d, p;
    }

    ghost predicate Valid()
      reads this, pmm, pmm.bitmap
    {
      pmm.Valid() && VmOk(State())
    }

    ghost function State(): Vm
      requires pmm.Valid()
      reads this, pmm, pmm.bitmap
    {
      Vm(mem, dir, pmm.View())
    }

    /** The byte at a virtual address; none means a page fault. */
    method LoadByte(v: u32) returns (b: Option<byte>)
      requires Valid()
      ensures b == VByte(State(), v)
    {
      hide Word, VmOk;
      b := VByte(Vm(mem, dir, Frames(0, {})), v);
    }

    /** A byte store at a virtual address, or a page fault. */
    method StoreByte(v: u32, b: byte) returns (ok: bool)
      requires Valid() && (VByte(State(), v) != None ==> Owned(State(), v / 4096))
      modifies this
      ensures Valid()
      ensures ok == (VByte(old(State()), v) != None)
      ensures State() == if ok then VStore(old(State()), v, b) else old(State())
    {
      hide Word, VmOk, FrameOf;
      ghost var s := State();
      var x := LoadByte(v);
      if x == None {
        return false;
      }
      StoreKeepsTables(s, v, b);
      var a := Translate(Vm(mem, dir, Frames(0, {})), v);
      SameWalk(s, Vm(mem, dir, Frames(0, {})), v);
      mem := mem[a.value := b];
      ok := true;
    }

    /** Word `k` of frame `f` written before paging is on. */
    method StorePhysical(f: nat, k: nat, w: u32)
      requires Has(mem, f) && k < 1024
      modifies this
      ensures mem == SetWord(old(mem), f, k, w)
    {
      mem := SetWord(mem, f, k, w);
    }

    /** Word `k` of frame `f` written with paging on, at the frame's own address. */
    method Store(f: nat, k: nat, w: u32)
      requires pmm.Valid() && Has(mem, dir) && Has(mem, f) && k < 1024 && Reach(State(), f)
      modifies this
      ensures mem == SetWord(old(mem), f, k, w)
    {
      hide Word, FrameOf, U32Bytes;
      var v: u32 := f * 4096 + 4 * k;
      assert v / 4096 == f && v % 4096 == 4 * k;
      var a := Translate(Vm(mem, dir, Frames(0, {})), v);
      SameWalk(State(), Vm(mem, dir, Frames(0, {})), v);
      mem := Splice(mem, a.value, U32Bytes(w));
    }

    /** The loop that clears a new table. */
    method Zero(f: nat)
      requires Valid() && Has(mem, f) && Reach(State(), f) && !IsTable(State(), f)
      modifies this
      ensures mem == ZeroFrame(old(mem), f)
    {
      hide VmOk, IsTable, FrameOf;
      ghost var s := State();
      var i := 0;
      while i < 1024
        invariant 0 <= i <= 1024 && |mem| == |s.mem|
        invariant forall x :: 0 <= x < |mem| ==> mem[x] == if f * 4096 <= x < f * 4096 + 4 * i then 0 else s.mem[x]
      {
        WalkBeside(s, State(), f, f);
        Store(f, i, 0);
        assert U32Bytes(0) == [0, 0, 0, 0];
        i := i + 1;
      }
      assert mem == ZeroFrame(s.mem, f);
    }

    /** `vmm_get_table`: the frame of the table, or null. */
    method GetTable(virt: u32, flags: nat) returns (table: Option<nat>)
      requires Valid() && flags < 4096 && TableReach(State(), virt / 0x40_0000)
      modifies this, pmm, pmm.bitmap
      ensures Valid() && State() == WithTable(old(State()), virt / 0x40_0000, flags)
      ensures table == if Present(Pde(State(), virt / 0x40_0000))
                       then Some(Frame(Pde(State(), virt / 0x40_0000))) else None
    {
      hide SetWord, ZeroFrame, Word, Entry, FreeFrom, Bit, FrameOf;
      var d := virt / 0x40_0000;
      ghost var s := State();
      if Present(Word(mem, dir, d)) {
        return Some(Frame(Word(mem, dir, d)));
      }
      LowestFacts(s.frames);
      var a := pmm.Allocate();
      if a == 0 {
        return None;
      }
      AllocFacts(s.frames);
      VmFacts(s);
      MadeMemory(s, d, flags);
      TableMade(s, d, flags);
      EntryFacts(a / 4096, flags);
      ZeroNew(a / 4096, s);
      Store(dir, d, Entry(a / 4096, flags));
      table := Some(a / 4096);
    }

    /** A frame just taken cleared, with the directory still in reach. */
    method ZeroNew(f: nat, ghost s: Vm)
      requires pmm.Valid() && VmOk(s) && State() == Taken(s) && Has(mem, f) && f !in s.frames.used
      requires Reach(s, f) && Reach(s, s.dir)
      modifies this
      ensures mem == ZeroFrame(old(mem), f) && Has(mem, dir) && Reach(State(), dir)
    {
      hide VmOk, FrameOf, Alloc, ZeroFrame, IsTable;
      TakenOk(s);
      FreeNotTable(s, f);
      Zero(f);
      ZeroFrameFacts(s.mem, f);
      WalkBeside(Taken(s), State(), f, dir);
    }

    /** `vmm_map`. */
    method Map(virt: u32, phys: u32, flags: nat)
      requires Valid() && flags < 4096 && TableReach(State(), virt / 4096 / 1024)
      modifies this, pmm, pmm.bitmap
      ensures Valid() && State() == MapOn(old(State()), virt / 4096, phys / 4096, flags)
    {
      hide SetWord, Word, Entry, FreeFrom, Bit, WithTable, FrameOf;
      ghost var s := State();
      var page := virt / 4096;
      assert page / 1024 == virt / 0x40_0000;
      var index := page % 1024;
      MapCorrect(s, page, phys / 4096, flags);
      NoTable(s, page / 1024, flags);
      if CanMap(s, page) {
        TableMade(s, page / 1024, flags);
        TableIs(s, page / 1024, flags);
      }
      var table := GetTable(virt, flags);
      if table == None {
        return;
      }
      EntryMemory(State(), page, phys / 4096, flags);
      Store(table.value, index, Entry(phys / 4096, flags));
    }

    /** Where the table is: where it was, or in the frame taken for it. */
    lemma {:induction false} TableIs(s: Vm, d: nat, flags: nat)
      requires VmOk(s) && d < 1024 && flags < 4096 && (Present(Pde(s, d)) || HasFree(s.frames))
      ensures Has(WithTable(s, d, flags).mem, WithTable(s, d, flags).dir)
      ensures Frame(Pde(WithTable(s, d, flags), d)) == if Present(Pde(s, d)) then Frame(Pde(s, d)) else Lowest(s.frames)
    {
      hide Word, Entry, VmOk;
      if !Present(Pde(s, d)) {
        MadeMemory(s, d, flags);
        EntryFacts(Lowest(s.frames), flags);
      }
    }

    /** A sequence of maps, one call after the other, that leaves the identity map of the page tables alone. */
    method MapMany(rs: seq<Request>, ghost K: set<nat>)
      requires Valid() && AllSound(rs) && Pinned(State(), K)
      requires Supply(State().frames, |Needs(rs) - Dirs(State())|) <= K
      requires forall i :: 0 <= i < |rs| ==> rs[i].page !in K
      modifies this, pmm, pmm.bitmap
      ensures Valid() && State() == MapAll(old(State()), rs) && Pinned(State(), K)
    {
      hide MapOn, FrameOf, VmOk, Dirs, Pinned, Bit, Needs, TableReach, Supply;
      ghost var goal := MapAll(State(), rs);
      var i := 0;
      assert rs[0..] == rs;
      while i < |rs|
        invariant 0 <= i <= |rs| && Valid()
        invariant MapAll(State(), rs[i..]) == goal
        invariant Pinned(State(), K) && Supply(State().frames, |Needs(rs[i..]) - Dirs(State())|) <= K
      {
        assert Sound(rs[i]) && rs[i..][0] == rs[i] && rs[i..][1..] == rs[i + 1..];
        ManyStep(State(), K, rs[i..]);
        Map(rs[i].page * 4096, rs[i].frame * 4096, rs[i].flags);
        i := i + 1;
      }
    }

    /** One map of the sequence. */
    lemma {:induction false} ManyStep(s: Vm, K: set<nat>, rs: seq<Request>)
      requires VmOk(s) && rs != [] && Sound(rs[0]) && rs[0].page !in K
      requires Pinned(s, K) && Supply(s.frames, |Needs(rs) - Dirs(s)|) <= K
      ensures TableReach(s, rs[0].page / 1024)
      ensures
        var t := MapOn(s, rs[0].page, rs[0].frame, rs[0].flags);
        VmOk(t) && Pinned(t, K) && Supply(t.frames, |Needs(rs[1..]) - Dirs(t)|) <= K
    {
      hide MapOn, FrameOf, VmOk, Dirs, Pinned, Needs, TableReach, Supply, Alloc, Lowest, FreeCount;
      var r, d, n := rs[0], rs[0].page / 1024, |Needs(rs) - Dirs(s)|;
      NeedsStep(rs, Dirs(s));
      SupplyStep(s.frames, n);
      LowestFacts(s.frames);
      PinnedReach(s, K, d);
      PinnedMap(s, K, r.page, r.frame, r.flags);
      MapDirs(s, r.page, r.frame, r.flags);
      NoSupply(s.frames, |Needs(rs[1..]) - Dirs(s)|);
    }

    lemma {:induction false} NoTable(s: Vm, d: nat, flags: nat)
      requires VmOk(s) && d < 1024 && flags < 4096
      ensures !Present(Pde(s, d)) && !HasFree(s.frames) ==> WithTable(s, d, flags) == s
    {
    }

    /** The directory with its first two entries, and `n` entries of both identity tables, in place. */
    ghost predicate Filled(pt0: nat, pt1: nat, n: nat)
      requires Has(mem, dir) && Has(mem, pt0) && Has(mem, pt1) && n <= 1024 && pt0 < 0x10_0000 && pt1 < 0x10_0000
      reads this
    {
      && (forall d :: 0 <= d < 1024 ==>
            Word(mem, dir, d) == if d == 0 then Entry(pt0, 7) else if d == 1 then Entry(pt1, 7) else 0)
      && (forall k :: 0 <= k < n ==> Word(mem, pt0, k) == Entry(k, 7))
      && (forall k :: 0 <= k < n ==> Word(mem, pt1, k) == Entry(1024 + k, 7))
    }

    /** The three loops of `vmm_init`. */
    method FillTables(pt0: nat, pt1: nat)
      requires Has(mem, dir) && Has(mem, pt0) && Has(mem, pt1) && pt0 < 0x10_0000 && pt1 < 0x10_0000
      requires dir != pt0 && dir != pt1 && pt0 != pt1
      modifies this
      ensures |mem| == |old(mem)| && Filled(pt0, pt1, 1024)
    {
      hide SetWord, Word, Entry, SameFrame;
      var d := 0;
      while d < 1024
        invariant 0 <= d <= 1024 && |mem| == |old(mem)|
        invariant forall e :: 0 <= e < d ==> Word(mem, dir, e) == 0
      {
        SetWordFacts(mem, dir, d, 0);
        StorePhysical(dir, d, 0);
        d := d + 1;
      }
      SetWordFacts(mem, dir, 0, Entry(pt0, 7));
      StorePhysical(dir, 0, Entry(pt0, 7));
      SetWordFacts(mem, dir, 1, Entry(pt1, 7));
      StorePhysical(dir, 1, Entry(pt1, 7));
      var i := 0;
      while i < 1024
        invariant 0 <= i <= 1024 && |mem| == |old(mem)|
        invariant Filled(pt0, pt1, i)
      {
        FillStep(mem, dir, pt0, pt1, i);
        StorePhysical(pt0, i, Entry(i, 7));
        StorePhysical(pt1, i, Entry(1024 + i, 7));
        i := i + 1;
      }
    }

    /** The table set-up of `vmm_init`, with the two static tables in frames `pt0` and `pt1`: the first 8 MB
        mapped to themselves, except the page at 0x500000, which gets a frame of its own. The static tables are
        part of the kernel, so they lie in those 8 MB. */
    method Init(pt0: nat, pt1: nat)
      requires pmm.Valid() && |mem| == pmm.totalPages * 4096 && dir < 2048 && pt0 < 2048 && pt1 < 2048
      requires {dir, pt0, pt1} <= pmm.View().used && dir != pt0 && dir != pt1 && pt0 != pt1
      modifies this, pmm, pmm.bitmap
      ensures Valid() && State().frames == Alloc(old(pmm.View()))
      ensures forall q :: 0 <= q < 0x10_0000 ==>
        FrameOf(State(), q) == if q == 0x500 then Some(Address(old(pmm.View())) / 4096)
                               else if q < 2048 then Some(q) else None
      ensures Dirs(State()) == {0, 1} && forall f :: IsTable(State(), f) <==> f in {dir, pt0, pt1}
      ensures 0x500 !in {dir, pt0, pt1} ==> Pinned(State(), IdentityPages)
      ensures DirsOpen(State()) && forall q :: 0 <= q < 2048 ==> OpenPage(State(), q)
    {
      hide SetWord, Word, Entry, FreeFrom, Bit, MapOn, FrameOf, Alloc, Pinned, Dirs, IsTable, DirsOpen, OpenPage,
           HasFlags;
      FramesHeld(mem, pmm.View());
      FillTables(pt0, pt1);
      ghost var s := State();
      Identity(s, pt0, pt1);
      LowestFacts(s.frames);
      AllocFacts(s.frames);
      var stack := pmm.Allocate();
      ghost var u := State();
      TakenOk(s);
      OpensTaken(s);
      MapOpens(u, 0x500, stack / 4096);
      MapCorrect(u, 0x500, stack / 4096, 7);
      assert Pde(u, 1) == Entry(pt1, 7);
      EntryFacts(pt1, 7);
      Map(0x50_0000, stack, 7);
      InitTables(State(), pt0, pt1);
      InitPinned(State(), pt0, pt1);
    }

    lemma {:induction false} InitPinned(s: Vm, pt0: nat, pt1: nat)
      requires Has(s.mem, s.dir) && {s.dir, pt0, pt1} <= IdentityPages + {0x500}
      requires forall q :: 0 <= q < 2048 && q != 0x500 ==> FrameOf(s, q) == Some(q)
      requires forall f :: IsTable(s, f) <==> f in {s.dir, pt0, pt1}
      ensures 0x500 !in {s.dir, pt0, pt1} ==> Pinned(s, IdentityPages)
    {
      hide FrameOf, IsTable;
    }

    lemma {:induction false} InitTables(s: Vm, pt0: nat, pt1: nat)
      requires Has(s.mem, s.dir) && pt0 < 0x10_0000 && pt1 < 0x10_0000
      requires forall d :: 0 <= d < 1024 ==>
        Pde(s, d) == if d == 0 then Entry(pt0, 7) else if d == 1 then Entry(pt1, 7) else 0
      ensures Dirs(s) == {0, 1} && forall f :: IsTable(s, f) <==> f in {s.dir, pt0, pt1}
    {
      hide Pde, Entry, Frame;
      EntryFacts(pt0, 7);
      EntryFacts(pt1, 7);
      assert Present(Pde(s, 0)) && Present(Pde(s, 1));
    }

    lemma {:induction false} FramesHeld(m: Phys, f: Frames)
      requires Ok(f) && |m| == f.total * 4096
      ensures forall x :: x in f.used ==> Has(m, x) && x < 0x10_0000
    {
    }

    /** One pass of the fill loop. */
    lemma {:induction false} FillStep(m: Phys, dir: nat, pt0: nat, pt1: nat, i: nat)
      requires Has(m, dir) && Has(m, pt0) && Has(m, pt1) && i < 1024 && dir != pt0 && dir != pt1 && pt0 != pt1
      ensures
        var m' := SetWord(SetWord(m, pt0, i, Entry(i, 7)), pt1, i, Entry(1024 + i, 7));
        && (forall d :: 0 <= d < 1024 ==> Word(m', dir, d) == Word(m, dir, d))
        && (forall k :: 0 <= k < 1024 ==> Word(m', pt0, k) == if k == i then Entry(i, 7) else Word(m, pt0, k))
        && (forall k :: 0 <= k < 1024 ==> Word(m', pt1, k) == if k == i then Entry(1024 + i, 7) else Word(m, pt1, k))
    {
      hide SetWord, Word, Entry, SameFrame;
      var m1 := SetWord(m, pt0, i, Entry(i, 7));
      var m' := SetWord(m1, pt1, i, Entry(1024 + i, 7));
      SetWordFacts(m, pt0, i, Entry(i, 7));
      SetWordFacts(m1, pt1, i, Entry(1024 + i, 7));
      forall d | 0 <= d < 1024 ensures Word(m', dir, d) == Word(m, dir, d) {
        WordKept(m, m1, dir, d);
        WordKept(m1, m', dir, d);
      }
      forall k | 0 <= k < 1024
        ensures Word(m', pt0, k) == if k == i then Entry(i, 7) else Word(m, pt0, k)
        ensures Word(m', pt1, k) == if k == i then Entry(1024 + i, 7) else Word(m, pt1, k)
      {
        WordKept(m1, m', pt0, k);
        WordKept(m, m1, pt1, k);
      }
    }

    /** The filled tables are in order and translate the first 2048 pages to themselves. */
    lemma {:induction false} Identity(s: Vm, pt0: nat, pt1: nat)
      requires Ok(s.frames) && |s.mem| == s.frames.total * 4096
      requires {s.dir, pt0, pt1} <= s.frames.used && s.dir != pt0 && s.dir != pt1 && pt0 != pt1
      requires Has(s.mem, s.dir) && Has(s.mem, pt0) && Has(s.mem, pt1) && pt0 < 0x10_0000 && pt1 < 0x10_0000
      requires forall d :: 0 <= d < 1024 ==>
        Word(s.mem, s.dir, d) == if d == 0 then Entry(pt0, 7) else if d == 1 then Entry(pt1, 7) else 0
      requires forall k :: 0 <= k < 1024 ==> Word(s.mem, pt0, k) == Entry(k, 7)
      requires forall k :: 0 <= k < 1024 ==> Word(s.mem, pt1, k) == Entry(1024 + k, 7)
      ensures VmOk(s)
      ensures forall q :: 0 <= q < 0x10_0000 ==> FrameOf(s, q) == if q < 2048 then Some(q) else None
      ensures DirsOpen(s) && forall q :: 0 <= q < 2048 ==> OpenPage(s, q)
    {
      hide Word, Entry, Frame, HasFlags, Open;
      EntryFacts(pt0, 7);
      EntryFacts(pt1, 7);
      forall d | 0 <= d < 1024 ensures TableFine(s, d) {
      }
      forall q | 0 <= q < 0x10_0000 ensures FrameOf(s, q) == if q < 2048 then Some(q) else None {
        EntryFacts(q % 2048, 7);
      }
      FlagsOpen(Entry(pt0, 7));
      FlagsOpen(Entry(pt1, 7));
      forall q | 0 <= q < 2048 ensures OpenPage(s, q) {
        EntryFacts(q, 7);
        FlagsOpen(Entry(q, 7));
      }
    }
  }
}
