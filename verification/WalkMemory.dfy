/** Memory as the processor sees it through the page walk. */
module WalkMemory {
  import opened Bytes
  import opened FrameSpec
  import opened Paging

  // ---------- bytes through the walk ----------

  /** The byte at virtual address `v`, or none when the page is not mapped to memory. */
  function VByte(s: Vm, v: u32): Option<byte>
    requires Has(s.mem, s.dir)
  {
    match Translate(s, v)
    case None => None
    case Some(a) => if a < |s.mem| then Some(s.mem[a]) else None
  }

  function VStore(s: Vm, v: u32, b: byte): Vm
    requires Has(s.mem, s.dir) && VByte(s, v) != None
  {
    s.(mem := s.mem[Translate(s, v).value := b])
  }

  /** Page `p` is mapped to a frame in use that the walk itself does not read. */
  predicate Owned(s: Vm, p: nat)
    requires Has(s.mem, s.dir) && p < 0x10_0000
  {
    match FrameOf(s, p)
    case None => false
    case Some(f) => f in s.frames.used && !IsTable(s, f)
  }

  /** The pages of `P` have owned frames, all different. */
  predicate Separate(s: Vm, P: set<nat>)
    requires Has(s.mem, s.dir)
  {
    && (forall p :: p in P ==> p < 0x10_0000 && Owned(s, p))
    && (forall p, q :: p in P && q in P && p != q ==> FrameOf(s, p) != FrameOf(s, q))
  }

  /** The pages of `P` read the same in both states. */
  ghost predicate SameOn(s: Vm, t: Vm, P: set<nat>)
    requires Has(s.mem, s.dir) && Has(t.mem, t.dir)
  {
    forall v: u32 :: v / 4096 in P ==> VByte(t, v) == VByte(s, v)
  }

  lemma {:induction false} OwnedReads(s: Vm, v: u32)
    requires VmOk(s) && Owned(s, v / 4096)
    ensures VByte(s, v) != None
    ensures Translate(s, v).Some? && Translate(s, v).value == FrameOf(s, v / 4096).value * 4096 + v % 4096 < |s.mem|
  {
    hide FrameOf;
    VmFacts(s);
  }

  // ---------- a store through the walk ----------

  lemma {:induction false} StoreKeepsTables(s: Vm, v: u32, b: byte)
    requires VmOk(s) && Owned(s, v / 4096) && VByte(s, v) != None
    ensures
      var t := VStore(s, v, b);
      && VmOk(t) && t.dir == s.dir && t.frames == s.frames && |t.mem| == |s.mem|
      && (forall d :: 0 <= d < 1024 ==> Pde(t, d) == Pde(s, d))
      && (forall q :: 0 <= q < 0x10_0000 ==> FrameOf(t, q) == FrameOf(s, q))
      && (forall q :: 0 <= q < 0x10_0000 ==> LeafOf(t, q) == LeafOf(s, q))
      && (forall f :: f in s.frames.used ==> (IsTable(t, f) <==> IsTable(s, f)))
  {
    var t := VStore(s, v, b);
    var f := FrameOf(s, v / 4096).value;
    OwnedReads(s, v);
    hide FrameOf, LeafOf, Pde, Word, Frame, Present;
    StoreSame(s, v, b, f);
    forall d | 0 <= d < 1024 ensures Pde(t, d) == Pde(s, d) {
      PdeKept(s, t, d);
    }
    forall d | 0 <= d < 1024 ensures TableFine(t, d) {
      assert TableFine(s, d);
    }
    forall d, e | 0 <= d < 1024 && 0 <= e < 1024 ensures TablesApart(t, d, e) {
      assert TablesApart(s, d, e);
    }
    forall q | 0 <= q < 0x10_0000 ensures FrameOf(t, q) == FrameOf(s, q) && LeafOf(t, q) == LeafOf(s, q) {
      WalkKept(s, t, q);
    }
  }

  /** Only one frame, not a table, changes. */
  lemma {:induction false} StoreSame(s: Vm, v: u32, b: byte, f: nat)
    requires VmOk(s) && Owned(s, v / 4096) && VByte(s, v) != None && FrameOf(s, v / 4096) == Some(f)
    ensures forall g :: 0 <= g && g != f ==> SameFrame(s.mem, VStore(s, v, b).mem, g)
    ensures |VStore(s, v, b).mem| == |s.mem| && VStore(s, v, b).dir == s.dir && VStore(s, v, b).frames == s.frames
  {
    hide FrameOf;
  }

  lemma {:induction false} PdeKept(s: Vm, t: Vm, d: nat)
    requires VmOk(s) && t.dir == s.dir && |t.mem| == |s.mem| && SameFrame(s.mem, t.mem, s.dir) && d < 1024
    ensures Pde(t, d) == Pde(s, d)
  {
    hide Word;
    WordKept(s.mem, t.mem, s.dir, d);
  }

  /** The walk for a page depends only on the table frames. */
  lemma {:induction false} WalkKept(s: Vm, t: Vm, q: nat)
    requires VmOk(s) && t.dir == s.dir && |t.mem| == |s.mem| && q < 0x10_0000
    requires Pde(t, q / 1024) == Pde(s, q / 1024)
    requires forall g :: IsTable(s, g) ==> SameFrame(s.mem, t.mem, g)
    ensures FrameOf(t, q) == FrameOf(s, q) && LeafOf(t, q) == LeafOf(s, q)
  {
    var e := Pde(s, q / 1024);
    hide Word, Pde, SameFrame;
    if Present(e) && Has(s.mem, Frame(e)) {
      assert IsTable(s, Frame(e));
      WordKept(s.mem, t.mem, Frame(e), q % 1024);
    }
  }

  /** A store to one of several separate pages changes that byte of them and no other. */
  lemma {:induction false} StoreStep(s: Vm, P: set<nat>, v: u32, b: byte)
    requires VmOk(s) && Separate(s, P) && v / 4096 in P
    ensures Owned(s, v / 4096) && VByte(s, v) != None
    ensures
      var t := VStore(s, v, b);
      && VmOk(t) && t.dir == s.dir && t.frames == s.frames && Separate(t, P)
      && (forall d :: 0 <= d < 1024 ==> Pde(t, d) == Pde(s, d))
      && (forall q :: 0 <= q < 0x10_0000 ==> FrameOf(t, q) == FrameOf(s, q))
      && (forall q :: 0 <= q < 0x10_0000 ==> LeafOf(t, q) == LeafOf(s, q))
      && VByte(t, v) == Some(b)
      && (forall w: u32 :: w / 4096 in P && w != v ==> VByte(t, w) == VByte(s, w))
  {
    hide FrameOf, LeafOf, VmOk, IsTable, Pde;
    assert Owned(s, v / 4096);
    OwnedReads(s, v);
    var t := VStore(s, v, b);
    StoreKeepsTables(s, v, b);
    forall p | p in P ensures Owned(t, p) {
      assert Owned(s, p);
    }
    forall w: u32 | w / 4096 in P && w != v ensures VByte(t, w) == VByte(s, w) {
      assert Owned(s, w / 4096);
      OwnedReads(s, w);
      Elsewhere(v, w, FrameOf(s, v / 4096).value, FrameOf(s, w / 4096).value);
    }
  }

  lemma {:induction false} Elsewhere(v: u32, w: u32, f: nat, g: nat)
    requires v != w && (if v / 4096 == w / 4096 then f == g else f != g)
    ensures f * 4096 + v % 4096 != g * 4096 + w % 4096
  {
  }

  /** Nothing but bytes of owned pages differs: same tables, same frames. */
  ghost predicate SameTables(s: Vm, t: Vm)
    requires Has(s.mem, s.dir) && Has(t.mem, t.dir)
  {
    && t.dir == s.dir && t.frames == s.frames
    && (forall d :: 0 <= d < 1024 ==> Pde(t, d) == Pde(s, d))
    && (forall q :: 0 <= q < 0x10_0000 ==> FrameOf(t, q) == FrameOf(s, q))
    && (forall q :: 0 <= q < 0x10_0000 ==> LeafOf(t, q) == LeafOf(s, q))
  }

  /** Pages outside `Q` are mapped as before. */
  predicate SameMap(s: Vm, t: Vm, Q: set<nat>)
    requires Has(s.mem, s.dir) && Has(t.mem, t.dir)
  {
    forall q :: 0 <= q < 0x10_0000 && q !in Q ==> FrameOf(t, q) == FrameOf(s, q)
  }

  lemma {:induction false} SameMapTwice(s: Vm, u: Vm, t: Vm, P: set<nat>, Q: set<nat>, R: set<nat>)
    requires Has(s.mem, s.dir) && Has(u.mem, u.dir) && Has(t.mem, t.dir)
    requires SameMap(s, u, P) && SameMap(u, t, Q) && P <= R && Q <= R
    ensures SameMap(s, t, R)
  {
    hide FrameOf;
  }

  lemma {:induction false} SameWalk(s: Vm, t: Vm, v: u32)
    requires Has(s.mem, s.dir) && t.mem == s.mem && t.dir == s.dir
    ensures Translate(t, v) == Translate(s, v) && VByte(t, v) == VByte(s, v)
  {
  }

  lemma {:induction false} FreeNotTable(s: Vm, f: nat)
    requires VmOk(s) && f !in s.frames.used
    ensures !IsTable(s, f)
  {
    hide Pde, Frame, Present;
    forall d | 0 <= d < 1024 && Present(Pde(s, d)) ensures Frame(Pde(s, d)) != f {
      assert TableFine(s, d);
    }
  }

  /** A frame taken and not yet mapped. */
  function Taken(s: Vm): Vm { s.(frames := Alloc(s.frames)) }

  /** Taking a frame disturbs no translation. */
  lemma {:induction false} TakenOk(s: Vm)
    requires VmOk(s)
    ensures VmOk(Taken(s)) && Taken(s).dir == s.dir && Taken(s).mem == s.mem
    ensures forall d :: 0 <= d < 1024 ==> Pde(Taken(s), d) == Pde(s, d)
    ensures forall q :: 0 <= q < 0x10_0000 ==> FrameOf(Taken(s), q) == FrameOf(s, q)
    ensures forall f :: IsTable(Taken(s), f) <==> IsTable(s, f)
    ensures Dirs(Taken(s)) == Dirs(s)
  {
    hide Word, Frame, Present, Alloc;
    var t := Taken(s);
    LowestFacts(s.frames);
    forall d | 0 <= d < 1024 ensures TableFine(t, d) {
      assert TableFine(s, d);
    }
    forall d, e | 0 <= d < 1024 && 0 <= e < 1024 ensures TablesApart(t, d, e) {
      assert TablesApart(s, d, e);
    }
  }

  // ---------- tables and the frames for them ----------

  /** The directory entries that have a table. */
  function Dirs(s: Vm): set<nat>
    requires Has(s.mem, s.dir)
  {
    set d: nat | d < 1024 && Present(Pde(s, d))
  }

  lemma {:induction false} MapNothing(s: Vm, page: nat, frame: nat, flags: nat)
    requires VmOk(s) && page < 0x10_0000 && frame < 0x10_0000 && flags < 4096
    ensures !CanMap(s, page) ==> MapOn(s, page, frame, flags) == s
  {
  }

  lemma {:induction false} SameDirs(s: Vm, t: Vm)
    requires Has(s.mem, s.dir) && Has(t.mem, t.dir) && forall d :: 0 <= d < 1024 ==> Pde(t, d) == Pde(s, d)
    ensures Dirs(t) == Dirs(s)
  {
    hide Pde;
  }

  /** What `vmm_map` does to the set of tables and to the number of free frames. */
  lemma {:induction false} MapDirs(s: Vm, page: nat, frame: nat, flags: nat)
    requires VmOk(s) && page < 0x10_0000 && frame < 0x10_0000 && flags < 4096
    ensures CanMap(s, page) <==> page / 1024 in Dirs(s) || FreeCount(s.frames) > 0
    ensures
      var t := MapOn(s, page, frame, flags);
      && VmOk(t) && Dirs(t) == (if CanMap(s, page) then Dirs(s) + {page / 1024} else Dirs(s))
      && t.frames == (if CanMap(s, page) && page / 1024 !in Dirs(s) then Alloc(s.frames) else s.frames)
      && FreeCount(t.frames)
         == FreeCount(s.frames) - (if CanMap(s, page) && page / 1024 !in Dirs(s) then 1 else 0) >= 0
  {
    hide FrameOf, VmOk, MapOn, IsTable, Pde, Alloc, FreeCount, Frame, Present;
    LowestFacts(s.frames);
    MapCorrect(s, page, frame, flags);
    MapNothing(s, page, frame, flags);
    LowestFacts(MapOn(s, page, frame, flags).frames);
  }

  /** The kernel reaches frame `f` at its own address: page `f` is mapped to it. */
  predicate Reach(s: Vm, f: nat)
    requires Has(s.mem, s.dir)
  {
    f < 0x10_0000 && FrameOf(s, f) == Some(f)
  }

  /** What `vmm_map` touches for directory entry `d` is within reach: the directory, and the table there is
      or the frame that would become it. */
  predicate TableReach(s: Vm, d: nat)
    requires Has(s.mem, s.dir) && d < 1024
  {
    && Reach(s, s.dir)
    && (Present(Pde(s, d)) ==> Reach(s, Frame(Pde(s, d))))
    && (!Present(Pde(s, d)) && HasFree(s.frames) ==> Reach(s, Lowest(s.frames)))
  }

  /** The identity map that `vmm_map` relies on, as a set of pages: all mapped to themselves, with the page
      tables among them. */
  ghost predicate Pinned(s: Vm, K: set<nat>)
    requires Has(s.mem, s.dir)
  {
    && (forall p :: p in K ==> Reach(s, p))
    && (forall f :: IsTable(s, f) ==> f in K)
  }

  /** The frame that would become a table for directory entry `d`, if one were needed, is pinned. */
  predicate TableIn(f: Frames, have: set<nat>, d: nat, K: set<nat>) {
    d !in have && HasFree(f) ==> Lowest(f) in K
  }

  lemma {:induction false} PinnedReach(s: Vm, K: set<nat>, d: nat)
    requires VmOk(s) && d < 1024 && Pinned(s, K) && TableIn(s.frames, Dirs(s), d, K)
    ensures TableReach(s, d)
  {
    hide Pde, Present, Frame, FrameOf;
    assert IsTable(s, s.dir);
    if Present(Pde(s, d)) {
      assert IsTable(s, Frame(Pde(s, d)));
    }
  }

  /** Stores to owned pages leave the pinned ones pinned. */
  lemma {:induction false} PinnedSame(s: Vm, t: Vm, K: set<nat>)
    requires Has(s.mem, s.dir) && Has(t.mem, t.dir) && SameTables(s, t) && Pinned(s, K)
    ensures Pinned(t, K)
  {
    hide FrameOf, Pde;
    forall p | p in K ensures Reach(t, p) {
      assert Reach(s, p);
    }
    forall f | IsTable(t, f) ensures f in K {
      assert IsTable(s, f);
    }
  }

  /** A frame taken out of the pool leaves them pinned. */
  lemma {:induction false} PinnedTaken(s: Vm, K: set<nat>)
    requires VmOk(s) && Pinned(s, K)
    ensures VmOk(Taken(s)) && Pinned(Taken(s), K)
  {
    hide FrameOf, VmOk, IsTable, Alloc;
    TakenOk(s);
    forall p | p in K ensures Reach(Taken(s), p) {
      assert Reach(s, p);
    }
  }

  /** A map of a page outside the pinned ones keeps them pinned, a new table included. */
  lemma {:induction false} PinnedMap(s: Vm, K: set<nat>, page: nat, frame: nat, flags: nat)
    requires VmOk(s) && page < 0x10_0000 && frame < 0x10_0000 && flags < 4096 && page !in K
    requires Pinned(s, K) && TableIn(s.frames, Dirs(s), page / 1024, K)
    ensures var t := MapOn(s, page, frame, flags); VmOk(t) && Pinned(t, K)
  {
    hide FrameOf, VmOk, MapOn, Pde, Alloc, Frame, Present, Lowest;
    var t := MapOn(s, page, frame, flags);
    MapCorrect(s, page, frame, flags);
    MapNothing(s, page, frame, flags);
    forall p | p in K ensures Reach(t, p) {
      assert Reach(s, p);
    }
    forall f | IsTable(t, f) ensures f in K {
      if f != t.dir {
        var d :| 0 <= d < 1024 && Present(Pde(t, d)) && Frame(Pde(t, d)) == f;
        if Present(Pde(s, d)) || d != page / 1024 {
          assert IsTable(s, f);
        }
      }
    }
  }

  // ---------- who may write where ----------

  /** The writable and the user bit of an entry are set. */
  predicate Open(e: u32) { e / 2 % 4 == 3 }

  /** A program in ring 3 may write the page: both entries on the walk allow it. */
  predicate OpenPage(s: Vm, p: nat)
    requires Has(s.mem, s.dir)
  {
    p < 0x10_0000 && FrameOf(s, p).Some? && Open(Pde(s, p / 1024)) && Open(LeafOf(s, p))
  }

  predicate DirsOpen(s: Vm)
    requires Has(s.mem, s.dir)
  {
    forall d :: 0 <= d < 1024 && Present(Pde(s, d)) ==> Open(Pde(s, d))
  }

  /** With all directory entries open, they stay so, open pages stay open, and the pages of `Q` are open. */
  ghost predicate OpensUp(s: Vm, t: Vm, Q: set<nat>)
    requires Has(s.mem, s.dir) && Has(t.mem, t.dir)
  {
    DirsOpen(s) ==>
      && DirsOpen(t)
      && (forall p :: p in Q ==> OpenPage(t, p))
      && (forall p :: OpenPage(s, p) ==> OpenPage(t, p))
  }

  lemma {:induction false} OpensTwice(s: Vm, u: Vm, t: Vm, P: set<nat>, Q: set<nat>)
    requires Has(s.mem, s.dir) && Has(u.mem, u.dir) && Has(t.mem, t.dir)
    requires OpensUp(s, u, P) && OpensUp(u, t, Q)
    ensures OpensUp(s, t, P + Q)
  {
    hide OpenPage, DirsOpen;
  }

  lemma {:induction false} OpensSame(s: Vm, t: Vm)
    requires Has(s.mem, s.dir) && Has(t.mem, t.dir) && SameTables(s, t)
    ensures OpensUp(s, t, {})
  {
    hide FrameOf, LeafOf, Pde, Open;
  }

  lemma {:induction false} OpensTaken(s: Vm)
    requires VmOk(s)
    ensures Has(Taken(s).mem, Taken(s).dir) && OpensUp(s, Taken(s), {})
  {
    TakenOk(s);
    var t := Taken(s);
    assert forall q :: 0 <= q < 0x10_0000 ==> LeafOf(t, q) == LeafOf(s, q);
    hide FrameOf, LeafOf, Pde, Open, VmOk, IsTable, Dirs;
  }

  lemma {:induction false} FlagsOpen(e: u32)
    ensures HasFlags(e, 7) ==> Open(e)
  {
  }

  /** `vmm_map` with the present, writable and user flags opens the page it maps. */
  lemma {:induction false} MapOpens(s: Vm, page: nat, frame: nat)
    requires VmOk(s) && page < 0x10_0000 && frame < 0x10_0000
    ensures
      var t := MapOn(s, page, frame, 7);
      VmOk(t) && OpensUp(s, t, if CanMap(s, page) then {page} else {})
  {
    hide FrameOf, LeafOf, VmOk, MapOn, Pde, Frame, HasFlags, Open, Alloc;
    var t, d := MapOn(s, page, frame, 7), page / 1024;
    MapCorrect(s, page, frame, 7);
    MapFlags(s, page, frame, 7);
    FlagsOpen(LeafOf(t, page));
    FlagsOpen(Pde(t, d));
    if DirsOpen(s) {
      forall p | OpenPage(s, p) ensures OpenPage(t, p) {
        TablePresent(s, p);
      }
    }
  }

  lemma {:induction false} TablePresent(s: Vm, p: nat)
    requires Has(s.mem, s.dir) && p < 0x10_0000 && FrameOf(s, p).Some?
    ensures Present(Pde(s, p / 1024))
  {
    hide Pde;
  }

  // ---------- which frames become tables ----------

  /** The frame taken for the table of `page`, after one for the page itself. */
  function PageTable(f: Frames, have: set<nat>, page: nat): set<nat> {
    if page / 1024 in have || !HasFree(Alloc(f)) then {} else {Lowest(Alloc(f))}
  }

  /** The frames left once a page is mapped. */
  function FramesNext(f: Frames, have: set<nat>, page: nat): Frames {
    if page / 1024 in have then Alloc(f) else Alloc(Alloc(f))
  }

  /** The frames that become tables when `n` pages from `first` on are mapped, and the frames left then. */
  function TablesFor(f: Frames, have: set<nat>, first: nat, n: nat): set<nat>
    decreases n
  {
    if n == 0 then {}
    else PageTable(f, have, first) + TablesFor(FramesNext(f, have, first), have + {first / 1024}, first + 1, n - 1)
  }

  function FramesAfter(f: Frames, have: set<nat>, first: nat, n: nat): Frames
    decreases n
  {
    if n == 0 then f else FramesAfter(FramesNext(f, have, first), have + {first / 1024}, first + 1, n - 1)
  }

  lemma {:induction false} NoTablesLeft(f: Frames, have: set<nat>, first: nat, n: nat)
    requires !HasFree(f)
    ensures TablesFor(f, have, first, n) == {} && Alloc(f) == f
    decreases n
  {
    hide FreeFrom;
    if n > 0 {
      NoTablesLeft(f, have + {first / 1024}, first + 1, n - 1);
    }
  }

  /** Where the tables are there, no frame becomes one, and each page takes one frame. */
  lemma {:induction false} TablesThere(f: Frames, have: set<nat>, first: nat, n: nat)
    requires forall p :: first <= p < first + n ==> p / 1024 in have
    ensures TablesFor(f, have, first, n) == {}
    decreases n
  {
    hide Alloc;
    if n > 0 {
      assert first / 1024 in have;
      assert have + {first / 1024} == have;
      TablesThere(Alloc(f), have, first + 1, n - 1);
    }
  }

  /** Bytes of a frame the walk does not read have no influence on it. */
  lemma {:induction false} WalkBeside(s: Vm, t: Vm, f: nat, q: nat)
    requires VmOk(s) && !IsTable(s, f) && t.dir == s.dir && q < 0x10_0000
    requires forall g :: 0 <= g && g != f ==> SameFrame(s.mem, t.mem, g)
    ensures Has(t.mem, t.dir) && FrameOf(t, q) == FrameOf(s, q)
  {
    hide FrameOf, VmOk, Pde, SameFrame;
    assert SameFrame(s.mem, t.mem, s.dir);
    SameLength(s.mem, t.mem, s.dir);
    PdeKept(s, t, q / 1024);
    WalkKept(s, t, q);
  }

  lemma {:induction false} SameLength(m: Phys, m': Phys, f: nat)
    requires SameFrame(m, m', f)
    ensures |m'| == |m|
  {
  }
}
