/** The heap as it lies in paged memory: the bytes the walk shows from 16 MB on, and all the rest. */
module HeapView {
  import opened Bytes
  import opened FrameSpec
  import opened Paging
  import opened WalkMemory
  import opened HeapMemory

  /** The heap's pages: 1 MB from 16 MB on. */
  const HeapPages: set<nat> := set p: nat | 0x1000 <= p < 0x1100

  function ByteOf(b: Option<byte>): byte { if b.Some? then b.value else 0 }

  /** The heap's bytes, as the walk shows them. */
  function HeapBytes(s: Vm): (m: seq<byte>)
    requires Has(s.mem, s.dir)
    ensures |m| == HEAP_SIZE
  {
    seq<byte>(HEAP_SIZE, k requires 0 <= k < HEAP_SIZE => ByteOf(VByte(s, HEAP_START + k)))
  }

  /** The frames of the heap's pages, in order. */
  function Places(s: Vm): (r: seq<Option<nat>>)
    requires Has(s.mem, s.dir)
  {
    seq(0x100, i requires 0 <= i < 0x100 => FrameOf(s, 0x1000 + i))
  }

  /** Everything but the heap's bytes. */
  datatype Rest = Rest(dir: nat, frames: Frames, places: seq<Option<nat>>, bytes: seq<byte>)

  function Beside(s: Vm): Rest
    requires Has(s.mem, s.dir)
  {
    var places := Places(s);
    Rest(s.dir, s.frames, places,
         seq(|s.mem|, x requires 0 <= x < |s.mem| => if Some(x / 4096) in places then 0 else s.mem[x]))
  }

  lemma {:induction false} PlaceOf(s: Vm, p: nat)
    requires Has(s.mem, s.dir) && p in HeapPages && FrameOf(s, p).Some?
    ensures FrameOf(s, p) in Places(s)
  {
    assert Places(s)[p - 0x1000] == FrameOf(s, p);
  }

  /** A frame outside the heap's is the same frame in both states. */
  lemma {:induction false} BesideFrame(s: Vm, t: Vm, f: nat)
    requires Has(s.mem, s.dir) && Has(t.mem, t.dir) && Beside(t) == Beside(s) && Some(f) !in Places(s)
    ensures SameFrame(s.mem, t.mem, f)
  {
    hide Places;
    assert |Beside(s).bytes| == |s.mem| && |Beside(t).bytes| == |t.mem|;
    forall x | f * 4096 <= x < f * 4096 + 4096 && x < |s.mem| ensures t.mem[x] == s.mem[x] {
      assert Beside(s).bytes[x] == s.mem[x] && Beside(t).bytes[x] == t.mem[x];
    }
  }

  /** No table lies in a frame of the heap. */
  lemma {:induction false} TableOutside(s: Vm, f: nat)
    requires Has(s.mem, s.dir) && Separate(s, HeapPages) && IsTable(s, f)
    ensures Some(f) !in Places(s)
  {
    hide IsTable, FrameOf;
    forall i | 0 <= i < 0x100 ensures Places(s)[i] != Some(f) {
      assert Owned(s, 0x1000 + i);
    }
  }

  /** A change of the heap's bytes alone: tables, translations and frames stay. */
  lemma {:induction false} BesideTables(s: Vm, t: Vm)
    requires VmOk(s) && Separate(s, HeapPages) && Has(t.mem, t.dir) && Beside(t) == Beside(s)
    ensures VmOk(t) && SameTables(s, t) && |t.mem| == |s.mem|
    ensures forall f :: IsTable(t, f) <==> IsTable(s, f)
  {
    hide FrameOf, LeafOf, Pde, Frame, Present, SameFrame, Separate, Places;
    assert |Beside(s).bytes| == |s.mem| && |Beside(t).bytes| == |t.mem|;
    forall f | IsTable(s, f) ensures SameFrame(s.mem, t.mem, f) {
      TableOutside(s, f);
      BesideFrame(s, t, f);
    }
    assert IsTable(s, s.dir);
    forall d | 0 <= d < 1024 ensures Pde(t, d) == Pde(s, d) {
      PdeKept(s, t, d);
    }
    forall d | 0 <= d < 1024 ensures TableFine(t, d) {
      assert TableFine(s, d);
    }
    forall d, e | 0 <= d < 1024 && 0 <= e < 1024 ensures TablesApart(t, d, e) {
      assert TablesApart(s, d, e);
    }
    forall q | 0 <= q < 0x10_0000 ensures FrameOf(t, q) == FrameOf(s, q) && LeafOf(t, q) == LeafOf(s, q) {
      WalkKept(s, t, q);
    }
  }

  /** Then the other pages of a separate set read as before. */
  lemma {:induction false} BesideSame(s: Vm, t: Vm, P: set<nat>)
    requires VmOk(s) && Separate(s, P) && HeapPages <= P && Has(t.mem, t.dir) && Beside(t) == Beside(s)
    ensures Separate(t, P) && SameOn(s, t, P - HeapPages)
  {
    hide FrameOf, VmOk, Pde, IsTable, Beside;
    assert Separate(s, HeapPages);
    BesideTables(s, t);
    forall p | p in P ensures Owned(t, p) {
      assert Owned(s, p);
    }
    forall v: u32 | v / 4096 in P - HeapPages ensures VByte(t, v) == VByte(s, v) {
      assert Owned(s, v / 4096) && Owned(t, v / 4096);
      OwnedReads(s, v);
      OwnedReads(t, v);
      NotAPlace(s, P, v / 4096);
      BesideFrame(s, t, FrameOf(s, v / 4096).value);
    }
  }

  lemma {:induction false} NotAPlace(s: Vm, P: set<nat>, p: nat)
    requires Has(s.mem, s.dir) && Separate(s, P) && HeapPages <= P && p in P && p !in HeapPages
    ensures FrameOf(s, p) !in Places(s)
  {
    hide FrameOf, Owned;
    forall i | 0 <= i < 0x100 ensures Places(s)[i] != FrameOf(s, p) {
      assert 0x1000 + i in HeapPages;
    }
  }

  /** A store to the heap changes one of its bytes and nothing else. */
  lemma {:induction false} HeapStore(s: Vm, v: u32, b: byte)
    requires VmOk(s) && Separate(s, HeapPages) && v / 4096 in HeapPages
    ensures VByte(s, v) != None && Owned(s, v / 4096)
    ensures
      var t := VStore(s, v, b);
      && VmOk(t) && Separate(t, HeapPages) && Beside(t) == Beside(s)
      && HeapBytes(t) == HeapBytes(s)[v - HEAP_START := b]
  {
    hide FrameOf, VmOk, Pde, IsTable, VByte, Separate, VStore, Owned;
    StoreStep(s, HeapPages, v, b);
    var t := VStore(s, v, b);
    assert Places(t) == Places(s);
    StoreBeside(s, v, b);
    forall k | 0 <= k < HEAP_SIZE ensures HeapBytes(t)[k] == HeapBytes(s)[v - HEAP_START := b][k] {
      var w: u32 := HEAP_START + k;
      assert w / 4096 in HeapPages && HeapBytes(t)[k] == ByteOf(VByte(t, w)) && HeapBytes(s)[k] == ByteOf(VByte(s, w));
      assert VByte(t, w) == if w == v then Some(b) else VByte(s, w);
    }
  }

  lemma {:induction false} StoreBeside(s: Vm, v: u32, b: byte)
    requires VmOk(s) && v / 4096 in HeapPages && VByte(s, v) != None
    requires Has(VStore(s, v, b).mem, s.dir) && Places(VStore(s, v, b)) == Places(s)
    ensures Beside(VStore(s, v, b)) == Beside(s)
  {
    hide FrameOf, VmOk, Places;
    var t := VStore(s, v, b);
    PlaceOf(s, v / 4096);
    assert Beside(t).bytes == Beside(s).bytes;
  }

  // ---------- the kernel beside the heap ----------

  /** The kernel pages in use that hold neither page tables nor heap. */
  ghost function KernelData(s: Vm, K: set<nat>): (r: set<nat>)
    requires Has(s.mem, s.dir)
    ensures r <= K
  {
    set p | p in K && p in s.frames.used && !IsTable(s, p) && Some(p) !in Places(s)
  }

  /** They have frames of their own, apart from the heap's. */
  lemma {:induction false} KernelSeparate(s: Vm, K: set<nat>)
    requires VmOk(s) && Separate(s, HeapPages) && Pinned(s, K)
    ensures Separate(s, HeapPages + KernelData(s, K)) && HeapPages !! KernelData(s, K)
  {
    hide FrameOf, VmOk, IsTable;
    var D := KernelData(s, K);
    forall p | p in D ensures p < 0x10_0000 && Owned(s, p) && FrameOf(s, p) == Some(p) {
      assert Reach(s, p);
    }
    forall p | p in HeapPages ensures FrameOf(s, p) in Places(s) {
      assert Owned(s, p);
      PlaceOf(s, p);
    }
  }

  /** What a change of the heap's bytes alone keeps. */
  lemma {:induction false} HeapOnly(s: Vm, t: Vm, P: set<nat>, K: set<nat>)
    requires VmOk(s) && Separate(s, P) && HeapPages <= P && Pinned(s, K)
    requires Has(t.mem, t.dir) && Beside(t) == Beside(s)
    ensures VmOk(t) && t.frames == s.frames && Dirs(t) == Dirs(s)
    ensures Separate(t, P) && SameOn(s, t, P - HeapPages) && Pinned(t, K)
  {
    hide FrameOf, VmOk, Pde, Beside, Owned, VByte;
    assert Separate(s, HeapPages);
    BesideTables(s, t);
    BesideSame(s, t, P);
    PinnedSame(s, t, K);
  }
}
