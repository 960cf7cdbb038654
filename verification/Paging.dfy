/** Two-level page tables held in physical memory, and the walk the processor makes through them
    (kernel/vmm.c; 32-bit paging, section 4.3 of the Intel SDM Volume 3A). Frames and pages go by number;
    frame `f` is the 4096 bytes from address `4096 * f` on. */
module Paging {
  import opened Bytes
  import opened FrameSpec

  datatype Option<T> = None | Some(value: T)

  type Phys = seq<byte>

  // ---------- entries ----------

  predicate Present(e: u32) { e % 2 == 1 }

  /** The frame an entry names: `(e & ~0xFFF)` as a frame number. */
  function Frame(e: u32): nat { e / 4096 }

  /** `(frame address) | flags | PAGE_PRESENT`, for flags in the low 12 bits. */
  function Entry(frame: nat, flags: nat): u32
    requires frame < 0x10_0000 && flags < 4096
  {
    frame * 4096 + if flags % 2 == 1 then flags else flags + 1
  }

  /** Bit 0 is set, and bits 1 to 11 are those of `flags`. */
  predicate HasFlags(e: u32, flags: nat) { e % 2 == 1 && e % 4096 / 2 == flags / 2 }

  lemma {:induction false} EntryFacts(frame: nat, flags: nat)
    requires frame < 0x10_0000 && flags < 4096
    ensures Present(Entry(frame, flags)) && Frame(Entry(frame, flags)) == frame && HasFlags(Entry(frame, flags), flags)
  {
  }

  // ---------- words of frames ----------

  /** The memory holds frame `f`. */
  predicate Has(m: Phys, f: nat) { f * 4096 + 4096 <= |m| }

  /** Word `k` of frame `f`. */
  function Word(m: Phys, f: nat, k: nat): u32
    requires Has(m, f) && k < 1024
  {
    U32At(m, f * 4096 + 4 * k)
  }

  function SetWord(m: Phys, f: nat, k: nat, w: u32): (r: Phys)
    requires Has(m, f) && k < 1024
    ensures |r| == |m|
  {
    Splice(m, f * 4096 + 4 * k, U32Bytes(w))
  }

  /** The bytes of a frame are the same in both memories. */
  predicate SameFrame(m: Phys, m': Phys, f: nat) {
    |m| == |m'| && forall x :: f * 4096 <= x < f * 4096 + 4096 && x < |m| ==> m'[x] == m[x]
  }

  lemma {:induction false} SetWordFacts(m: Phys, f: nat, k: nat, w: u32)
    requires Has(m, f) && k < 1024
    ensures Word(SetWord(m, f, k, w), f, k) == w
    ensures forall j :: 0 <= j < 1024 && j != k ==> Word(SetWord(m, f, k, w), f, j) == Word(m, f, j)
    ensures forall g :: 0 <= g && g != f ==> SameFrame(m, SetWord(m, f, k, w), g)
  {
    hide U32Bytes;
    var r := SetWord(m, f, k, w);
    var o := f * 4096 + 4 * k;
    assert r[o..o + 4] == U32Bytes(w);
    U32RoundTrip(w, r, o);
    forall j | 0 <= j < 1024 && j != k ensures Word(r, f, j) == Word(m, f, j) {
      var p := f * 4096 + 4 * j;
      assert r[p] == m[p] && r[p + 1] == m[p + 1] && r[p + 2] == m[p + 2] && r[p + 3] == m[p + 3];
    }
  }

  lemma {:induction false} WordKept(m: Phys, m': Phys, f: nat, k: nat)
    requires Has(m, f) && k < 1024 && SameFrame(m, m', f)
    ensures Has(m', f) && Word(m', f, k) == Word(m, f, k)
  {
    var p := f * 4096 + 4 * k;
    assert m'[p] == m[p] && m'[p + 1] == m[p + 1] && m'[p + 2] == m[p + 2] && m'[p + 3] == m[p + 3];
  }

  function ZeroFrame(m: Phys, f: nat): (r: Phys)
    requires Has(m, f)
    ensures |r| == |m|
  {
    Splice(m, f * 4096, seq(4096, _ => 0))
  }

  lemma {:induction false} ZeroFrameFacts(m: Phys, f: nat)
    requires Has(m, f)
    ensures forall k :: 0 <= k < 1024 ==> Word(ZeroFrame(m, f), f, k) == 0
    ensures forall g :: 0 <= g && g != f ==> SameFrame(m, ZeroFrame(m, f), g)
  {
    var r := ZeroFrame(m, f);
    forall k | 0 <= k < 1024 ensures Word(r, f, k) == 0 {
      var p := f * 4096 + 4 * k;
      assert r[p] == 0 && r[p + 1] == 0 && r[p + 2] == 0 && r[p + 3] == 0;
    }
  }

  // ---------- the page tables ----------

  /** Physical memory, the frame of the page directory and the frames in use. */
  datatype Vm = Vm(mem: Phys, dir: nat, frames: Frames)

  /** Directory entry `d`. */
  function Pde(s: Vm, d: nat): u32
    requires Has(s.mem, s.dir) && d < 1024
  {
    Word(s.mem, s.dir, d)
  }

  /** The table of directory entry `d`, if it has one, is a frame in use other than the directory. */
  predicate TableFine(s: Vm, d: nat)
    requires Has(s.mem, s.dir) && d < 1024
  {
    Present(Pde(s, d)) ==> Frame(Pde(s, d)) in s.frames.used && Frame(Pde(s, d)) != s.dir
  }

  predicate TablesApart(s: Vm, d: nat, e: nat)
    requires Has(s.mem, s.dir) && d < 1024 && e < 1024
  {
    d != e && Present(Pde(s, d)) && Present(Pde(s, e)) ==> Frame(Pde(s, d)) != Frame(Pde(s, e))
  }

  /** Memory covers the frames; the directory and all tables are distinct frames in use. */
  predicate VmOk(s: Vm): (ok: bool)
    ensures ok ==> Has(s.mem, s.dir) && Ok(s.frames) && |s.mem| == s.frames.total * 4096
  {
    && Ok(s.frames) && |s.mem| == s.frames.total * 4096
    && s.dir in s.frames.used && Has(s.mem, s.dir)
    && (forall d :: 0 <= d < 1024 ==> TableFine(s, d))
    && (forall d, e :: 0 <= d < 1024 && 0 <= e < 1024 ==> TablesApart(s, d, e))
  }

  /** The frame the walk finds for a page. */
  function FrameOf(s: Vm, page: nat): Option<nat>
    requires Has(s.mem, s.dir) && page < 0x10_0000
  {
    var e := Pde(s, page / 1024);
    if !Present(e) || !Has(s.mem, Frame(e)) then None
    else
      var t := Word(s.mem, Frame(e), page % 1024);
      if Present(t) then Some(Frame(t)) else None
  }

  /** The table entry of a page, or 0 when there is no table for it. */
  function LeafOf(s: Vm, page: nat): u32
    requires Has(s.mem, s.dir) && page < 0x10_0000
  {
    var e := Pde(s, page / 1024);
    if !Present(e) || !Has(s.mem, Frame(e)) then 0 else Word(s.mem, Frame(e), page % 1024)
  }

  /** The walk for a virtual address. */
  function Translate(s: Vm, v: u32): Option<nat>
    requires Has(s.mem, s.dir)
  {
    match FrameOf(s, v / 4096)
    case None => None
    case Some(f) => Some(f * 4096 + v % 4096)
  }

  /** The walk in words of memory: the directory entry by bits 31 to 22 of the address, the table entry by bits 21
      to 12, and bits 11 to 0 within the frame; bit 0 of each entry says whether it is present. */
  lemma {:induction false} WalkIs(s: Vm, v: u32)
    requires Has(s.mem, s.dir)
    ensures
      var e := U32At(s.mem, s.dir * 4096 + v / 0x40_0000 * 4);
      Translate(s, v) ==
        if e % 2 == 0 || e / 4096 * 4096 + 4096 > |s.mem| then None
        else
          var t := U32At(s.mem, e / 4096 * 4096 + v / 4096 % 1024 * 4);
          if t % 2 == 0 then None else Some(t / 4096 * 4096 + v % 4096)
  {
    hide U32At;
    assert v / 4096 / 1024 == v / 0x40_0000;
  }

  /** A frame the walk reads: the directory or a table. */
  predicate IsTable(s: Vm, f: nat)
    requires Has(s.mem, s.dir)
  {
    f == s.dir || exists d :: 0 <= d < 1024 && Present(Pde(s, d)) && Frame(Pde(s, d)) == f
  }

  // ---------- vmm_map ----------

  predicate HasFree(f: Frames) { Lowest(f) < f.total }

  /** `vmm_get_table` for directory entry `d`: the table there is, or a new zeroed one. */
  function WithTable(s: Vm, d: nat, flags: nat): Vm
    requires VmOk(s) && d < 1024 && flags < 4096
  {
    if Present(Pde(s, d)) || !HasFree(s.frames) then s
    else
      var a := Lowest(s.frames);
      s.(mem := SetWord(ZeroFrame(s.mem, a), s.dir, d, Entry(a, flags)), frames := Alloc(s.frames))
  }

  /** There is a table for the page, or a frame to make it from. */
  predicate CanMap(s: Vm, page: nat)
    requires Has(s.mem, s.dir) && page < 0x10_0000
  {
    Present(Pde(s, page / 1024)) || HasFree(s.frames)
  }

  /** The entry of `page` written in its table. */
  function WithEntry(s: Vm, page: nat, frame: nat, flags: nat): Vm
    requires VmOk(s) && page < 0x10_0000 && frame < 0x10_0000 && flags < 4096 && Present(Pde(s, page / 1024))
  {
    assert TableFine(s, page / 1024);
    s.(mem := SetWord(s.mem, Frame(Pde(s, page / 1024)), page % 1024, Entry(frame, flags)))
  }

  function MapOn(s: Vm, page: nat, frame: nat, flags: nat): Vm
    requires VmOk(s) && page < 0x10_0000 && frame < 0x10_0000 && flags < 4096
  {
    if !CanMap(s, page) then s
    else
      TableMade(s, page / 1024, flags);
      WithEntry(WithTable(s, page / 1024, flags), page, frame, flags)
  }

  // ---------- what a new table changes ----------

  lemma {:induction false} LowestFacts(f: Frames)
    requires Ok(f)
    ensures Ok(Alloc(f)) && Alloc(f).total == f.total && f.used <= Alloc(f).used
    ensures HasFree(f) ==> Lowest(f) !in f.used && Alloc(f).used == f.used + {Lowest(f)} && Lowest(f) != 0
    ensures HasFree(f) <==> FreeCount(f) > 0
    ensures HasFree(f) ==> FreeCount(Alloc(f)) == FreeCount(f) - 1
    ensures FreeCount(f) >= 0
  {
    hide FreeFrom;
    AllocFacts(f);
  }

  /** Making a table: one directory entry appears, the table is empty, no other frame changes. */
  lemma {:induction false} MadeMemory(s: Vm, d: nat, flags: nat)
    requires VmOk(s) && d < 1024 && flags < 4096 && !Present(Pde(s, d)) && HasFree(s.frames)
    ensures
      var a, t := Lowest(s.frames), WithTable(s, d, flags);
      && |t.mem| == |s.mem| && t.dir == s.dir && t.frames == Alloc(s.frames)
      && Has(s.mem, a) && a !in s.frames.used && a < 0x10_0000
      && Pde(t, d) == Entry(a, flags)
      && (forall e :: 0 <= e < 1024 && e != d ==> Pde(t, e) == Pde(s, e))
      && (forall k :: 0 <= k < 1024 ==> Word(t.mem, a, k) == 0)
      && (forall f :: 0 <= f && f != s.dir && f != a ==> SameFrame(s.mem, t.mem, f))
  {
    hide SetWord, ZeroFrame, Word, Entry, VmOk, SameFrame;
    LowestFacts(s.frames);
    var a := Lowest(s.frames);
    var z := ZeroFrame(s.mem, a);
    var t := WithTable(s, d, flags);
    VmFacts(s);
    ZeroFrameFacts(s.mem, a);
    SetWordFacts(z, s.dir, d, Entry(a, flags));
    forall e | 0 <= e < 1024 && e != d ensures Pde(t, e) == Pde(s, e) {
      WordKept(s.mem, z, s.dir, e);
    }
    forall k | 0 <= k < 1024 ensures Word(t.mem, a, k) == 0 {
      WordKept(z, t.mem, a, k);
    }
    forall f | 0 <= f && f != s.dir && f != a ensures SameFrame(s.mem, t.mem, f) {
      SameTwice(s.mem, z, t.mem, f);
    }
  }

  lemma {:induction false} VmFacts(s: Vm)
    requires VmOk(s)
    ensures s.dir in s.frames.used && forall f :: f in s.frames.used ==> Has(s.mem, f)
    ensures Lowest(s.frames) < s.frames.total ==> Has(s.mem, Lowest(s.frames))
  {
  }

  lemma {:induction false} SameTwice(m: Phys, m1: Phys, m2: Phys, f: nat)
    requires SameFrame(m, m1, f) && SameFrame(m1, m2, f)
    ensures SameFrame(m, m2, f)
  {
  }

  lemma {:induction false} TableMade(s: Vm, d: nat, flags: nat)
    requires VmOk(s) && d < 1024 && flags < 4096 && (Present(Pde(s, d)) || HasFree(s.frames))
    ensures
      var t := WithTable(s, d, flags);
      && VmOk(t) && t.dir == s.dir && Present(Pde(t, d))
      && (forall q :: 0 <= q < 0x10_0000 ==> FrameOf(t, q) == FrameOf(s, q))
  {
    if !Present(Pde(s, d)) {
      hide Pde, VmOk, FrameOf, Entry, Frame, WithTable;
      var t := WithTable(s, d, flags);
      MadeMemory(s, d, flags);
      LowestFacts(s.frames);
      EntryFacts(Lowest(s.frames), flags);
      MadeOk(s, d, flags);
      forall q | 0 <= q < 0x10_0000 ensures FrameOf(t, q) == FrameOf(s, q) {
        MadeWalk(s, d, flags, q);
      }
    }
  }

  lemma {:induction false} MadeOk(s: Vm, d: nat, flags: nat)
    requires VmOk(s) && d < 1024 && flags < 4096 && !Present(Pde(s, d)) && HasFree(s.frames)
    ensures VmOk(WithTable(s, d, flags))
  {
    var a, t := Lowest(s.frames), WithTable(s, d, flags);
    MadeMemory(s, d, flags);
    EntryFacts(a, flags);
    LowestFacts(s.frames);
    hide Pde, WithTable, Entry, Present, Frame, Alloc;
    forall e | 0 <= e < 1024 ensures TableFine(t, e) {
      assert TableFine(s, e);
    }
    forall e, e' | 0 <= e < 1024 && 0 <= e' < 1024 ensures TablesApart(t, e, e') {
      assert TablesApart(s, e, e') && TableFine(s, e) && TableFine(s, e');
    }
  }

  lemma {:induction false} MadeWalk(s: Vm, d: nat, flags: nat, q: nat)
    requires VmOk(s) && d < 1024 && flags < 4096 && !Present(Pde(s, d)) && HasFree(s.frames)
    requires q < 0x10_0000
    ensures Has(WithTable(s, d, flags).mem, s.dir) && WithTable(s, d, flags).dir == s.dir
    ensures FrameOf(WithTable(s, d, flags), q) == FrameOf(s, q)
  {
    var a, t := Lowest(s.frames), WithTable(s, d, flags);
    var e := q / 1024;
    MadeMemory(s, d, flags);
    EntryFacts(a, flags);
    VmFacts(s);
    assert TableFine(s, e);
    hide WithTable, Word, Entry, VmOk, Pde, SameFrame, Frame;
    if e == d {
      assert Word(t.mem, a, q % 1024) == 0;
    } else if Present(Pde(s, e)) {
      assert SameFrame(s.mem, t.mem, Frame(Pde(s, e)));
      WordKept(s.mem, t.mem, Frame(Pde(s, e)), q % 1024);
    }
  }

  // ---------- what a new entry changes ----------

  lemma {:induction false} EntryMemory(s: Vm, page: nat, frame: nat, flags: nat)
    requires VmOk(s) && page < 0x10_0000 && frame < 0x10_0000 && flags < 4096 && Present(Pde(s, page / 1024))
    ensures
      var t := WithEntry(s, page, frame, flags);
      var b := Frame(Pde(s, page / 1024));
      && |t.mem| == |s.mem| && t.dir == s.dir && t.frames == s.frames
      && Has(s.mem, b) && b != s.dir && b in s.frames.used
      && (forall e :: 0 <= e < 1024 ==> Pde(t, e) == Pde(s, e))
      && Word(t.mem, b, page % 1024) == Entry(frame, flags)
      && (forall k :: 0 <= k < 1024 && k != page % 1024 ==> Word(t.mem, b, k) == Word(s.mem, b, k))
      && (forall f :: 0 <= f && f != b ==> SameFrame(s.mem, t.mem, f))
  {
    var b := Frame(Pde(s, page / 1024));
    assert TableFine(s, page / 1024);
    VmFacts(s);
    var t := WithEntry(s, page, frame, flags);
    hide SetWord, Word, Entry, VmOk, SameFrame, Frame;
    SetWordFacts(s.mem, b, page % 1024, Entry(frame, flags));
    forall e | 0 <= e < 1024 ensures Pde(t, e) == Pde(s, e) {
      WordKept(s.mem, t.mem, s.dir, e);
    }
  }

  /** Writing an entry changes the translation of exactly one page. */
  lemma {:induction false} EntryWritten(s: Vm, page: nat, frame: nat, flags: nat)
    requires VmOk(s) && page < 0x10_0000 && frame < 0x10_0000 && flags < 4096 && Present(Pde(s, page / 1024))
    ensures
      var t := WithEntry(s, page, frame, flags);
      && VmOk(t) && t.dir == s.dir
      && (forall q :: 0 <= q < 0x10_0000 ==> FrameOf(t, q) == if q == page then Some(frame) else FrameOf(s, q))
  {
    hide WithEntry, Word, Pde, Entry, Present, FrameOf, Frame;
    var t := WithEntry(s, page, frame, flags);
    EntryMemory(s, page, frame, flags);
    forall e | 0 <= e < 1024 ensures TableFine(t, e) {
      assert TableFine(s, e);
    }
    forall e, e' | 0 <= e < 1024 && 0 <= e' < 1024 ensures TablesApart(t, e, e') {
      assert TablesApart(s, e, e');
    }
    forall q | 0 <= q < 0x10_0000 ensures FrameOf(t, q) == if q == page then Some(frame) else FrameOf(s, q) {
      EntryWalk(s, page, frame, flags, q);
    }
  }

  lemma {:induction false} EntryWalk(s: Vm, page: nat, frame: nat, flags: nat, q: nat)
    requires VmOk(s) && page < 0x10_0000 && frame < 0x10_0000 && flags < 4096 && Present(Pde(s, page / 1024))
    requires q < 0x10_0000
    ensures
      var t := WithEntry(s, page, frame, flags);
      Has(t.mem, t.dir) && FrameOf(t, q) == if q == page then Some(frame) else FrameOf(s, q)
  {
    var t := WithEntry(s, page, frame, flags);
    var d, e := page / 1024, q / 1024;
    EntryMemory(s, page, frame, flags);
    EntryFacts(frame, flags);
    VmFacts(s);
    assert TableFine(s, e) && TablesApart(s, d, e);
    hide WithEntry, Word, Entry, VmOk, Pde, SameFrame, Frame, Present;
    if e == d {
      assert q == page <==> q % 1024 == page % 1024;
    } else if Present(Pde(s, e)) {
      assert SameFrame(s.mem, t.mem, Frame(Pde(s, e)));
      WordKept(s.mem, t.mem, Frame(Pde(s, e)), q % 1024);
    }
  }

  // ---------- vmm_map as a whole ----------

  /** Every frame that was in use and not part of the page tables keeps its bytes and stays out of them. */
  predicate DataKept(s: Vm, t: Vm)
    requires Has(s.mem, s.dir) && Has(t.mem, t.dir)
  {
    forall f :: f in s.frames.used && !IsTable(s, f) ==> SameFrame(s.mem, t.mem, f) && !IsTable(t, f)
  }

  /** `vmm_map` changes the translation of exactly one page, also when it has to build a table; without a
      frame to build it from it changes nothing. Tables take only frames that were free, and what was
      a table stays one. */
  lemma {:induction false} MapCorrect(s: Vm, page: nat, frame: nat, flags: nat)
    requires VmOk(s) && page < 0x10_0000 && frame < 0x10_0000 && flags < 4096
    ensures
      var t := MapOn(s, page, frame, flags);
      && VmOk(t) && t.dir == s.dir && |t.mem| == |s.mem|
      && (forall q :: 0 <= q < 0x10_0000 ==>
            FrameOf(t, q) == if q == page && CanMap(s, page) then Some(frame) else FrameOf(s, q))
      && t.frames == (if CanMap(s, page) && !Present(Pde(s, page / 1024)) then Alloc(s.frames) else s.frames)
      && DataKept(s, t)
      && (CanMap(s, page) ==> Present(Pde(t, page / 1024)))
      && (CanMap(s, page) && !Present(Pde(s, page / 1024)) ==> Frame(Pde(t, page / 1024)) == Lowest(s.frames))
      && (forall d :: 0 <= d < 1024 && (Present(Pde(s, d)) || d != page / 1024) ==> Pde(t, d) == Pde(s, d))
  {
    hide WithEntry, Word, Entry, FrameOf, WithTable, VmOk;
    if CanMap(s, page) {
      var u := WithTable(s, page / 1024, flags);
      TableMade(s, page / 1024, flags);
      EntryWritten(u, page, frame, flags);
      EntryMemory(u, page, frame, flags);
      MakeKeepsData(s, page / 1024, flags);
      EntryKeepsData(u, page, frame, flags);
      if !Present(Pde(s, page / 1024)) {
        MadeMemory(s, page / 1024, flags);
        EntryFacts(Lowest(s.frames), flags);
      }
      var t := MapOn(s, page, frame, flags);
      DataKeptTwice(s, u, t);
    } else {
      DataKeptSelf(s);
    }
  }

  lemma {:induction false} DataKeptSelf(s: Vm)
    requires Has(s.mem, s.dir)
    ensures DataKept(s, s)
  {
  }

  lemma {:induction false} DataKeptTwice(s: Vm, u: Vm, t: Vm)
    requires Has(s.mem, s.dir) && Has(u.mem, u.dir) && Has(t.mem, t.dir)
    requires DataKept(s, u) && DataKept(u, t) && s.frames.used <= u.frames.used
    ensures DataKept(s, t)
  {
    hide IsTable, SameFrame;
    forall f | f in s.frames.used && !IsTable(s, f) ensures SameFrame(s.mem, t.mem, f) && !IsTable(t, f) {
      SameTwice(s.mem, u.mem, t.mem, f);
    }
  }

  lemma {:induction false} MakeKeepsData(s: Vm, d: nat, flags: nat)
    requires VmOk(s) && d < 1024 && flags < 4096 && (Present(Pde(s, d)) || HasFree(s.frames))
    ensures
      var t := WithTable(s, d, flags);
      && |t.mem| == |s.mem| && t.dir == s.dir
      && t.frames == (if Present(Pde(s, d)) then s.frames else Alloc(s.frames))
      && s.frames.used <= t.frames.used
      && DataKept(s, t)
      && (forall e :: 0 <= e < 1024 && (e != d || Present(Pde(s, e))) ==> Pde(t, e) == Pde(s, e))
  {
    var t := WithTable(s, d, flags);
    if !Present(Pde(s, d)) {
      var a := Lowest(s.frames);
      MadeMemory(s, d, flags);
      EntryFacts(a, flags);
      LowestFacts(s.frames);
      hide WithTable, Pde, Frame, Entry, Present, SameFrame;
      forall f | f in s.frames.used && !IsTable(s, f) ensures SameFrame(s.mem, t.mem, f) && !IsTable(t, f) {
        assert f != s.dir && f != a;
      }
    }
  }

  lemma {:induction false} EntryKeepsData(s: Vm, page: nat, frame: nat, flags: nat)
    requires VmOk(s) && page < 0x10_0000 && frame < 0x10_0000 && flags < 4096 && Present(Pde(s, page / 1024))
    ensures var t := WithEntry(s, page, frame, flags);
            Has(t.mem, t.dir) && DataKept(s, t) && t.frames == s.frames
  {
    var t := WithEntry(s, page, frame, flags);
    EntryMemory(s, page, frame, flags);
    hide WithEntry, Pde, Frame, Present, SameFrame;
    forall f | f in s.frames.used && !IsTable(s, f) ensures SameFrame(s.mem, t.mem, f) && !IsTable(t, f) {
      assert f != Frame(Pde(s, page / 1024));
    }
  }

  // ---------- flags ----------

  lemma {:induction false} LeafMade(s: Vm, d: nat, flags: nat, q: nat)
    requires VmOk(s) && d < 1024 && flags < 4096 && (Present(Pde(s, d)) || HasFree(s.frames)) && q < 0x10_0000
    ensures
      var t := WithTable(s, d, flags);
      && VmOk(t) && Present(Pde(t, d)) && LeafOf(t, q) == LeafOf(s, q)
      && (!Present(Pde(s, d)) ==> HasFlags(Pde(t, d), flags))
  {
    TableMade(s, d, flags);
    if !Present(Pde(s, d)) {
      var a, t, e := Lowest(s.frames), WithTable(s, d, flags), q / 1024;
      MadeMemory(s, d, flags);
      EntryFacts(a, flags);
      VmFacts(s);
      assert TableFine(s, e);
      hide WithTable, Word, Entry, VmOk, Pde, SameFrame, Frame, HasFlags;
      if e == d {
        assert Word(t.mem, a, q % 1024) == 0;
      } else if Present(Pde(s, e)) {
        assert SameFrame(s.mem, t.mem, Frame(Pde(s, e)));
        WordKept(s.mem, t.mem, Frame(Pde(s, e)), q % 1024);
      }
    }
  }

  lemma {:induction false} LeafWritten(s: Vm, page: nat, frame: nat, flags: nat, q: nat)
    requires VmOk(s) && page < 0x10_0000 && frame < 0x10_0000 && flags < 4096 && Present(Pde(s, page / 1024))
    requires q < 0x10_0000
    ensures
      var t := WithEntry(s, page, frame, flags);
      && Has(t.mem, t.dir)
      && (if q == page then HasFlags(LeafOf(t, q), flags) && Frame(LeafOf(t, q)) == frame
          else LeafOf(t, q) == LeafOf(s, q))
  {
    var t := WithEntry(s, page, frame, flags);
    var d, e := page / 1024, q / 1024;
    EntryMemory(s, page, frame, flags);
    EntryFacts(frame, flags);
    VmFacts(s);
    assert TableFine(s, e) && TablesApart(s, d, e);
    hide WithEntry, Word, Entry, VmOk, Pde, SameFrame, Frame, Present, HasFlags;
    if e == d {
      assert q == page <==> q % 1024 == page % 1024;
    } else if Present(Pde(s, e)) {
      assert SameFrame(s.mem, t.mem, Frame(Pde(s, e)));
      WordKept(s.mem, t.mem, Frame(Pde(s, e)), q % 1024);
    }
  }

  /** What `vmm_map` writes, bit by bit: the entry of the page names the frame with the bits of `flags` and the
      present bit, and so does a new directory entry; every other entry of both levels stays as it is. */
  lemma {:induction false} MapFlags(s: Vm, page: nat, frame: nat, flags: nat)
    requires VmOk(s) && page < 0x10_0000 && frame < 0x10_0000 && flags < 4096
    ensures
      var t, d := MapOn(s, page, frame, flags), page / 1024;
      && VmOk(t)
      && (CanMap(s, page) ==> HasFlags(LeafOf(t, page), flags) && Frame(LeafOf(t, page)) == frame)
      && (CanMap(s, page) && !Present(Pde(s, d)) ==>
            HasFlags(Pde(t, d), flags) && Frame(Pde(t, d)) == Lowest(s.frames))
      && (forall q :: 0 <= q < 0x10_0000 && (q != page || !CanMap(s, page)) ==> LeafOf(t, q) == LeafOf(s, q))
      && (forall e :: 0 <= e < 1024 && (Present(Pde(s, e)) || e != d || !CanMap(s, page)) ==> Pde(t, e) == Pde(s, e))
  {
    hide WithEntry, Word, Entry, LeafOf, FrameOf, WithTable, VmOk, HasFlags, Frame;
    MapCorrect(s, page, frame, flags);
    if CanMap(s, page) {
      var u := WithTable(s, page / 1024, flags);
      LeafMade(s, page / 1024, flags, page);
      EntryMemory(u, page, frame, flags);
      LeafWritten(u, page, frame, flags, page);
      forall q | 0 <= q < 0x10_0000 && q != page ensures LeafOf(MapOn(s, page, frame, flags), q) == LeafOf(s, q) {
        LeafMade(s, page / 1024, flags, q);
        LeafWritten(u, page, frame, flags, q);
      }
    }
  }
}
