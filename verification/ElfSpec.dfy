/** What loading an ELF image means for the memory seen through the page walk (kernel/elf.c;
    segment loading, chapter 5 of the System V gABI). */
module ElfSpec {
  import opened Bytes
  import opened FrameSpec
  import opened Paging
  import opened WalkMemory

  // ---------- a fresh page ----------

  /** Mapping a free frame at a new page adds an owned page and disturbs none of the others. */
  lemma {:induction false} MapStep(s: Vm, P: set<nat>, page: nat)
    requires VmOk(s) && Separate(s, P) && page < 0x10_0000 && page !in P && HasFree(s.frames)
    requires VmOk(Taken(s)) && CanMap(Taken(s), page) && Lowest(s.frames) < 0x10_0000
    ensures
      var t := MapOn(Taken(s), page, Lowest(s.frames), 7);
      VmOk(t) && t.dir == s.dir && Separate(t, P + {page}) && SameOn(s, t, P)
  {
    hide FrameOf, VmOk, MapOn, IsTable, Pde, Alloc, CanMap;
    var f, u := Lowest(s.frames), Taken(s);
    var t := MapOn(u, page, f, 7);
    LowestFacts(s.frames);
    TakenOk(s);
    MapCorrect(u, page, f, 7);
    FreeNotTable(s, f);
    LowestFacts(u.frames);
    forall p | p in P + {page} ensures p < 0x10_0000 && Owned(t, p) {
      if p != page {
        assert Owned(s, p);
      }
    }
    forall p, q | p in P + {page} && q in P + {page} && p != q ensures FrameOf(t, p) != FrameOf(t, q) {
      assert p != page ==> Owned(s, p);
      assert q != page ==> Owned(s, q);
    }
    forall v: u32 | v / 4096 in P ensures VByte(t, v) == VByte(s, v) {
      assert Owned(s, v / 4096);
      OwnedReads(s, v);
      var g := FrameOf(s, v / 4096).value;
      assert SameFrame(u.mem, t.mem, g);
    }
  }

  // ---------- counting frames ----------

  /** Mapping a fresh page costs one frame, and one more when its table is missing. */
  lemma {:induction false} MapCost(s: Vm, page: nat)
    requires VmOk(s) && page < 0x10_0000 && HasFree(s.frames)
    requires VmOk(Taken(s)) && CanMap(Taken(s), page) && Lowest(s.frames) < 0x10_0000
    ensures
      var t := MapOn(Taken(s), page, Lowest(s.frames), 7);
      && Has(t.mem, t.dir) && Dirs(t) == Dirs(s) + {page / 1024}
      && FreeCount(t.frames) == FreeCount(s.frames) - 1 - (if page / 1024 in Dirs(s) then 0 else 1)
  {
    hide FrameOf, VmOk, MapOn, IsTable, Pde, Alloc, FreeCount, Frame, Present;
    TakenOk(s);
    LowestFacts(s.frames);
    LowestFacts(Taken(s).frames);
    MapCorrect(Taken(s), page, Lowest(s.frames), 7);
  }

  /** Pages, and directory entries, of `n` pages from `first` on. */
  function Pages(first: nat, n: nat): (r: set<nat>)
    ensures forall p :: p in r <==> first <= p < first + n
  {
    if n == 0 then {} else Pages(first, n - 1) + {first + n - 1}
  }

  function DirsOf(first: nat, n: nat): set<nat> {
    if n == 0 then {} else DirsOf(first, n - 1) + {(first + n - 1) / 1024}
  }

  /** Frames needed for `n` pages when the directory entries `have` exist. */
  function Cost(have: set<nat>, first: nat, n: nat): nat { n + |DirsOf(first, n) - have| }

  lemma {:induction false} CostStep(have: set<nat>, first: nat, n: nat)
    ensures Cost(have, first, n + 1)
            == Cost(have, first, n) + 1 + (if (first + n) / 1024 in have + DirsOf(first, n) then 0 else 1)
  {
    var d := (first + n) / 1024;
    assert DirsOf(first, n + 1) == DirsOf(first, n) + {d};
    if d in have + DirsOf(first, n) {
      assert DirsOf(first, n + 1) - have == DirsOf(first, n) - have;
    } else {
      assert DirsOf(first, n + 1) - have == (DirsOf(first, n) - have) + {d};
    }
  }

  lemma {:induction false} CostGrows(have: set<nat>, first: nat, n: nat, m: nat)
    requires n <= m
    ensures Cost(have, first, n) + (m - n) <= Cost(have, first, m)
    decreases m - n
  {
    hide Cost;
    if n < m {
      CostStep(have, first, n);
      CostGrows(have, first, n + 1, m);
    }
  }

  /** Mapping the pages ends with the last one missing: its frame is the last there is, and it needs a table. */
  predicate Faults(have: set<nat>, first: nat, pages: nat, free: int) {
    && pages > 0 && free == Cost(have, first, pages - 1) + 1
    && (first + pages - 1) / 1024 !in have + DirsOf(first, pages - 1)
  }

  // ---------- images ----------

  const ELF_MAGIC: u32 := 0x464C_457F
  const BUFFER := 8192

  function U16At(b: seq<byte>, o: nat): nat
    requires o + 2 <= |b|
  {
    b[o] as int + 0x100 * (b[o + 1] as int)
  }

  /** The checks of `elf_load` on the header: magic, 32-bit, x86, executable (kernel/elf.c:46-65). In bytes: 7F 45 4C
      46 01 at the front, 02 00 03 00 from offset 16 on. */
  predicate Accepted(file: seq<byte>): (ok: bool)
    requires |file| >= 52
    ensures ok <==> file[0..5] == [0x7F, 0x45, 0x4C, 0x46, 1] && file[16..20] == [2, 0, 3, 0]
  {
    HeaderWords(file);
    U32At(file, 0) == ELF_MAGIC && file[4] == 1 && U16At(file, 18) == 3 && U16At(file, 16) == 2
  }

  lemma {:induction false} HeaderWords(file: seq<byte>)
    requires |file| >= 52
    ensures U32At(file, 0) == ELF_MAGIC && file[4] == 1 && U16At(file, 18) == 3 && U16At(file, 16) == 2 <==>
            file[0..5] == [0x7F, 0x45, 0x4C, 0x46, 1] && file[16..20] == [2, 0, 3, 0]
  {
    var a, b := file[0..5], file[16..20];
    assert a[0] == file[0] && a[1] == file[1] && a[2] == file[2] && a[3] == file[3] && a[4] == file[4];
    assert b[0] == file[16] && b[1] == file[17] && b[2] == file[18] && b[3] == file[19];
  }

  /** Any one of these nine bytes changed, and the image is rejected. */
  lemma {:induction false} OneByteOff(file: seq<byte>, k: nat, v: byte)
    requires |file| >= 52 && Accepted(file) && (k < 5 || 16 <= k < 20) && v != file[k]
    ensures !Accepted(file[k := v])
  {
    hide U32At, U16At;
    var f := file[k := v];
    assert file[0..5][if k < 5 then k else 0] == file[if k < 5 then k else 0];
    assert f[0..5][if k < 5 then k else 0] == f[if k < 5 then k else 0];
    assert file[16..20][if k < 5 then 0 else k - 16] == file[if k < 5 then 16 else k];
    assert f[16..20][if k < 5 then 0 else k - 16] == f[if k < 5 then 16 else k];
  }

  function U16Bytes(w: nat): (b: seq<byte>)
    requires w < 0x1_0000
    ensures |b| == 2
  {
    [w % 256, w / 256]
  }

  /** The fields of the 52-byte header in file order; what the loader does not read is left as bytes. */
  datatype Header = Header(magic: seq<byte>, bits: byte, ident: seq<byte>, kind: nat, machine: nat, version: u32,
                           entry: u32, phOffset: u32, middle: seq<byte>, phCount: nat, tail: seq<byte>)

  predicate HeaderOk(h: Header) {
    && |h.magic| == 4 && |h.ident| == 11 && |h.middle| == 12 && |h.tail| == 6
    && h.kind < 0x1_0000 && h.machine < 0x1_0000 && h.phCount < 0x1_0000
  }

  function EncodeHeader(h: Header): (b: seq<byte>)
    requires HeaderOk(h)
    ensures |b| == 52
  {
    h.magic + [h.bits] + h.ident + U16Bytes(h.kind) + U16Bytes(h.machine) + U32Bytes(h.version) + U32Bytes(h.entry)
    + U32Bytes(h.phOffset) + h.middle + U16Bytes(h.phCount) + h.tail
  }

  /** Whatever a header says, the loader reads it as it was written. */
  lemma {:induction false} HeaderRoundTrip(h: Header, file: seq<byte>)
    requires HeaderOk(h) && |file| >= 52 && file[..52] == EncodeHeader(h)
    ensures Accepted(file) <==> h.magic == [0x7F, 0x45, 0x4C, 0x46] && h.bits == 1 && h.machine == 3 && h.kind == 2
    ensures U32At(file, 24) == h.entry && U32At(file, 28) == h.phOffset && SegmentCount(file) == h.phCount
  {
    hide U32Bytes, Accepted, U32At;
    var b := EncodeHeader(h);
    assert forall k :: 0 <= k < 52 ==> file[k] == b[k];
    assert file[24..24 + 4] == b[24..28] == U32Bytes(h.entry);
    U32RoundTrip(h.entry, file, 24);
    assert file[28..28 + 4] == b[28..32] == U32Bytes(h.phOffset);
    U32RoundTrip(h.phOffset, file, 28);
    assert file[44] == b[44] == h.phCount % 256 && file[45] == b[45] == h.phCount / 256;
    assert file[0..5] == b[0..5] == h.magic + [h.bits];
    var w := U16Bytes(h.kind) + U16Bytes(h.machine);
    assert file[16..20] == b[16..20] == w;
    assert h.magic == (h.magic + [h.bits])[0..4] && h.bits == (h.magic + [h.bits])[4];
    var good: seq<byte> := [0x7F, 0x45, 0x4C, 0x46];
    assert [0x7F, 0x45, 0x4C, 0x46, 1] == good + [1];
    HeaderMeans(h, w);
  }

  lemma {:induction false} HeaderMeans(h: Header, w: seq<byte>)
    requires HeaderOk(h) && w == U16Bytes(h.kind) + U16Bytes(h.machine)
    ensures w == [2, 0, 3, 0] <==> h.kind == 2 && h.machine == 3
  {
    assert w[0] == h.kind % 256 && w[1] == h.kind / 256 && w[2] == h.machine % 256 && w[3] == h.machine / 256;
  }

  datatype Segment = Segment(kind: u32, offset: u32, vaddr: u32, fileSize: u32, memSize: u32)

  /** Program header `i` (32 bytes each, from the offset the header gives). */
  function SegmentAt(file: seq<byte>, i: nat): Segment
    requires |file| >= 52 && U32At(file, 28) + 32 * i + 32 <= |file|
  {
    var o := U32At(file, 28) + 32 * i;
    Segment(U32At(file, o), U32At(file, o + 4), U32At(file, o + 8), U32At(file, o + 16), U32At(file, o + 20))
  }

  /** A program header as it lies in the file; the loader ignores the physical address, flags and alignment. */
  function EncodeSegment(g: Segment, paddr: u32, flags: u32, align: u32): (b: seq<byte>)
    ensures |b| == 32
  {
    WordsBytes([g.kind, g.offset, g.vaddr, paddr, g.fileSize, g.memSize, flags, align])
  }

  lemma {:induction false} SegmentRoundTrip(file: seq<byte>, i: nat, g: Segment, paddr: u32, flags: u32, align: u32)
    requires |file| >= 52 && U32At(file, 28) + 32 * i + 32 <= |file|
    requires var o := U32At(file, 28) + 32 * i; file[o..o + 32] == EncodeSegment(g, paddr, flags, align)
    ensures SegmentAt(file, i) == g
  {
    hide U32At, WordsBytes;
    var o, ws := U32At(file, 28) + 32 * i, [g.kind, g.offset, g.vaddr, paddr, g.fileSize, g.memSize, flags, align];
    assert file[o..o + 4 * |ws|] == WordsBytes(ws);
    WordRoundTrip(ws, file, o, 0);
    WordRoundTrip(ws, file, o, 1);
    WordRoundTrip(ws, file, o, 2);
    WordRoundTrip(ws, file, o, 4);
    WordRoundTrip(ws, file, o, 5);
  }

  function SegmentCount(file: seq<byte>): nat
    requires |file| >= 52
  {
    U16At(file, 44)
  }

  predicate HeadersInside(file: seq<byte>) {
    |file| >= 52 && U32At(file, 28) + 32 * SegmentCount(file) <= |file|
  }

  /** Pages of a segment (kernel/elf.c:79). */
  function PageCount(g: Segment): nat { (g.memSize + 4095) % WORD_LIMIT / 4096 }

  function SegmentPages(g: Segment): set<nat> { Pages(g.vaddr / 4096, PageCount(g)) }

  /** A loadable segment in order: page-aligned, file part inside the memory part and inside the file,
      within the address space, and clear of the pages in `P`. */
  predicate Fits(g: Segment, size: nat, P: set<nat>) {
    && g.vaddr % 4096 == 0 && g.fileSize <= g.memSize && g.offset + g.fileSize <= size
    && g.memSize + 4095 < WORD_LIMIT && g.vaddr + g.memSize <= WORD_LIMIT
    && SegmentPages(g) * P == {}
  }

  /** The pages taken by the loadable segments before the `i`-th, beside those of `P`. */
  function Taking(file: seq<byte>, i: nat, P: set<nat>): set<nat>
    requires HeadersInside(file) && i <= SegmentCount(file)
    decreases |file|, i
  {
    if i == 0 then P
    else
      var g := SegmentAt(file, i - 1);
      Taking(file, i - 1, P) + if g.kind == 1 then SegmentPages(g) else {}
  }

  /** The pages of the image. */
  function ImagePages(file: seq<byte>): set<nat> {
    if HeadersInside(file) then Taking(file, SegmentCount(file), {}) else {}
  }

  /** All loadable segments fit, each clear of the ones before it. */
  predicate WellFormed(file: seq<byte>, P: set<nat>) {
    && HeadersInside(file)
    && forall i :: 0 <= i < SegmentCount(file) && SegmentAt(file, i).kind == 1 ==>
         Fits(SegmentAt(file, i), |file|, Taking(file, i, P))
  }

  /** Frames and directory entries after the segments before the `i`-th: what they cost. */
  function DirsBefore(file: seq<byte>, i: nat, have: set<nat>): set<nat>
    requires HeadersInside(file) && i <= SegmentCount(file)
    decreases |file|, i
  {
    if i == 0 then have
    else
      var g := SegmentAt(file, i - 1);
      DirsBefore(file, i - 1, have) + if g.kind == 1 then DirsOf(g.vaddr / 4096, PageCount(g)) else {}
  }

  function CostBefore(file: seq<byte>, i: nat, have: set<nat>): nat
    requires HeadersInside(file) && i <= SegmentCount(file)
    decreases |file|, i
  {
    if i == 0 then 0
    else
      var g := SegmentAt(file, i - 1);
      CostBefore(file, i - 1, have)
      + if g.kind == 1 then Cost(DirsBefore(file, i - 1, have), g.vaddr / 4096, PageCount(g)) else 0
  }

  /** The frames a load of the file takes: pages and missing tables. */
  function FramesFor(file: seq<byte>, have: set<nat>): nat {
    if |file| >= 52 && Accepted(file) && HeadersInside(file) then CostBefore(file, SegmentCount(file), have) else 0
  }

  /** The frames that become tables when the segments from the `i`-th on are loaded. */
  function TablesFrom(file: seq<byte>, i: nat, f: Frames, have: set<nat>): set<nat>
    requires HeadersInside(file) && i <= SegmentCount(file)
    decreases SegmentCount(file) - i
  {
    if i == SegmentCount(file) then {}
    else
      var g := SegmentAt(file, i);
      if g.kind != 1 then TablesFrom(file, i + 1, f, have)
      else
        var first, n := g.vaddr / 4096, PageCount(g);
        TablesFor(f, have, first, n) + TablesFrom(file, i + 1, FramesAfter(f, have, first, n), have + DirsOf(first, n))
  }

  /** The frames that become tables in a load of the file; none when the header is not accepted. */
  function ImageTables(file: seq<byte>, f: Frames, have: set<nat>): set<nat> {
    if |file| >= 52 && Accepted(file) && HeadersInside(file) then TablesFrom(file, 0, f, have) else {}
  }

  /** An image whose tables are all there makes none. */
  lemma {:induction false} NoNewTables(file: seq<byte>, i: nat, f: Frames, have: set<nat>)
    requires HeadersInside(file) && i <= SegmentCount(file)
    requires forall j, p :: i <= j < SegmentCount(file) && SegmentAt(file, j).kind == 1 ==>
                              (p in SegmentPages(SegmentAt(file, j)) ==> p / 1024 in have)
    ensures TablesFrom(file, i, f, have) == {}
    decreases SegmentCount(file) - i
  {
    hide SegmentAt, FramesAfter, Pages, SegmentCount;
    if i < SegmentCount(file) {
      var g := SegmentAt(file, i);
      if g.kind == 1 {
        var first, n := g.vaddr / 4096, PageCount(g);
        forall p | first <= p < first + n ensures p / 1024 in have {
          assert p in SegmentPages(g);
        }
        TablesThere(f, have, first, n);
        DirsThere(have, first, n);
        NoNewTables(file, i + 1, FramesAfter(f, have, first, n), have);
      } else {
        NoNewTables(file, i + 1, f, have);
      }
    }
  }

  lemma {:induction false} DirsThere(have: set<nat>, first: nat, n: nat)
    requires forall p :: first <= p < first + n ==> p / 1024 in have
    ensures have + DirsOf(first, n) == have
  {
    if n > 0 {
      DirsThere(have, first, n - 1);
      assert (first + n - 1) / 1024 in have;
    }
  }

  /** Loading reaches segment `j` and ends there with a page fault. */
  predicate FaultsAt(file: seq<byte>, j: nat, have: set<nat>, free: int)
    requires HeadersInside(file) && j < SegmentCount(file)
  {
    var g := SegmentAt(file, j);
    && g.kind == 1
    && Faults(DirsBefore(file, j, have), g.vaddr / 4096, PageCount(g), free - CostBefore(file, j, have))
  }

  /** With tables `have` and `free` frames, some segment gets a last frame but no table to map it in. */
  predicate ImageFaults(file: seq<byte>, have: set<nat>, free: int) {
    HeadersInside(file) && exists j :: 0 <= j < SegmentCount(file) && FaultsAt(file, j, have, free)
  }

  /** No segment faults that has been loaded, or that comes after the frames have run out. */
  lemma {:induction false} NoFaultAt(file: seq<byte>, j: nat, have: set<nat>, free: int)
    requires HeadersInside(file) && j < SegmentCount(file)
    requires CostBefore(file, j + 1, have) <= free || CostBefore(file, j, have) > free
    ensures !FaultsAt(file, j, have, free)
  {
    hide SegmentAt, DirsBefore, DirsOf;
    var g := SegmentAt(file, j);
    var first, n, d := g.vaddr / 4096, PageCount(g), DirsBefore(file, j, have);
    if g.kind == 1 && n > 0 {
      CostStep(d, first, n - 1);
    }
  }

  /** The first 8192 bytes of the file, which is what `fs_read` is asked for. */
  function Prefix(content: seq<byte>): (r: seq<byte>)
    ensures r <= content && |r| == if |content| <= 8192 then |content| else 8192
  {
    if |content| <= BUFFER then content else content[..BUFFER]
  }

  function PagesOf(content: Option<seq<byte>>): set<nat> {
    if content.Some? then ImagePages(Prefix(content.value)) else {}
  }

  function TablesOf(content: Option<seq<byte>>, f: Frames, have: set<nat>): set<nat> {
    if content.Some? then ImageTables(Prefix(content.value), f, have) else {}
  }

  lemma {:induction false} CostBeforeGrows(file: seq<byte>, i: nat, j: nat, have: set<nat>)
    requires HeadersInside(file) && i <= j <= SegmentCount(file)
    ensures CostBefore(file, i, have) <= CostBefore(file, j, have)
    decreases j
  {
    hide Cost, SegmentAt;
    if i < j {
      CostBeforeGrows(file, i, j - 1, have);
    }
  }

  /** A program of one page of zeros at 0x800000: header, and one program header behind it. */
  const OnePage: seq<byte> :=
    [0x7F, 0x45, 0x4C, 0x46, 1, 1, 1, 0, 0, 0, 0, 0, 0, 0, 0, 0]
    + [2, 0, 3, 0, 1, 0, 0, 0, 0, 0, 0x80, 0, 52, 0, 0, 0]
    + [0, 0, 0, 0, 0, 0, 0, 0, 52, 0, 32, 0, 1, 0, 40, 0]
    + [0, 0, 0, 0, 1, 0, 0, 0, 84, 0, 0, 0, 0, 0, 0x80, 0]
    + [0, 0, 0x80, 0, 0, 0, 0, 0, 0, 0x10, 0, 0, 7, 0, 0, 0, 0, 0x10, 0, 0]

  /** One loadable segment, of the page at 0x800000. */
  predicate IsOnePage(file: seq<byte>) {
    && |file| < WORD_LIMIT && HeadersInside(file) && Accepted(file) && SegmentCount(file) == 1
    && SegmentAt(file, 0) == Segment(1, |file|, 0x80_0000, 0, 0x1000)
  }

  lemma {:induction false} OnePageBytes()
    ensures IsOnePage(OnePage)
  {
    OnePageHeader();
    OnePageSegment();
    hide U32At, U16At;
  }

  lemma {:induction false} OnePageHeader()
    ensures |OnePage| == 84 && U32At(OnePage, 0) == ELF_MAGIC && OnePage[4] == 1
    ensures U16At(OnePage, 18) == 3 && U16At(OnePage, 16) == 2 && U16At(OnePage, 44) == 1 && U32At(OnePage, 28) == 52
  {
  }

  lemma {:induction false} OnePageSegment()
    ensures |OnePage| == 84 && U32At(OnePage, 52) == 1 && U32At(OnePage, 56) == 84
    ensures U32At(OnePage, 60) == 0x80_0000 && U32At(OnePage, 68) == 0 && U32At(OnePage, 72) == 0x1000
  {
  }

  lemma {:induction false} OnePageCost(have: set<nat>, first: nat)
    requires first / 1024 !in have
    ensures Cost(have, first, 0) == 0 && Cost(have, first, 1) == 2 && Faults(have, first, 1, 1)
  {
    CostStep(have, first, 0);
    assert {} - have == {};
  }

  lemma {:induction false} OneSegment(file: seq<byte>, have: set<nat>, P: set<nat>)
    requires HeadersInside(file) && SegmentCount(file) == 1 && SegmentAt(file, 0).kind == 1
    ensures
      var g := SegmentAt(file, 0);
      && Taking(file, 0, P) == P && DirsBefore(file, 0, have) == have && CostBefore(file, 0, have) == 0
      && CostBefore(file, 1, have) == Cost(have, g.vaddr / 4096, PageCount(g))
  {
    hide SegmentAt, Cost, DirsOf;
  }

  /** An image in order that ends in a page fault: there is one frame for its one page, and none for the table. */
  lemma {:induction false} OnePageFaults(have: set<nat>, P: set<nat>)
    requires 2 !in have && 0x800 !in P
    ensures |OnePage| >= 52 && Accepted(OnePage) && WellFormed(OnePage, P)
    ensures FramesFor(OnePage, have) == 2 && ImageFaults(OnePage, have, 1)
  {
    OnePageBytes();
    IsOnePageFaults(OnePage, have, P);
  }

  lemma {:induction false} IsOnePageFaults(file: seq<byte>, have: set<nat>, P: set<nat>)
    requires IsOnePage(file) && 2 !in have && 0x800 !in P
    ensures WellFormed(file, P) && FramesFor(file, have) == 2 && ImageFaults(file, have, 1)
  {
    hide SegmentAt, Cost, DirsOf, Taking, DirsBefore, CostBefore, Accepted, Faults;
    var g := SegmentAt(file, 0);
    OneSegment(file, have, P);
    OnePageCost(have, 0x800);
    assert PageCount(g) == 1 && g.vaddr / 4096 == 0x800;
    assert SegmentPages(g) == {0x800};
    assert FaultsAt(file, 0, have, 1);
  }

  /** A segment as the walk shows it: the file's bytes, then zeros. */
  ghost predicate Shown(s: Vm, file: seq<byte>, g: Segment)
    requires Has(s.mem, s.dir)
  {
    && g.offset + g.fileSize <= |file| && g.vaddr + g.memSize <= WORD_LIMIT
    && forall v: u32 :: g.vaddr <= v < g.vaddr + g.memSize ==> VByte(s, v) == Some(Wanted(file, g, v - g.vaddr))
  }

  /** Byte `k` of a segment in memory. */
  function Wanted(file: seq<byte>, g: Segment, k: nat): byte
    requires g.offset + g.fileSize <= |file|
  {
    if k < g.fileSize then file[g.offset + k] else 0
  }

  /** Segments stay as shown while their pages do. */
  lemma {:induction false} ShownKept(s: Vm, t: Vm, file: seq<byte>, g: Segment, P: set<nat>)
    requires Has(s.mem, s.dir) && Has(t.mem, t.dir) && Shown(s, file, g) && SameOn(s, t, P)
    requires g.vaddr % 4096 == 0 && g.memSize + 4095 < WORD_LIMIT && SegmentPages(g) <= P
    ensures Shown(t, file, g)
  {
    hide VByte;
    forall v: u32 | g.vaddr <= v < g.vaddr + g.memSize ensures VByte(t, v) == VByte(s, v) {
      PageOfByte(g, v - g.vaddr);
    }
  }

  lemma {:induction false} PageOfByte(g: Segment, k: nat)
    requires g.vaddr % 4096 == 0 && g.memSize + 4095 < WORD_LIMIT && k < g.memSize
    ensures (g.vaddr + k) / 4096 in SegmentPages(g)
  {
  }
}
