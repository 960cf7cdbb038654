/** tools/mkdisk.c: what the host-side writer does to a disk image, and its round trip through the kernel. */
module Mkdisk {
  import opened Bytes
  import opened FsLayout
  import opened FsSpec
  import opened FsFrame
  import opened FsCrash
  import opened FsCount
  import opened FsRefine
  import opened FsRuns

  // ---------- struct layout ----------

  /** A C struct member: its size and its natural alignment. */
  datatype Field = Field(size: nat, align: nat)

  function RoundUp(n: nat, align: nat): nat
    requires align > 0
  {
    if n % align == 0 then n else n + align - n % align
  }

  /** Member offsets from `at` on, with natural alignment (mkdisk) or packed (kernel). */
  function Offsets(fs: seq<Field>, at: nat, packed: bool): (os: seq<nat>)
    requires forall f :: f in fs ==> f.align > 0
    ensures |os| == |fs|
  {
    if fs == [] then []
    else
      var o := if packed then at else RoundUp(at, fs[0].align);
      [o] + Offsets(fs[1..], o + fs[0].size, packed)
  }

  lemma {:induction false} PackedIsNatural(fs: seq<Field>, at: nat)
    requires forall f :: f in fs ==> f.align > 0
    requires forall i :: 0 <= i < |fs| ==> Offsets(fs, at, true)[i] % fs[i].align == 0
    ensures Offsets(fs, at, false) == Offsets(fs, at, true)
  {
    if fs == [] {
      assert Offsets(fs, at, false) == Offsets(fs, at, true);
    } else {
      hide Offsets;
      OffsetsStep(fs, at, true);
      OffsetsStep(fs, at, false);
      var rest := Offsets(fs[1..], at + fs[0].size, true);
      assert Offsets(fs, at, true)[0] == at;
      forall i | 0 <= i < |fs| - 1 ensures rest[i] % fs[1..][i].align == 0 {
        assert Offsets(fs, at, true)[i + 1] == rest[i] && fs[1..][i] == fs[i + 1];
      }
      PackedIsNatural(fs[1..], at + fs[0].size);
    }
  }

  lemma {:induction false} OffsetsStep(fs: seq<Field>, at: nat, packed: bool)
    requires fs != [] && forall f :: f in fs ==> f.align > 0
    ensures
      var o := if packed then at else RoundUp(at, fs[0].align);
      Offsets(fs, at, packed) == [o] + Offsets(fs[1..], o + fs[0].size, packed)
  {
  }

  const InodeFields := [Field(64, 1), Field(4, 4), Field(128, 4), Field(1, 1), Field(3, 1)]
  const SuperFields := [Field(4, 4), Field(4, 4), Field(4, 4), Field(4, 4), Field(4, 4), Field(4, 4)]

  /** mkdisk's plain structs and the kernel's packed ones put every member at the same offset, the one
      the codec uses. */
  lemma {:induction false} SameLayout()
    ensures Offsets(InodeFields, 0, false) == Offsets(InodeFields, 0, true) == [0, 64, 68, 196, 197]
    ensures Offsets(SuperFields, 0, false) == Offsets(SuperFields, 0, true) == [0, 4, 8, 12, 16, 20]
  {
    hide Offsets;
    InodeOffsets();
    SuperOffsets();
    PackedIsNatural(InodeFields, 0);
    PackedIsNatural(SuperFields, 0);
  }

  lemma {:induction false} InodeOffsets()
    ensures Offsets(InodeFields, 0, true) == [0, 64, 68, 196, 197]
  {
    var f := InodeFields;
    assert f[1..][1..] == f[2..] && f[2..][1..] == f[3..] && f[3..][1..] == f[4..] && f[4..][1..] == [];
  }

  lemma {:induction false} SuperOffsets()
    ensures Offsets(SuperFields, 0, true) == [0, 4, 8, 12, 16, 20]
  {
    var f := SuperFields;
    assert f[1..][1..] == f[2..] && f[2..][1..] == f[3..] && f[3..][1..] == f[4..] && f[4..][1..] == f[5..];
    assert f[5..][1..] == [];
  }

  // ---------- what mkdisk writes ----------

  /** Chunk after chunk, each to a block of its own. */
  function Spread(fb: seq<u32>, data: Data, n: nat): (log: seq<SectorWrite>)
    requires n <= |fb|
    ensures |log| == n
  {
    seq(n, i requires 0 <= i < n => SectorWrite(fb[i], Chunk(data, i)))
  }

  /** The inode mkdisk writes. */
  function MadeInode(name: Name, data: Data, blocks: seq<u32>): Inode
    requires |blocks| <= 32
  {
    InodeRecord(StoredName(name), |data|, blocks + seq(32 - |blocks|, _ => 0), 1, [0, 0, 0])
  }

  /** `main` from the superblock check on, over inode table `t`: its exit code and sector writes. */
  function MakeOn(t: seq<Inode>, d: Disk, name: Name, data: Data): Effect
    requires |t| == 32
  {
    var sb := DecodeSuper(d[0]);
    var k := BlocksNeeded(|data|);
    var i := UnusedFrom(t, 0);
    var fb := FreeBlocks(t);
    if sb.magic != FS_MAGIC || k > 32 || i < 0 then Effect(1, [], sb)
    else if |fb| < k then Effect(1, Spread(fb, data, |fb|), sb)
    else
      var sb' := sb.(free_blocks := (sb.free_blocks - k) % WORD_LIMIT);
      Effect(0, Spread(fb, data, k) + Closing(d, i, MadeInode(name, data, fb[..k]), sb'), sb')
  }

  function MakeEffect(d: Disk, name: Name, data: Data): Effect { MakeOn(Table(d), d, name, data) }

  // ---------- what the chunks do ----------

  lemma {:induction false} ApplySpread(d: Disk, fb: seq<u32>, data: Data, n: nat)
    requires n <= |fb| && forall j :: 0 <= j < |fb| ==> 33 <= fb[j] < 1057
    requires forall j, k :: 0 <= j < k < |fb| ==> fb[j] < fb[k]
    ensures InDisk(d, Spread(fb, data, n))
    ensures forall j :: 0 <= j < n ==> Apply(d, Spread(fb, data, n))[fb[j]] == Chunk(data, j)
    ensures forall l :: 0 <= l < 33 ==> Apply(d, Spread(fb, data, n))[l] == d[l]
  {
    hide Chunk;
    if n == 0 {
      assert Spread(fb, data, n) == [];
    } else {
      ApplySpread(d, fb, data, n - 1);
      assert Spread(fb, data, n) == Spread(fb, data, n - 1) + [SectorWrite(fb[n - 1], Chunk(data, n - 1))];
      ApplyPush(d, Spread(fb, data, n - 1), SectorWrite(fb[n - 1], Chunk(data, n - 1)));
    }
  }

  /** Chunks in unreferenced blocks change no file and no inode. */
  lemma {:induction false} SpreadKeeps(d: Disk, fb: seq<u32>, data: Data, n: nat)
    requires TableOk(Table(d)) && n <= |fb|
    requires forall j :: 0 <= j < |fb| ==> 33 <= fb[j] < 1057 && !Referenced(Table(d), fb[j])
    ensures InDisk(d, Spread(fb, data, n))
    ensures Table(Apply(d, Spread(fb, data, n))) == Table(d)
    ensures Files(Apply(d, Spread(fb, data, n))) == Files(d)
  {
    hide Chunk, Table, FilesOf, TableOk, Referenced;
    if n == 0 {
      assert Spread(fb, data, n) == [];
    } else {
      SpreadKeeps(d, fb, data, n - 1);
      assert Spread(fb, data, n) == Spread(fb, data, n - 1) + [SectorWrite(fb[n - 1], Chunk(data, n - 1))];
      ApplyPush(d, Spread(fb, data, n - 1), SectorWrite(fb[n - 1], Chunk(data, n - 1)));
      DiskIdleWrite(Apply(d, Spread(fb, data, n - 1)), fb[n - 1], Chunk(data, n - 1));
    }
  }

  lemma {:induction false} MadeInodeOk(t: seq<Inode>, i: nat, name: Name, data: Data, k: nat)
    requires TableOk(t) && i < 32 && !InUse(t[i]) && Find(t, Truncated(name)) < 0
    requires k == (|data| + 511) / 512 <= 32 && k <= |FreeBlocks(t)|
    ensures
      var x := MadeInode(name, data, FreeBlocks(t)[..k]);
      InUse(x) && InodeOk(x) && NameOf(x) == Truncated(name) && Slots(x.blocks) == k && TableOk(t[i := x])
  {
    hide FreeBlocksFrom, StoredName, FindFrom, CStr, TableOk;
    var fb := FreeBlocks(t);
    var x := MadeInode(name, data, fb[..k]);
    StoredNameIs(name);
    MadeSlots(name, data, fb[..k]);
    forall j | 0 <= j < 32 && j != i && InUse(t[j]) ensures NameOf(t[j]) != NameOf(x) && NoShare(x, t[j]) {
      assert !Named(t[j], Truncated(name));
      forall b | b in x.blocks && b in t[j].blocks ensures b == 0 {
        assert Referenced(t, b);
      }
    }
    TableUpdateOk(t, i, x);
  }

  lemma {:induction false} MadeSlots(name: Name, data: Data, blocks: seq<u32>)
    requires |blocks| <= 32 && |data| <= 512 * |blocks| && 0 in StoredName(name)
    requires forall j :: 0 <= j < |blocks| ==> 33 <= blocks[j] < 1057
    ensures InodeOk(MadeInode(name, data, blocks)) && Slots(MadeInode(name, data, blocks).blocks) == |blocks|
  {
    hide Slots, StoredName;
    SlotsArePrefix(MadeInode(name, data, blocks).blocks, |blocks|);
  }

  lemma {:induction false} MadeContents(e: Disk, name: Name, data: Data, fb: seq<u32>, k: nat)
    requires k == (|data| + 511) / 512 <= 32 && k <= |fb|
    requires forall j :: 0 <= j < k ==> fb[j] < |e| && e[fb[j]] == Chunk(data, j)
    requires InodeOk(MadeInode(name, data, fb[..k]))
    ensures Contents(e, MadeInode(name, data, fb[..k])) == data
  {
    var x := MadeInode(name, data, fb[..k]);
    forall p | 0 <= p < |data| ensures Contents(e, x)[p] == data[p] {
      var j := p / 512;
      assert x.blocks[j] == fb[j];
      assert Chunk(data, j)[p % 512] == data[p];
    }
  }

  lemma {:induction false} MadeFile(t: seq<Inode>, e: Disk, i: nat, name: Name, data: Data, k: nat)
    requires TableOk(t) && i < 32 && !InUse(t[i]) && Find(t, Truncated(name)) < 0
    requires k == (|data| + 511) / 512 <= 32 && k <= |FreeBlocks(t)|
    requires forall j :: 0 <= j < k ==> FreeBlocks(t)[j] < |e| && e[FreeBlocks(t)[j]] == Chunk(data, j)
    ensures TableOk(t[i := MadeInode(name, data, FreeBlocks(t)[..k])])
    ensures FilesOf(t[i := MadeInode(name, data, FreeBlocks(t)[..k])], e)
            == FilesOf(t, e)[Truncated(name) := File(data, k)]
  {
    hide FilesOf, TableOk, FreeBlocksFrom, MadeInode, FindFrom;
    MadeInodeOk(t, i, name, data, k);
    var x := MadeInode(name, data, FreeBlocks(t)[..k]);
    MadeContents(e, name, data, FreeBlocks(t), k);
    TablePut(t, e, i, x);
  }

  // ---------- mkdisk at every prefix of its writes ----------

  /** The writes of mkdisk: chunks to distinct unreferenced blocks, then the closing pair. */
  lemma {:induction false} MakeLogShape(t: seq<Inode>, d: Disk, name: Name, data: Data)
    requires TableOk(t)
    ensures
      var e := MakeOn(t, d, name, data);
      var k, fb := BlocksNeeded(|data|), FreeBlocks(t);
      var n := if e.ret == 0 then k else |e.log|;
      && n <= |e.log| && n <= |fb|
      && e.log[..n] == Spread(fb, data, n)
      && e.sb.magic == DecodeSuper(d[0]).magic && e.sb.total_blocks == DecodeSuper(d[0]).total_blocks
      && (e.ret == 0 ==>
            && k <= 32 && 0 <= UnusedFrom(t, 0) && |e.log| == k + 2
            && e.log == Spread(fb, data, k) + Closing(d, UnusedFrom(t, 0), MadeInode(name, data, fb[..k]), e.sb))
  {
    hide FreeBlocksFrom, DecodeSuper, MadeInode;
    var e := MakeOn(t, d, name, data);
    var k, fb := BlocksNeeded(|data|), FreeBlocks(t);
    if e.ret == 0 {
      assert e.log[..k] == Spread(fb, data, k);
    } else {
      assert e.log == Spread(fb, data, |e.log|);
      assert e.log[..|e.log|] == e.log;
    }
  }

  /** The table after `p` sector writes of mkdisk. */
  function MadeTable(t: seq<Inode>, d: Disk, name: Name, data: Data, p: nat): seq<Inode>
    requires |t| == 32
  {
    if Committed(MakeOn(t, d, name, data), data, p) then
      t[UnusedFrom(t, 0) := MadeInode(name, data, FreeBlocks(t)[..BlocksNeeded(|data|)])]
    else t
  }

  lemma {:induction false} UncommittedMake(d: Disk, name: Name, data: Data, p: nat)
    requires DiskOk(d) && p <= |MakeEffect(d, name, data).log| && !Committed(MakeEffect(d, name, data), data, p)
    ensures
      var e := MakeEffect(d, name, data);
      && InDisk(d, e.log[..p])
      && Table(Apply(d, e.log[..p])) == Table(d) && Files(Apply(d, e.log[..p])) == Files(d)
      && Apply(d, e.log[..p])[0] == d[0]
  {
    hide FreeBlocksFrom, DecodeSuper, MadeInode, Table, FilesOf, TableOk, Chunk, Apply, Closing;
    var t := Table(d);
    var e := MakeEffect(d, name, data);
    var fb := FreeBlocks(t);
    MakeLogShape(t, d, name, data);
    var n := if e.ret == 0 then BlocksNeeded(|data|) else |e.log|;
    assert e.log[..p] == e.log[..n][..p] == Spread(fb, data, p);
    SpreadKeeps(d, fb, data, p);
    ApplySpread(d, fb, data, p);
  }

  lemma {:induction false} CommittedMake(d: Disk, name: Name, data: Data, p: nat)
    requires DiskOk(d) && Truncated(name) !in Files(d) && |data| + 511 < WORD_LIMIT
    requires p <= |MakeEffect(d, name, data).log| && Committed(MakeEffect(d, name, data), data, p)
    ensures
      var e := MakeEffect(d, name, data);
      var u := MadeTable(Table(d), d, name, data, p);
      && InDisk(d, e.log)
      && TableOk(u) && Table(DiskAfter(d, e.log, p)) == u
      && Files(DiskAfter(d, e.log, p)) == Files(d)[Truncated(name) := File(data, BlocksNeeded(|data|))]
      && DiskAfter(d, e.log, p)[0] == if p == |e.log| then SuperSector(e.sb) else d[0]
  {
    hide FreeBlocksFrom, DecodeSuper, MadeInode, Table, FilesOf, TableOk, Chunk, Apply,
         InodeSector, SuperSector, FindFrom;
    var t := Table(d);
    var e := MakeEffect(d, name, data);
    var k, fb, i := BlocksNeeded(|data|), FreeBlocks(t), UnusedFrom(t, 0);
    MakeLogShape(t, d, name, data);
    SpreadKeeps(d, fb, data, k);
    ApplySpread(d, fb, data, k);
    FilesFind(t, d, Truncated(name));
    var c := Apply(d, Spread(fb, data, k));
    var x := MadeInode(name, data, fb[..k]);
    var w := Closing(d, i, x, e.sb);
    MadeFile(t, c, i, name, data, k);
    ClosingPrefix(d, Spread(fb, data, k), w[0], w[1], p);
    ClosingTables(d, c, i, x, e.sb);
    LowWrites(t[i := x], c, 1 + i / 2, w[0].data, w[1].data);
  }

  /** mkdisk is atomic at every sector write: all files as before until its inode is in place, and from
      then on the new file with exactly its bytes beside them. An abort changes no file. */
  lemma {:induction false} MakeCrashAtomic(d: Disk, name: Name, data: Data, p: nat)
    requires DiskOk(d) && Truncated(name) !in Files(d) && |data| + 511 < WORD_LIMIT
    requires p <= |MakeEffect(d, name, data).log|
    ensures
      var e := MakeEffect(d, name, data);
      && InDisk(d, e.log)
      && DiskOk(DiskAfter(d, e.log, p))
      && Files(DiskAfter(d, e.log, p))
         == (if Committed(e, data, p) then Files(d)[Truncated(name) := File(data, BlocksNeeded(|data|))] else Files(d))
      && DecodeSuper(DiskAfter(d, e.log, p)[0])
         == (if e.ret == 0 && p == |e.log| then e.sb else DecodeSuper(d[0]))
  {
    hide FreeBlocksFrom, DecodeSuper, MadeInode, Table, FilesOf, TableOk, Chunk, Apply,
         InodeSector, SuperSector, MakeOn;
    var e := MakeEffect(d, name, data);
    MakeLogShape(Table(d), d, name, data);
    SuperRoundTrip(e.sb);
    if Committed(e, data, p) {
      CommittedMake(d, name, data, p);
    } else {
      UncommittedMake(d, name, data, p);
      if e.ret == 0 {
        CommittedMake(d, name, data, |e.log|);
      } else {
        UncommittedMake(d, name, data, |e.log|);
        assert e.log[..|e.log|] == e.log;
      }
    }
  }

  /** mkdisk succeeds exactly when there is a free inode, the file fits 32 blocks and that many blocks
      are unreferenced; the blocks it takes are distinct. */
  lemma {:induction false} MakeSucceeds(d: Disk, name: Name, data: Data)
    requires DiskOk(d) && |data| + 511 < WORD_LIMIT
    ensures MakeEffect(d, name, data).ret in {0, 1}
    ensures MakeEffect(d, name, data).ret == 0 <==>
            |Files(d)| < 32 && |data| <= 16384 && (|data| + 511) / 512 <= |FreeBlocks(Table(d))|
    ensures forall j, k :: 0 <= j < k < |FreeBlocks(Table(d))| ==> FreeBlocks(Table(d))[j] != FreeBlocks(Table(d))[k]
  {
    hide FreeBlocksFrom, MadeInode, Table, FilesOf, TableOk, Apply, InodeSector, SuperSector, DecodeSuper;
    FilesSize(Table(d), d);
  }

  /** The round trip: a file put on the image by mkdisk is read back by the kernel byte for byte. */
  lemma {:induction false} MakeThenRead(d: Disk, name: Name, data: Data, size: nat)
    requires DiskOk(d) && Truncated(name) !in Files(d) && |data| + 511 < WORD_LIMIT
    requires MakeEffect(d, name, data).ret == 0
    ensures
      var e := MakeEffect(d, name, data);
      && InDisk(d, e.log)
      && (var f := Apply(d, e.log);
          var n := if size < |data| then size else |data|;
          && InitEffect(f) == Effect(0, [], e.sb)
          && FsOk(Fs(f, e.sb))
          && ReadOutcome(Fs(f, e.sb), Truncated(name), size) == ReadResult(n, data[..n]))
  {
    hide FreeBlocksFrom, DecodeSuper, MadeInode, Table, FilesOf, TableOk, Chunk, Apply,
         InodeSector, SuperSector, MakeOn, FindFrom;
    var e := MakeEffect(d, name, data);
    MakeCrashAtomic(d, name, data, |e.log|);
    assert e.log[..|e.log|] == e.log;
    MakeLogShape(Table(d), d, name, data);
    var f := Apply(d, e.log);
    FilesFind(Table(f), f, Truncated(name));
  }

  /** mkdisk keeps the counter in step with the table exactly when it does not take more blocks than the
      counter says are free; past that `free_blocks` wraps. */
  lemma {:induction false} MakeKeepsCount(d: Disk, name: Name, data: Data)
    requires DiskOk(d) && Truncated(name) !in Files(d) && |data| + 511 < WORD_LIMIT
    requires MakeEffect(d, name, data).ret == 0
    requires DecodeSuper(d[0]).free_blocks + SlotSum(Table(d)) <= 1024
    ensures
      var e := MakeEffect(d, name, data);
      && InDisk(d, e.log)
      && (Inv(Fs(Apply(d, e.log), e.sb)) <==> BlocksNeeded(|data|) <= DecodeSuper(d[0]).free_blocks)
  {
    hide FreeBlocksFrom, DecodeSuper, MadeInode, Table, FilesOf, TableOk, Chunk, Apply,
         InodeSector, SuperSector, FindFrom, SlotSum;
    var t := Table(d);
    var e := MakeEffect(d, name, data);
    var k, i := BlocksNeeded(|data|), UnusedFrom(t, 0);
    MakeCrashAtomic(d, name, data, |e.log|);
    CommittedMake(d, name, data, |e.log|);
    assert e.log[..|e.log|] == e.log;
    FilesFind(t, d, Truncated(name));
    MadeInodeOk(t, i, name, data, k);
    SlotSumPut(t, i, MadeInode(name, data, FreeBlocks(t)[..k]));
  }

  /** The table after a successful run, whatever the name. */
  lemma {:induction false} MakeTable(d: Disk, name: Name, data: Data)
    requires DiskOk(d) && MakeEffect(d, name, data).ret == 0
    ensures
      var e, t := MakeEffect(d, name, data), Table(d);
      && InDisk(d, e.log) && BlocksNeeded(|data|) <= 32 && BlocksNeeded(|data|) <= |FreeBlocks(t)|
      && 0 <= UnusedFrom(t, 0) && !InUse(t[UnusedFrom(t, 0)])
      && Table(Apply(d, e.log))
         == t[UnusedFrom(t, 0) := MadeInode(name, data, FreeBlocks(t)[..BlocksNeeded(|data|)])]
  {
    hide FreeBlocksFrom, DecodeSuper, MadeInode, Table, FilesOf, TableOk, Chunk, Apply, InodeSector, SuperSector;
    var t, e := Table(d), MakeEffect(d, name, data);
    var k, fb, i := BlocksNeeded(|data|), FreeBlocks(t), UnusedFrom(t, 0);
    MakeLogShape(t, d, name, data);
    SpreadKeeps(d, fb, data, k);
    ApplySpread(d, fb, data, k);
    var c := Spread(fb, data, k);
    var w := Closing(d, i, MadeInode(name, data, fb[..k]), e.sb);
    ClosingPrefix(d, c, w[0], w[1], |c| + 2);
    assert (c + [w[0], w[1]])[..|c| + 2] == e.log;
    ClosingTables(d, Apply(d, c), i, MadeInode(name, data, fb[..k]), e.sb);
  }

  /** mkdisk checks neither for a name already there nor for one that becomes so when cut: the table stays in order
      exactly when the cut name is absent. */
  lemma {:induction false} MakeKeepsNames(d: Disk, name: Name, data: Data)
    requires DiskOk(d) && |data| + 511 < WORD_LIMIT && MakeEffect(d, name, data).ret == 0
    ensures InDisk(d, MakeEffect(d, name, data).log)
    ensures TableOk(Table(Apply(d, MakeEffect(d, name, data).log))) <==> Truncated(name) !in Files(d)
  {
    hide FreeBlocksFrom, MadeInode, Table, FilesOf, TableOk, Apply, MakeEffect, FindFrom, DecodeSuper, UnusedFrom;
    var t, k := Table(d), BlocksNeeded(|data|);
    MakeTable(d, name, data);
    FilesFind(t, d, Truncated(name));
    if Find(t, Truncated(name)) < 0 {
      MadeInodeOk(t, UnusedFrom(t, 0), name, data, k);
    } else {
      TwoOfOneName(t, UnusedFrom(t, 0), name, data, FreeBlocks(t)[..k]);
    }
  }

  lemma {:induction false} TwoOfOneName(t: seq<Inode>, i: nat, name: Name, data: Data, blocks: seq<u32>)
    requires |t| == 32 && i < 32 && !InUse(t[i]) && Find(t, Truncated(name)) >= 0 && |blocks| <= 32
    ensures !TableOk(t[i := MadeInode(name, data, blocks)])
  {
    hide StoredName, FindFrom;
    StoredNameIs(name);
    var u, j := t[i := MadeInode(name, data, blocks)], Find(t, Truncated(name));
    assert u[j] == t[j] && u[i] == MadeInode(name, data, blocks);
    assert !Apart(u, i, j);
  }

  /** A file the kernel created, copied onto the image once more: mkdisk succeeds and leaves two of that name. */
  lemma {:induction false} MakeTwice(d: Disk, name: Name, data: Data)
    requires DecodeSuper(d[0]).magic != FS_MAGIC && |name| <= 63 && |data| <= 512
    ensures
      var f := Step(Formatted(d), Create(name)).disk;
      var e := MakeEffect(f, name, data);
      e.ret == 0 && InDisk(f, e.log) && !TableOk(Table(Apply(f, e.log)))
  {
    hide Table, FilesOf, TableOk, DecodeSuper, Apply, InitEffect, SlotSum, FreeBlocksFrom, FindFrom, MakeEffect,
         NewInode, InodeSector;
    var s := Step(Formatted(d), Create(name));
    StepIs(Formatted(d), Create(name));
    assert Files(s.disk).Keys == {name};
    ScanCount(Table(s.disk));
    MakeSucceeds(s.disk, name, data);
    MakeKeepsNames(s.disk, name, data);
    assert Truncated(name) == name;
  }

  // ---------- an image on which the counter wraps ----------

  /** With a single file of a single slot, some block is unreferenced. */
  lemma {:induction false} RoomLeft(t: seq<Inode>, d: Disk, name: Name)
    requires TableOk(t) && FilesOf(t, d).Keys == {name} && FilesOf(t, d)[name].slots == 1
    ensures FreeBlocks(t) != []
  {
    hide FreeBlocksFrom, FindFrom;
    FilesFind(t, d, name);
    var i := Find(t, name);
    forall b | Referenced(t, b) && b != 0 ensures b == t[i].blocks[0] {
      var j :| 0 <= j < |t| && InUse(t[j]) && b in t[j].blocks;
      FindIs(t, j);
      FilesFind(t, d, NameOf(t[j]));
      assert NameOf(t[j]) in FilesOf(t, d).Keys;
    }
    assert !Referenced(t, 33) || !Referenced(t, 34);
    assert 33 in FreeBlocks(t) || 34 in FreeBlocks(t);
  }

  /** On that image the counter stands at 0 with all blocks but one unreferenced: mkdisk adds another one-block
      file all the same, and `free_blocks` wraps. */
  lemma {:induction false} MakeWrapsCounter(d: Disk, name: Name, data: Data, other: Name)
    requires DecodeSuper(d[0]).magic != FS_MAGIC && 0 < |data| <= 512
    requires |name| <= 63 && |other| <= 63 && other != name
    ensures AllAdmissible(Worn(name, data, 1024))
    ensures
      var f := Final(Formatted(d), Worn(name, data, 1024));
      var e := MakeEffect(f.disk, other, data);
      && e.ret == 0 && InDisk(f.disk, e.log)
      && DecodeSuper(f.disk[0]).free_blocks == 0 && e.sb.free_blocks == WORD_LIMIT - 1
      && !Inv(Fs(Apply(f.disk, e.log), e.sb))
  {
    hide Worn, Table, FilesOf, TableOk, DecodeSuper, CountOk, Apply, Final, MakeEffect;
    WornImage(d, name, data);
    MakeWraps(Final(Formatted(d), Worn(name, data, 1024)), name, data, other);
  }

  /** The image in question. */
  lemma {:induction false} WornImage(d: Disk, name: Name, data: Data)
    requires DecodeSuper(d[0]).magic != FS_MAGIC && 0 < |data| <= 512 && |name| <= 63
    ensures AllAdmissible(Worn(name, data, 1024))
    ensures
      var f := Final(Formatted(d), Worn(name, data, 1024));
      && Files(f.disk).Keys == {name} && Files(f.disk)[name].slots == 1
      && DecodeSuper(f.disk[0]).free_blocks == 0
  {
    hide Smear, Worn, Table, FilesOf, TableOk, DecodeSuper, CountOk, Apply, AbsFinal, Final, InitEffect;
    WornState(name, data, 1024);
    RunRefines(Formatted(d), Worn(name, data, 1024));
  }

  lemma {:induction false} MakeWraps(f: Fs, name: Name, data: Data, other: Name)
    requires Inv(f) && Files(f.disk).Keys == {name} && Files(f.disk)[name].slots == 1 && 0 < |data| <= 512
    requires DecodeSuper(f.disk[0]).free_blocks == 0 && |other| <= 63 && other != name
    ensures
      var e := MakeEffect(f.disk, other, data);
      && e.ret == 0 && InDisk(f.disk, e.log) && e.sb.free_blocks == WORD_LIMIT - 1
      && !Inv(Fs(Apply(f.disk, e.log), e.sb))
  {
    hide Table, FilesOf, TableOk, FreeBlocksFrom, InodeSector, SuperSector, DecodeSuper, CountOk, Apply, MadeInode,
         FindFrom, SlotSum;
    RoomLeft(Table(f.disk), f.disk, name);
    MakeSucceeds(f.disk, other, data);
    CountNow(f);
    MakeKeepsCount(f.disk, other, data);
  }

  lemma {:induction false} CountNow(s: Fs)
    requires Inv(s)
    ensures DecodeSuper(s.disk[0]).free_blocks + SlotSum(Table(s.disk)) <= 1024
  {
  }
}
