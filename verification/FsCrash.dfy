/** What `fs_create`, `fs_write` and `fs_delete` do to the files on disk at every point of their
    sequence of sector writes. */
module FsCrash {
  import opened Bytes
  import opened FsLayout
  import opened FsSpec
  import opened FsFrame

  predicate SuperOk(sb: Superblock) { sb.magic == FS_MAGIC && sb.total_blocks == 1024 }

  /** A disk that a reboot recognises as AshFS and whose inode table is in order. */
  predicate DiskOk(d: Disk) { TableOk(Table(d)) && SuperOk(DecodeSuper(d[0])) }

  predicate FsOk(s: Fs) { DiskOk(s.disk) && SuperOk(s.sb) }

  /** The disk after the first `p` sector writes of an operation. */
  function DiskAfter(d: Disk, log: seq<SectorWrite>, p: nat): Disk
    requires InDisk(d, log) && p <= |log|
  {
    Apply(d, log[..p])
  }

  function Max(a: nat, b: nat): nat { if a < b then b else a }

  /** The bytes a kernel write leaves in a file: every chunk shows the zero-padded last chunk. */
  function Smear(data: seq<byte>): (r: seq<byte>)
    ensures |r| == |data|
  {
    var k := (|data| + 511) / 512;
    seq(|data|, p requires 0 <= p < |data| => Chunk(data, k - 1)[p % 512])
  }

  // ---------- writing ----------

  /** What a new inode must satisfy for the table to stay in order. */
  lemma {:induction false} TableUpdateOk(t: seq<Inode>, i: nat, x: Inode)
    requires TableOk(t) && i < 32
    requires InUse(x) ==> InodeOk(x)
    requires InUse(x) ==>
      forall j :: 0 <= j < 32 && j != i && InUse(t[j]) ==> NameOf(t[j]) != NameOf(x) && NoShare(x, t[j])
    ensures TableOk(t[i := x])
  {
    var u := t[i := x];
    forall a, b | 0 <= a < 32 && 0 <= b < 32 ensures Apart(u, a, b) {
      assert Apart(t, a, b);
    }
  }

  lemma {:induction false} RewrittenOk(t: seq<Inode>, i: nat, k: nat, b: u32, size: u32)
    requires TableOk(t) && i < 32 && InUse(t[i])
    requires k <= 32 && size <= 512 * k
    requires k > 0 ==> 33 <= b < 1057 && !Referenced(t, b)
    ensures InUse(Rewritten(t[i], k, b, size)) && InodeOk(Rewritten(t[i], k, b, size))
    ensures Slots(Rewritten(t[i], k, b, size).blocks) == Max(Slots(t[i].blocks), k)
    ensures TableOk(t[i := Rewritten(t[i], k, b, size)])
  {
    var x := Rewritten(t[i], k, b, size);
    SlotsArePrefix(x.blocks, Max(Slots(t[i].blocks), k));
    assert InodeOk(x);
    forall j | 0 <= j < 32 && j != i && InUse(t[j]) ensures NameOf(t[j]) != NameOf(x) && NoShare(x, t[j]) {
      assert Apart(t, i, j);
      forall c | c in x.blocks && c in t[j].blocks ensures c == 0 {
        assert c in t[i].blocks || (k > 0 && c == b);
        assert k > 0 && c == b ==> Referenced(t, b);
      }
    }
    TableUpdateOk(t, i, x);
  }

  lemma {:induction false} RewrittenContents(d: Disk, x: Inode, k: nat, b: u32, data: Data)
    requires k == (|data| + 511) / 512 <= 32 && (k > 0 ==> b < |d| && d[b] == Chunk(data, k - 1))
    requires InodeOk(Rewritten(x, k, b, |data|))
    ensures Contents(d, Rewritten(x, k, b, |data|)) == Smear(data)
  {
    var y := Rewritten(x, k, b, |data|);
    forall p | 0 <= p < |data| ensures Contents(d, y)[p] == Smear(data)[p] {
      assert y.blocks[p / 512] == b;
    }
  }

  lemma {:induction false} RemoveThenAdd<K, V>(m: map<K, V>, k: K, v: V)
    ensures m - {k} + map[k := v] == m[k := v]
  {
  }

  /** Replacing the target inode turns its old contents into the new ones and nothing else. */
  lemma {:induction false} CommitInTable(t: seq<Inode>, e: Disk, i: nat, k: nat, b: u32, data: Data)
    requires TableOk(t) && i < 32 && InUse(t[i])
    requires k == (|data| + 511) / 512 <= 32
    requires k > 0 ==> 33 <= b < 1057 && !Referenced(t, b) && e[b] == Chunk(data, k - 1)
    ensures TableOk(t[i := Rewritten(t[i], k, b, |data|)])
    ensures NameOf(t[i]) in FilesOf(t, e)
    ensures FilesOf(t[i := Rewritten(t[i], k, b, |data|)], e)
            == FilesOf(t, e)[NameOf(t[i]) := File(Smear(data), Max(FilesOf(t, e)[NameOf(t[i])].slots, k))]
  {
    var name := NameOf(t[i]);
    var x := Rewritten(t[i], k, b, |data|);
    RewrittenOk(t, i, k, b, |data|);
    RewrittenContents(e, t[i], k, b, data);
    TablePut(t, e, i, x);
    FindIs(t, i);
    FilesFind(t, e, name);
    RemoveThenAdd(FilesOf(t, e), name, FileOf(e, x));
  }

  /** What a write means for the files: the target shows the smeared data. */
  function FileWrite(m: map<Name, File>, name: Name, data: Data): map<Name, File>
  {
    if name in m then m[name := File(Smear(data), Max(m[name].slots, BlocksNeeded(|data|)))] else m
  }

  // ---------- prefixes of an operation that closes with an inode and the superblock ----------

  /** The disk after `p` of the writes `c` followed by the two closing writes. */
  lemma {:induction false} ClosingPrefix(d: Disk, c: seq<SectorWrite>, w: SectorWrite, v: SectorWrite, p: nat)
    requires InDisk(d, c) && w.lba < |d| && v.lba < |d| && p <= |c| + 2
    ensures InDisk(d, c + [w, v])
    ensures DiskAfter(d, c + [w, v], p)
            == if p <= |c| then Apply(d, c[..p])
               else if p == |c| + 1 then Apply(d, c)[w.lba := w.data]
               else Apply(d, c)[w.lba := w.data][v.lba := v.data]
  {
    ApplyPush(d, c, w);
    ApplyPush(d, c + [w], v);
    var log := c + [w, v];
    assert log == c + [w] + [v];
    if p <= |c| {
      assert log[..p] == c[..p];
    } else if p == |c| + 1 {
      assert log[..p] == c + [w];
    } else {
      assert log[..p] == log;
    }
  }

  /** The table after each phase: only the inode write changes it. */
  lemma {:induction false} ClosingTables(d: Disk, e: Disk, i: nat, x: Inode, sb: Superblock)
    requires i < 32 && Table(e) == Table(d) && |e| == |d|
    requires forall l :: 0 <= l < 33 ==> e[l] == d[l]
    ensures
      var f := e[1 + i / 2 := InodeSector(d, i, x)];
      && Table(f) == Table(d)[i := x]
      && Table(f[0 := SuperSector(sb)]) == Table(d)[i := x]
      && f[0] == d[0]
  {
    assert InodeSector(d, i, x) == InodeSector(e, i, x);
    TableAfterInodeWrite(e, i, x);
    TableAfterOtherWrite(e[1 + i / 2 := InodeSector(d, i, x)], 0, SuperSector(sb));
  }

  /** Sectors below the data area hold no file bytes. */
  lemma {:induction false} LowWrites(t: seq<Inode>, e: Disk, l: nat, w: Sector, v: Sector)
    requires TableOk(t) && l < 33
    ensures FilesOf(t, e[l := w]) == FilesOf(t, e)
    ensures FilesOf(t, e[l := w][0 := v]) == FilesOf(t, e)
  {
    IdleWrite(t, e, l, w);
    IdleWrite(t, e[l := w], 0, v);
  }

  // ---------- fs_write at every prefix of its writes ----------

  /** After `p` sector writes a successful write has got past its data chunks. */
  predicate Committed(e: Effect, data: Data, p: nat) { e.ret == 0 && p > BlocksNeeded(|data|) }

  /** The inode table after `p` sector writes of `fs_write`. */
  function TableAt(t: seq<Inode>, s: Fs, name: Name, data: Data, p: nat): (u: seq<Inode>)
    requires |t| == 32
  {
    if Committed(WriteOn(t, s, name, data), data, p) then
      var i := Find(t, name);
      t[i := Rewritten(t[i], BlocksNeeded(|data|), FreeBlock(t, 1024), |data|)]
    else t
  }

  /** Where the writes of `fs_write` go: chunks to one unreferenced block, then the closing pair. */
  lemma {:induction false} WriteLogShape(t: seq<Inode>, s: Fs, name: Name, data: Data)
    requires TableOk(t)
    ensures
      var e := WriteOn(t, s, name, data);
      var k, b := BlocksNeeded(|data|), FreeBlock(t, 1024);
      var n := if e.ret == 0 then k else |e.log|;
      && n <= |e.log|
      && e.sb.magic == s.sb.magic && e.sb.total_blocks == s.sb.total_blocks
      && e.log[..n] == ChunksTo(b, data, n)
      && (n > 0 ==> 33 <= b < 1057 && !Referenced(t, b))
      && (e.ret == 0 ==>
            && k <= 32 && 0 <= Find(t, name) && |e.log| == k + 2
            && e.log == ChunksTo(b, data, k)
                      + Closing(s.disk, Find(t, name), Rewritten(t[Find(t, name)], k, b, |data|), e.sb))
  {
    var e := WriteOn(t, s, name, data);
    var k, b := BlocksNeeded(|data|), FreeBlock(t, 1024);
    if e.ret == 0 {
      assert e.log[..k] == ChunksTo(b, data, k);
    } else {
      assert e.log == ChunksTo(b, data, |e.log|);
      assert e.log[..|e.log|] == e.log;
    }
  }

  lemma {:induction false} WriteInDisk(t: seq<Inode>, s: Fs, name: Name, data: Data)
    requires TableOk(t)
    ensures InDisk(s.disk, WriteOn(t, s, name, data).log)
  {
    var e := WriteOn(t, s, name, data);
    WriteLogShape(t, s, name, data);
    var n := if e.ret == 0 then BlocksNeeded(|data|) else |e.log|;
    forall j | 0 <= j < |e.log| ensures e.log[j].lba < |s.disk| {
      assert j < n ==> e.log[j] == e.log[..n][j];
    }
  }

  /** Up to its inode write, `fs_write` has only filled one unreferenced block. */
  lemma {:induction false} UncommittedDisk(t: seq<Inode>, s: Fs, name: Name, data: Data, p: nat)
    requires TableOk(t) && InDisk(s.disk, WriteOn(t, s, name, data).log)
    requires p <= |WriteOn(t, s, name, data).log| && !Committed(WriteOn(t, s, name, data), data, p)
    ensures
      var b := FreeBlock(t, 1024);
      && (p > 0 ==> 33 <= b < 1057 && !Referenced(t, b))
      && DiskAfter(s.disk, WriteOn(t, s, name, data).log, p)
         == if p == 0 then s.disk else s.disk[b := Chunk(data, p - 1)]
  {
    var e := WriteOn(t, s, name, data);
    var b := FreeBlock(t, 1024);
    WriteLogShape(t, s, name, data);
    var n := if e.ret == 0 then BlocksNeeded(|data|) else |e.log|;
    assert e.log[..p] == e.log[..n][..p] == ChunksTo(b, data, p);
    if p > 0 {
      ApplyChunksTo(s.disk, b, data, p);
    }
  }

  /** The disk with all chunks of a write in its block. */
  function ChunkedDisk(d: Disk, b: nat, data: Data, k: nat): Disk
    requires k > 0 ==> b < |d|
  {
    if k == 0 then d else d[b := Chunk(data, k - 1)]
  }

  /** From the inode write on, the closing sectors are in place too. */
  lemma {:induction false} CommittedDisk(t: seq<Inode>, s: Fs, name: Name, data: Data, p: nat)
    requires TableOk(t) && InDisk(s.disk, WriteOn(t, s, name, data).log)
    requires p <= |WriteOn(t, s, name, data).log| && Committed(WriteOn(t, s, name, data), data, p)
    ensures
      var e := WriteOn(t, s, name, data);
      var k, b, i := BlocksNeeded(|data|), FreeBlock(t, 1024), Find(t, name);
      && (k > 0 ==> 33 <= b < 1057 && !Referenced(t, b))
      && 0 <= i && k <= 32 && |e.log| == k + 2
      && DiskAfter(s.disk, e.log, p)
         == (var w := Closing(s.disk, i, Rewritten(t[i], k, b, |data|), e.sb);
             var f := ChunkedDisk(s.disk, b, data, k)[1 + i / 2 := w[0].data];
             if p == k + 1 then f else f[0 := w[1].data])
  {
    var e := WriteOn(t, s, name, data);
    var k, b, i := BlocksNeeded(|data|), FreeBlock(t, 1024), Find(t, name);
    WriteLogShape(t, s, name, data);
    var c := ChunksTo(b, data, k);
    if k > 0 {
      ApplyChunksTo(s.disk, b, data, k);
    } else {
      assert c == [];
    }
    var w := Closing(s.disk, i, Rewritten(t[i], k, b, |data|), e.sb);
    ClosingPrefix(s.disk, c, w[0], w[1], p);
  }

  lemma {:induction false} WriteFilesAt(t: seq<Inode>, s: Fs, name: Name, data: Data, p: nat)
    requires TableOk(t) && |data| + 511 < WORD_LIMIT
    requires p <= |WriteOn(t, s, name, data).log| && InDisk(s.disk, WriteOn(t, s, name, data).log)
    ensures TableOk(TableAt(t, s, name, data, p))
    ensures
      var e := WriteOn(t, s, name, data);
      FilesOf(TableAt(t, s, name, data, p), DiskAfter(s.disk, e.log, p))
      == if Committed(e, data, p) then FileWrite(FilesOf(t, s.disk), name, data) else FilesOf(t, s.disk)
  {
    hide FilesOf, TableOk, InodeSector, SuperSector, Chunk, FreeBlockFrom, FindFrom, Rewritten;
    var e := WriteOn(t, s, name, data);
    var k, b, i := BlocksNeeded(|data|), FreeBlock(t, 1024), Find(t, name);
    if Committed(e, data, p) {
      CommittedDisk(t, s, name, data, p);
      var c := ChunkedDisk(s.disk, b, data, k);
      if k > 0 {
        IdleWrite(t, s.disk, b, Chunk(data, k - 1));
      }
      CommitInTable(t, c, i, k, b, data);
      var w := Closing(s.disk, i, Rewritten(t[i], k, b, |data|), e.sb);
      LowWrites(TableAt(t, s, name, data, p), c, 1 + i / 2, w[0].data, w[1].data);
    } else {
      UncommittedDisk(t, s, name, data, p);
      if p > 0 {
        IdleWrite(t, s.disk, b, Chunk(data, p - 1));
      }
    }
  }

  lemma {:induction false} WriteTableAt(s: Fs, name: Name, data: Data, p: nat)
    requires FsOk(s)
    requires p <= |WriteEffect(s, name, data).log| && InDisk(s.disk, WriteEffect(s, name, data).log)
    ensures Table(DiskAfter(s.disk, WriteEffect(s, name, data).log, p)) == TableAt(Table(s.disk), s, name, data, p)
    ensures
      var e := WriteEffect(s, name, data);
      DiskAfter(s.disk, e.log, p)[0]
      == if Committed(e, data, p) && p == |e.log| then SuperSector(e.sb) else s.disk[0]
  {
    hide Table, InodeSector, SuperSector, Rewritten, Chunk, TableOk, FindFrom, FreeBlockFrom;
    var t := Table(s.disk);
    var e := WriteOn(t, s, name, data);
    var k, b, i := BlocksNeeded(|data|), FreeBlock(t, 1024), Find(t, name);
    if Committed(e, data, p) {
      CommittedDisk(t, s, name, data, p);
      var c := ChunkedDisk(s.disk, b, data, k);
      if k > 0 {
        TableAfterOtherWrite(s.disk, b, Chunk(data, k - 1));
      }
      ClosingTables(s.disk, c, i, Rewritten(t[i], k, b, |data|), e.sb);
    } else {
      UncommittedDisk(t, s, name, data, p);
      if p > 0 {
        TableAfterOtherWrite(s.disk, b, Chunk(data, p - 1));
      }
    }
  }

  /** Crash atomicity of `fs_write`: after any number of its sector writes the disk is in order, every
      other file is as before, and the target has its old contents before the inode write and the
      new ones from then on. */
  lemma {:induction false} WriteCrashAtomic(s: Fs, name: Name, data: Data, p: nat)
    requires FsOk(s) && |data| + 511 < WORD_LIMIT
    requires p <= |WriteEffect(s, name, data).log|
    ensures
      var e := WriteEffect(s, name, data);
      && InDisk(s.disk, e.log)
      && DiskOk(DiskAfter(s.disk, e.log, p))
      && Files(DiskAfter(s.disk, e.log, p))
         == (if Committed(e, data, p) then FileWrite(Files(s.disk), name, data) else Files(s.disk))
      && DecodeSuper(DiskAfter(s.disk, e.log, p)[0])
         == (if e.ret == 0 && p == |e.log| then e.sb else DecodeSuper(s.disk[0]))
  {
    hide TableOk, FilesOf, Table, SuperSector, DecodeSuper, FileWrite, WriteOn, TableAt, Apply;
    var e := WriteEffect(s, name, data);
    WriteInDisk(Table(s.disk), s, name, data);
    WriteTableAt(s, name, data, p);
    WriteFilesAt(Table(s.disk), s, name, data, p);
    WriteLogShape(Table(s.disk), s, name, data);
    SuperRoundTrip(e.sb);
  }

  // ---------- fs_create ----------

  lemma {:induction false} ZeroSlots()
    ensures Slots(seq(32, _ => 0)) == 0
  {
    SlotsArePrefix(seq(32, _ => 0), 0);
  }

  lemma {:induction false} NewInodeOk(t: seq<Inode>, i: nat, name: Name)
    requires TableOk(t) && i < 32 && !InUse(t[i]) && Find(t, Truncated(name)) < 0
    ensures InUse(NewInode(name)) && InodeOk(NewInode(name)) && NameOf(NewInode(name)) == Truncated(name)
    ensures TableOk(t[i := NewInode(name)])
    ensures Slots(NewInode(name).blocks) == 0
  {
    var x := NewInode(name);
    StoredNameIs(name);
    ZeroSlots();
    assert InodeOk(x);
    forall j | 0 <= j < 32 && j != i && InUse(t[j])
      ensures NameOf(t[j]) != NameOf(x) && NoShare(x, t[j])
    {
      assert !Named(t[j], Truncated(name));
    }
    TableUpdateOk(t, i, x);
  }

  lemma {:induction false} EmptyFile(d: Disk, name: Name)
    requires InodeOk(NewInode(name))
    ensures FileOf(d, NewInode(name)) == File([], 0)
  {
    ZeroSlots();
  }

  lemma {:induction false} CreateFiles(t: seq<Inode>, d: Disk, i: nat, name: Name)
    requires TableOk(t) && i < 32 && !InUse(t[i]) && Find(t, Truncated(name)) < 0
    ensures TableOk(t[i := NewInode(name)])
    ensures FilesOf(t[i := NewInode(name)], d) == FilesOf(t, d)[Truncated(name) := File([], 0)]
  {
    hide FilesOf, FileOf, TableOk, NewInode, FindFrom, Truncated;
    NewInodeOk(t, i, name);
    EmptyFile(d, name);
    TablePut(t, d, i, NewInode(name));
  }

  /** A create of a fresh name of at most 63 characters adds an empty file, in a single sector write. */
  lemma {:induction false} CreateAtomic(s: Fs, name: Name)
    requires FsOk(s) && |name| <= 63
    ensures
      var e := CreateEffect(s, name);
      && InDisk(s.disk, e.log) && |e.log| <= 1
      && DiskOk(Apply(s.disk, e.log))
      && Files(Apply(s.disk, e.log)) == (if e.ret == 0 then Files(s.disk)[name := File([], 0)] else Files(s.disk))
      && Apply(s.disk, e.log)[0] == s.disk[0]
      && Table(Apply(s.disk, e.log))
         == (if e.ret == 0 then Table(s.disk)[UnusedFrom(Table(s.disk), 0) := NewInode(name)] else Table(s.disk))
  {
    hide TableOk, FilesOf, Table, SuperSector, InodeSector, DecodeSuper, NewInode;
    var t := Table(s.disk);
    var e := CreateEffect(s, name);
    var i := UnusedFrom(t, 0);
    if e.ret == 0 {
      ApplyPush(s.disk, [], e.log[0]);
      assert e.log == [] + [e.log[0]];
      CreateFiles(t, s.disk, i, name);
      TableAfterInodeWrite(s.disk, i, NewInode(name));
      IdleWrite(t[i := NewInode(name)], s.disk, 1 + i / 2, e.log[0].data);
      assert Truncated(name) == name;
    }
  }

  // ---------- fs_delete ----------

  lemma {:induction false} ErasedOk(t: seq<Inode>, i: nat)
    requires TableOk(t) && i < 32
    ensures TableOk(t[i := Erased(t[i])]) && !InUse(Erased(t[i]))
  {
    TableUpdateOk(t, i, Erased(t[i]));
  }

  lemma {:induction false} DeleteFiles(t: seq<Inode>, d: Disk, i: nat)
    requires TableOk(t) && i < 32 && InUse(t[i])
    ensures TableOk(t[i := Erased(t[i])])
    ensures FilesOf(t[i := Erased(t[i])], d) == FilesOf(t, d) - {NameOf(t[i])}
  {
    hide FilesOf, FileOf, TableOk, Erased;
    ErasedOk(t, i);
    TablePut(t, d, i, Erased(t[i]));
    assert FilesOf(t, d) - {NameOf(t[i])} + map[] == FilesOf(t, d) - {NameOf(t[i])};
  }

  /** Crash atomicity of `fs_delete`: the file is there before the inode write and gone after it. */
  lemma {:induction false} DeleteCrashAtomic(s: Fs, name: Name, p: nat)
    requires FsOk(s) && p <= |DeleteEffect(s, name).log|
    ensures
      var e := DeleteEffect(s, name);
      && InDisk(s.disk, e.log)
      && DiskOk(DiskAfter(s.disk, e.log, p))
      && Files(DiskAfter(s.disk, e.log, p)) == (if p > 0 then Files(s.disk) - {name} else Files(s.disk))
      && DecodeSuper(DiskAfter(s.disk, e.log, p)[0])
         == (if e.ret == 0 && p == 2 then e.sb else DecodeSuper(s.disk[0]))
      && (e.ret == 0 && p > 0 ==>
            Table(DiskAfter(s.disk, e.log, p))
            == Table(s.disk)[Find(Table(s.disk), name) := Erased(Table(s.disk)[Find(Table(s.disk), name)])])
  {
    hide TableOk, FilesOf, Table, SuperSector, InodeSector, DecodeSuper, FindFrom, Slots, Erased;
    var d, t := s.disk, Table(s.disk);
    var e := DeleteEffect(s, name);
    var i := Find(t, name);
    if i >= 0 {
      var x := Erased(t[i]);
      assert e.log == [] + [e.log[0], e.log[1]];
      ClosingPrefix(d, [], e.log[0], e.log[1], p);
      DeleteFiles(t, d, i);
      ClosingTables(d, d, i, x, e.sb);
      LowWrites(t[i := x], d, 1 + i / 2, e.log[0].data, e.log[1].data);
      SuperRoundTrip(e.sb);
      assert DiskAfter(d, e.log, 0) == d;
      assert SuperOk(e.sb);
    }
  }
}
