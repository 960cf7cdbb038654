/** Whole runs of AshFS: from a fresh disk, and with a crash allowed inside any operation. */
module FsRuns {
  import opened Bytes
  import opened FsLayout
  import opened FsSpec
  import opened FsFrame
  import opened FsCrash
  import opened FsCount
  import opened FsRefine

  // ---------- formatting ----------

  function FormatLog(n: nat): seq<SectorWrite> { [SectorWrite(0, SuperSector(FreshSuper))] + ZeroTable(n) }

  /** Formatting stopped after the superblock and `n` inode sectors. */
  lemma {:induction false} FormatDisk(d: Disk, n: nat)
    requires n <= 32
    ensures InDisk(d, FormatLog(n))
    ensures forall l :: 0 <= l < |d| ==>
      Apply(d, FormatLog(n))[l] == if l == 0 then SuperSector(FreshSuper) else if l <= n then ZeroSector else d[l]
  {
    hide SuperSector;
    if n == 0 {
      ApplyPush(d, [], FormatLog(0)[0]);
      assert FormatLog(0) == [] + [FormatLog(0)[0]];
    } else {
      FormatDisk(d, n - 1);
      assert FormatLog(n) == FormatLog(n - 1) + [SectorWrite(n, ZeroSector)];
      ApplyPush(d, FormatLog(n - 1), SectorWrite(n, ZeroSector));
    }
  }

  /** `fs_init` keeps a disk exactly when sector 0 starts with the bytes 75 50 0A 00; any other disk gets all of
      its 33 sectors written. */
  lemma {:induction false} KeptDisks(d: Disk)
    ensures InitEffect(d).ret == 0
    ensures InitEffect(d).log == [] <==> d[0][0..4] == [0x75, 0x50, 0x0A, 0x00]
    ensures InitEffect(d).log == [] || |InitEffect(d).log| == 33
  {
    hide SuperSector, ZeroTable;
    var m: seq<byte> := [0x75, 0x50, 0x0A, 0x00];
    SuperOnDisk(d[0]);
    BytesOfWord(d[0], 0);
    assert U32Bytes(FS_MAGIC) == m;
    if d[0][0..4] == m {
      assert d[0][0] == m[0] && d[0][1] == m[1] && d[0][2] == m[2] && d[0][3] == m[3];
    }
  }

  /** The superblock of a formatted disk: magic, version 1, 1024 blocks, inodes from sector 1, data from sector 33,
      1024 blocks free, then zeros. */
  lemma {:induction false} FreshBytes(k: nat)
    requires k < 512
    ensures
      var b := [0x75, 0x50, 0x0A, 0, 1, 0, 0, 0, 0, 4, 0, 0, 1, 0, 0, 0, 33, 0, 0, 0, 0, 4, 0, 0];
      SuperSector(FreshSuper)[k] == if k < 24 then b[k] else 0
  {
    var w := [FS_MAGIC, 1, 1024, 1, 33, 1024];
    assert U32Bytes(FS_MAGIC) == [0x75, 0x50, 0x0A, 0] && U32Bytes(1) == [1, 0, 0, 0];
    assert U32Bytes(1024) == [0, 4, 0, 0] && U32Bytes(33) == [33, 0, 0, 0];
  }

  /** A deleted file's inode on disk: unused, all slots 0, name and size left as they were. */
  lemma {:induction false} DeletedInode(s: Fs, name: Name, j: nat)
    requires FsOk(s) && DeleteEffect(s, name).ret == 0 && j < 32
    ensures
      var e, i := DeleteEffect(s, name), Find(Table(s.disk), name);
      && InDisk(s.disk, e.log) && 0 <= i < 32
      && (var x, y := Table(s.disk)[i], Table(Apply(s.disk, e.log))[i];
          y.used == 0 && y.blocks[j] == 0 && y.name == x.name && y.size == x.size)
  {
    hide Table, TableOk, FindFrom, Apply, InodeSector, SuperSector, Slots;
    var e := DeleteEffect(s, name);
    DeleteCrashAtomic(s, name, 2);
    assert e.log[..2] == e.log;
  }

  lemma {:induction false} UsedByte(d: Disk, i: nat)
    requires i < 32
    ensures Table(d)[i].used == d[1 + i / 2][i % 2 * 200 + 196]
  {
    var o := i % 2 * 200;
    assert d[1 + i / 2][o..o + 200][196] == d[1 + i / 2][o + 196];
  }

  predicate NoFiles(t: seq<Inode>) { forall i :: 0 <= i < |t| ==> !InUse(t[i]) }

  lemma {:induction false} EmptySum(t: seq<Inode>)
    requires NoFiles(t)
    ensures SlotSum(t) == 0
  {
    if t != [] {
      EmptySum(t[..|t| - 1]);
    }
  }

  lemma {:induction false} EmptyTable(t: seq<Inode>, d: Disk)
    requires |t| == 32 && NoFiles(t)
    ensures TableOk(t) && FilesOf(t, d) == map[]
  {
    assert forall i, j :: 0 <= i < 32 && 0 <= j < 32 ==> Apart(t, i, j);
    assert Names(t) == {};
  }

  /** `fs_init` on a disk without the magic number leaves an empty file system with 1024 free blocks. */
  lemma {:induction false} FormatCorrect(d: Disk)
    requires DecodeSuper(d[0]).magic != FS_MAGIC
    ensures
      var e := InitEffect(d);
      && InDisk(d, e.log)
      && Inv(Fs(Apply(d, e.log), e.sb))
      && AbsOf(Fs(Apply(d, e.log), e.sb)) == AbsFs(map[], 1024, 1024)
  {
    hide SuperSector, FilesOf, TableOk, SlotSum, Apply, Table;
    var e := InitEffect(d);
    assert e.log == FormatLog(32);
    FormatDisk(d, 32);
    var f := Apply(d, e.log);
    forall i | 0 <= i < 32 ensures !InUse(Table(f)[i]) {
      UsedByte(f, i);
    }
    EmptyTable(Table(f), f);
    EmptySum(Table(f));
    SuperRoundTrip(FreshSuper);
  }

  /** The state `fs_init` leaves on a disk it formats. */
  function Formatted(d: Disk): (s: Fs)
    requires DecodeSuper(d[0]).magic != FS_MAGIC
    ensures Inv(s) && AbsOf(s) == AbsFs(map[], 1024, 1024)
  {
    FormatCorrect(d);
    Fs(Apply(d, InitEffect(d).log), InitEffect(d).sb)
  }

  /** Formatting is not crash-atomic: once the superblock is out, a reboot accepts the disk, and it comes
      up empty exactly when the inode sectors not reached held no used inode before. */
  lemma {:induction false} FormatCrash(d: Disk, n: nat)
    requires n <= 32
    ensures InDisk(d, FormatLog(n))
    ensures
      var f := Apply(d, FormatLog(n));
      && InitEffect(f) == Effect(0, [], FreshSuper)
      && (NoFiles(Table(f)) <==> forall i :: 2 * n <= i < 32 ==> !InUse(Table(d)[i]))
  {
    hide SuperSector, Apply, Table, FormatLog, DecodeSuper;
    FormatDisk(d, n);
    SuperRoundTrip(FreshSuper);
    var f := Apply(d, FormatLog(n));
    forall i | 0 <= i < 32 ensures InUse(Table(f)[i]) <==> i >= 2 * n && InUse(Table(d)[i]) {
      UsedByte(f, i);
      UsedByte(d, i);
    }
  }

  /** A disk without the magic number that still holds an inode in use, in the last sector of the table. */
  const StaleDisk: Disk := seq<Sector>(1057, l => if l == 16 then ZeroSector[396 := 1] else ZeroSector)

  /** A crash right after the superblock leaves it with a file nobody made. */
  lemma {:induction false} FormatCrashKeepsFile()
    ensures DecodeSuper(StaleDisk[0]).magic != FS_MAGIC && InDisk(StaleDisk, FormatLog(0))
    ensures
      var f := Apply(StaleDisk, FormatLog(0));
      InitEffect(f) == Effect(0, [], FreshSuper) && !NoFiles(Table(f))
  {
    hide SuperSector, Apply, Table, FormatLog;
    assert StaleDisk[0] == ZeroSector && StaleDisk[16][396] == 1;
    UsedByte(StaleDisk, 31);
    FormatCrash(StaleDisk, 0);
  }

  /** From any disk that `fs_init` formats, every run of the kernel's operations answers as a map from
      names to files does. */
  lemma {:induction false} AshFsIsAMap(d: Disk, ops: seq<Op>)
    requires DecodeSuper(d[0]).magic != FS_MAGIC && AllAdmissible(ops)
    ensures InDisk(d, InitEffect(d).log)
    ensures Inv(Fs(Apply(d, InitEffect(d).log), InitEffect(d).sb))
    ensures Run(Fs(Apply(d, InitEffect(d).log), InitEffect(d).sb), ops) == AbsRun(AbsFs(map[], 1024, 1024), ops)
    ensures AbsOf(Final(Fs(Apply(d, InitEffect(d).log), InitEffect(d).sb), ops))
            == AbsFinal(AbsFs(map[], 1024, 1024), ops)
  {
    hide Inv, AbsOf, Run, AbsRun, Final, AbsFinal, InitEffect, Apply;
    FormatCorrect(d);
    RunRefines(Fs(Apply(d, InitEffect(d).log), InitEffect(d).sb), ops);
  }

  // ---------- what a write stores ----------

  /** Every full chunk of the data equals the zero-padded last one. */
  predicate ChunksAlike(data: seq<byte>) {
    forall i :: 0 <= i < |data| / 512 ==> Chunk(data, i) == Chunk(data, (|data| + 511) / 512 - 1)
  }

  lemma {:induction false} ByteInChunk(data: seq<byte>, p: nat)
    requires p < |data|
    ensures data[p] == Chunk(data, p / 512)[p % 512]
  {
    assert 512 * (p / 512) + p % 512 == p;
  }

  lemma {:induction false} AlikeSurvives(data: seq<byte>)
    requires ChunksAlike(data)
    ensures Smear(data) == data
  {
    forall p | 0 <= p < |data| ensures Smear(data)[p] == data[p] {
      ByteInChunk(data, p);
    }
  }

  lemma {:induction false} SurvivesAlike(data: seq<byte>, i: nat, q: nat)
    requires Smear(data) == data && i < |data| / 512 && q < 512
    ensures Chunk(data, i)[q] == Chunk(data, (|data| + 511) / 512 - 1)[q]
  {
    var p := 512 * i + q;
    assert p % 512 == q;
    assert Smear(data)[p] == data[p];
  }

  /** The data survives a kernel write exactly when every full chunk equals the zero-padded last one, so
      in particular whenever it fits one block. */
  lemma {:induction false} WriteRoundTrip(data: seq<byte>)
    ensures Smear(data) == data <==> ChunksAlike(data)
    ensures |data| <= 512 ==> Smear(data) == data
  {
    if Smear(data) == data {
      forall i | 0 <= i < |data| / 512 ensures Chunk(data, i) == Chunk(data, (|data| + 511) / 512 - 1) {
        forall q | 0 <= q < 512 ensures Chunk(data, i)[q] == Chunk(data, (|data| + 511) / 512 - 1)[q] {
          SurvivesAlike(data, i, q);
        }
      }
    }
    if ChunksAlike(data) || |data| <= 512 {
      AlikeSurvives(data);
    }
  }

  /** A write succeeds exactly when the file exists and has room in its slots and on the counter; a read then
      returns the smeared data, which are the data exactly when the chunks are alike. */
  lemma {:induction false} WriteThenRead(s: Fs, name: Name, data: Data)
    requires Inv(s) && |data| + 511 < WORD_LIMIT
    ensures
      var e := WriteEffect(s, name, data);
      && InDisk(s.disk, e.log) && FsOk(After(s, e))
      && (e.ret == 0 <==> name in Files(s.disk) && |data| <= 16384 && (|data| + 511) / 512 <= s.sb.free_blocks)
      && (e.ret == 0 ==> ReadOutcome(After(s, e), name, |data|) == ReadResult(|data|, Smear(data)))
      && (e.ret == 0 ==> (ReadOutcome(After(s, e), name, |data|).bytes == data <==> ChunksAlike(data)))
  {
    hide TableOk, Smear, ChunksAlike, Inv, WriteEffect, Files, ReadOutcome, Apply;
    InvFacts(s);
    var e := WriteEffect(s, name, data);
    WriteRoundTrip(data);
    WriteOutcome(s, name, data);
    InvFacts(After(s, e));
    if e.ret == 0 {
      ReadBack(After(s, e), name, Smear(data));
    }
  }

  lemma {:induction false} WriteOutcome(s: Fs, name: Name, data: Data)
    requires Inv(s) && |data| + 511 < WORD_LIMIT
    ensures
      var e := WriteEffect(s, name, data);
      && InDisk(s.disk, e.log) && Inv(After(s, e))
      && (e.ret == 0 <==> name in Files(s.disk) && |data| <= 16384 && (|data| + 511) / 512 <= s.sb.free_blocks)
      && (e.ret == 0 ==> name in Files(After(s, e).disk) && Files(After(s, e).disk)[name].bytes == Smear(data))
  {
    hide Table, FilesOf, TableOk, Smear, WriteOn, CountOk, Apply, DecodeSuper, WriteEffect, OutputOf;
    StepCorrect(s, Write(name, data));
    OutputIs(s, name, data);
  }

  lemma {:induction false} OutputIs(s: Fs, name: Name, data: Data)
    requires FsOk(s)
    ensures OutputOf(s, Write(name, data)) == Code(WriteEffect(s, name, data).ret)
  {
    hide WriteEffect, FsOk;
  }

  lemma {:induction false} ReadBack(s: Fs, name: Name, bytes: seq<byte>)
    requires Inv(s) && name in Files(s.disk) && Files(s.disk)[name].bytes == bytes
    ensures ReadOutcome(s, name, |bytes|) == ReadResult(|bytes|, bytes)
  {
    hide Table, FilesOf, TableOk, CountOk, FindFrom;
    StepCorrect(s, Read(name, |bytes|));
    assert bytes[..|bytes|] == bytes;
  }

  /** Two blocks of different bytes. */
  const TwoBlocks: Data := seq<byte>(513, p => if p == 0 then 1 else 2)

  /** A two-block write that does not read back: the first block is lost. */
  lemma {:induction false} WriteLosesData(s: Fs, name: Name)
    requires Inv(s) && name in Files(s.disk) && s.sb.free_blocks >= 2
    ensures
      var e := WriteEffect(s, name, TwoBlocks);
      && e.ret == 0 && InDisk(s.disk, e.log) && FsOk(After(s, e))
      && ReadOutcome(After(s, e), name, 513).ret == 513
      && ReadOutcome(After(s, e), name, 513).bytes[0] != TwoBlocks[0]
  {
    hide Table, FilesOf, TableOk, WriteOn, CountOk, FindFrom, ReadOn;
    WriteThenRead(s, name, TwoBlocks);
    assert Chunk(TwoBlocks, 1)[0] == TwoBlocks[512];
  }

  /** The size wrap of `size + 511`: such a write succeeds without storing a byte of data, and leaves an inode
      on disk whose size its blocks cannot hold. */
  lemma {:induction false} WrappedSize(s: Fs, name: Name, data: Data)
    requires FsOk(s) && name in Files(s.disk) && |data| + 511 >= WORD_LIMIT
    ensures
      var e := WriteEffect(s, name, data);
      && e.ret == 0 && |e.log| == 2 && InDisk(s.disk, e.log)
      && (var i := Find(Table(s.disk), name);
          var x, y := Table(s.disk)[i], Table(Apply(s.disk, e.log))[i];
          && y == x.(size := |data|) && !InodeOk(y)
          && !TableOk(Table(Apply(s.disk, e.log))))
  {
    hide Table, FilesOf, TableOk, InodeSector, SuperSector, Apply;
    var t, e := Table(s.disk), WriteEffect(s, name, data);
    FilesFind(t, s.disk, name);
    var i := Find(t, name);
    WriteInDisk(t, s, name, data);
    WriteTableAt(s, name, data, 2);
    assert e.log[..2] == e.log;
    assert Slots(t[i].blocks) <= 32;
    assert Rewritten(t[i], 0, FreeBlock(t, 1024), |data|).blocks == t[i].blocks;
    BadInode(Table(Apply(s.disk, e.log)), i);
  }

  lemma {:induction false} BadInode(t: seq<Inode>, i: nat)
    requires |t| == 32 && i < 32 && InUse(t[i]) && !InodeOk(t[i])
    ensures !TableOk(t)
  {
    hide InodeOk;
  }

  /** Names of 64 characters and more are cut when stored but not when looked up: a create succeeds, and
      keeps the table in order exactly when the cut name was not taken. */
  lemma {:induction false} LongNameCreate(s: Fs, name: Name)
    requires FsOk(s) && CreateEffect(s, name).ret == 0
    ensures InDisk(s.disk, CreateEffect(s, name).log)
    ensures TableOk(Table(Apply(s.disk, CreateEffect(s, name).log))) <==> Truncated(name) !in Files(s.disk)
  {
    hide Table, FilesOf, FindFrom, NewInode, InodeSector, TableOk;
    var t := Table(s.disk);
    var e := CreateEffect(s, name);
    var i := UnusedFrom(t, 0);
    assert e.log == [] + [e.log[0]];
    ApplyPush(s.disk, [], e.log[0]);
    TableAfterInodeWrite(s.disk, i, NewInode(name));
    FilesFind(t, s.disk, Truncated(name));
    if Find(t, Truncated(name)) < 0 {
      NewInodeOk(t, i, name);
    } else {
      DuplicateName(t, i, name);
    }
  }

  /** On a fresh disk, a 63-character name and the same with one more character: both are created, and the table
      then holds two files of one name. */
  lemma {:induction false} LongNameTwice(d: Disk, name: Name, c: byte)
    requires DecodeSuper(d[0]).magic != FS_MAGIC && |name| == 63 && c != 0
    ensures
      var s := Formatted(d);
      var e := CreateEffect(s, name);
      && e.ret == 0 && InDisk(s.disk, e.log)
      && (var e' := CreateEffect(After(s, e), name + [c]);
          && e'.ret == 0 && InDisk(After(s, e).disk, e'.log)
          && !TableOk(Table(After(After(s, e), e').disk)))
  {
    hide Table, FilesOf, TableOk, Apply, InitEffect, CountOk, FindFrom, NewInode, InodeSector;
    var s := Formatted(d);
    FormatCorrect(d);
    StepCorrect(s, Create(name));
    var u := After(s, CreateEffect(s, name));
    var t := Table(u.disk);
    assert Files(u.disk).Keys == {name};
    FilesSize(t, u.disk);
    if Find(t, name + [c]) >= 0 {
      KeysAreShort(t, name + [c]);
      assert false;
    }
    LongNameCreate(u, name + [c]);
  }

  lemma {:induction false} DuplicateName(t: seq<Inode>, i: nat, name: Name)
    requires |t| == 32 && i < 32 && !InUse(t[i]) && Find(t, Truncated(name)) >= 0
    ensures !TableOk(t[i := NewInode(name)])
  {
    StoredNameIs(name);
    var u := t[i := NewInode(name)];
    var j := Find(t, Truncated(name));
    assert u[j] == t[j] && u[i] == NewInode(name);
    assert !Apart(u, i, j);
  }

  // ---------- runs with crashes ----------

  /** An operation that ends, or one cut short by a crash after some of its sector writes and followed
      by a reboot. */
  datatype Event = Done(op: Op) | Crash(op: Op, writes: nat)

  /** How many of the operation's sector writes reached the disk. */
  function Reached(s: Fs, ev: Event): (p: nat)
    ensures p <= |EffectOf(s, ev.op).log|
  {
    var n := |EffectOf(s, ev.op).log|;
    if ev.Crash? && ev.writes < n then ev.writes else n
  }

  /** The operation's inode write is among them. */
  predicate Took(s: Fs, ev: Event) {
    var p := Reached(s, ev);
    match ev.op
    case Write(_, data) => Committed(EffectOf(s, ev.op), data, p)
    case _ => EffectOf(s, ev.op).ret == 0 && p > 0
  }

  /** What an operation that took place does to the files. */
  function FileStep(m: map<Name, File>, op: Op): map<Name, File> {
    match op
    case Create(name) => m[name := File([], 0)]
    case Write(name, data) => FileWrite(m, name, data)
    case Delete(name) => m - {name}
    case _ => m
  }

  function EventDisk(s: Fs, ev: Event): Disk
    requires InDisk(s.disk, EffectOf(s, ev.op).log)
  {
    DiskAfter(s.disk, EffectOf(s, ev.op).log, Reached(s, ev))
  }

  function EventStep(s: Fs, ev: Event): (s': Fs)
    requires FsOk(s) && Admissible(ev.op)
    ensures FsOk(s')
  {
    EventCorrect(s, ev);
    var d := EventDisk(s, ev);
    Fs(d, if ev.Done? then EffectOf(s, ev.op).sb else InitEffect(d).sb)
  }

  /** Every event leaves the disk in order, with each operation applied to the files wholly or not at all. */
  lemma {:induction false} EventCorrect(s: Fs, ev: Event)
    requires FsOk(s) && Admissible(ev.op)
    ensures InDisk(s.disk, EffectOf(s, ev.op).log)
    ensures DiskOk(EventDisk(s, ev)) && SuperOk(EffectOf(s, ev.op).sb)
    ensures InitEffect(EventDisk(s, ev)) == Effect(0, [], DecodeSuper(EventDisk(s, ev)[0]))
    ensures Files(EventDisk(s, ev)) == if Took(s, ev) then FileStep(Files(s.disk), ev.op) else Files(s.disk)
  {
    hide Table, FilesOf, TableOk, DecodeSuper, FileWrite, FindFrom, InodeSector, SuperSector;
    var e := EffectOf(s, ev.op);
    var p := Reached(s, ev);
    match ev.op
    case Create(name) =>
      CreateAtomic(s, name);
      assert p == 0 ==> e.log[..p] == [];
      assert p == 1 ==> e.log[..p] == e.log;
    case Write(name, data) =>
      WriteCrashAtomic(s, name, data, p);
      WriteLogShape(Table(s.disk), s, name, data);
    case Delete(name) =>
      DeleteCrashAtomic(s, name, p);
    case Read(_, _) =>
      assert e.log[..p] == [];
    case Reboot =>
      assert e.log[..p] == [];
  }

  function CrashRun(s: Fs, evs: seq<Event>): (s': Fs)
    requires FsOk(s) && forall i :: 0 <= i < |evs| ==> Admissible(evs[i].op)
    ensures FsOk(s')
    decreases |evs|
  {
    if evs == [] then s else CrashRun(EventStep(s, evs[0]), evs[1..])
  }

  /** Which operations of a run took place. */
  function TookRun(s: Fs, evs: seq<Event>): (b: seq<bool>)
    requires FsOk(s) && forall i :: 0 <= i < |evs| ==> Admissible(evs[i].op)
    ensures |b| == |evs|
    decreases |evs|
  {
    if evs == [] then [] else [Took(s, evs[0])] + TookRun(EventStep(s, evs[0]), evs[1..])
  }

  /** The files after applying, in order, the operations that took place. */
  function FileRun(m: map<Name, File>, evs: seq<Event>, took: seq<bool>): map<Name, File>
    requires |took| == |evs|
    decreases |evs|
  {
    if evs == [] then m
    else FileRun(if took[0] then FileStep(m, evs[0].op) else m, evs[1..], took[1..])
  }

  /** Over every run with crashes anywhere, the files are those of the operations that took place,
      each applied as a whole. */
  lemma {:induction false} CrashRunAtomic(s: Fs, evs: seq<Event>)
    requires FsOk(s) && forall i :: 0 <= i < |evs| ==> Admissible(evs[i].op)
    ensures Files(CrashRun(s, evs).disk) == FileRun(Files(s.disk), evs, TookRun(s, evs))
    decreases |evs|
  {
    hide Files, FsOk, Took, FileStep, EventDisk;
    if evs != [] {
      EventCorrect(s, evs[0]);
      CrashRunAtomic(EventStep(s, evs[0]), evs[1..]);
    }
  }

  // ---------- the counter and crashes ----------

  /** The one way to spoil the counter: a crash between the inode and the superblock of a write that adds more
      slots than the counter on disk leaves room for. */
  predicate CountSurvives(s: Fs, ev: Event)
    requires FsOk(s)
  {
    ev.Crash? && ev.op.Write? && EffectOf(s, ev.op).ret == 0 && Reached(s, ev) == BlocksNeeded(|ev.op.data|) + 1 ==>
      var t := Table(s.disk);
      var slots := Slots(t[Find(t, ev.op.name)].blocks);
      DecodeSuper(s.disk[0]).free_blocks + SlotSum(t) + Max(slots, BlocksNeeded(|ev.op.data|)) - slots <= 1024
  }

  /** The slots in use after the first `p` sector writes of `fs_write`. */
  lemma {:induction false} SlotsAfterWrite(s: Fs, name: Name, data: Data, p: nat)
    requires FsOk(s) && |data| + 511 < WORD_LIMIT && p <= |WriteEffect(s, name, data).log|
    ensures
      var e, t := WriteEffect(s, name, data), Table(s.disk);
      && InDisk(s.disk, e.log)
      && SlotSum(Table(DiskAfter(s.disk, e.log, p))) ==
         if Committed(e, data, p)
         then SlotSum(t) + Max(Slots(t[Find(t, name)].blocks), BlocksNeeded(|data|)) - Slots(t[Find(t, name)].blocks)
         else SlotSum(t)
  {
    hide Table, TableOk, FindFrom, InodeSector, SuperSector, SlotSum, Apply, Rewritten;
    var t, e := Table(s.disk), WriteEffect(s, name, data);
    var k, b, i := BlocksNeeded(|data|), FreeBlock(t, 1024), Find(t, name);
    WriteInDisk(t, s, name, data);
    WriteTableAt(s, name, data, p);
    if Committed(e, data, p) {
      RewrittenOk(t, i, k, b, |data|);
      SlotSumPut(t, i, Rewritten(t[i], k, b, |data|));
    }
  }

  lemma {:induction false} SlotsAfterDelete(s: Fs, name: Name, p: nat)
    requires FsOk(s) && p <= |DeleteEffect(s, name).log|
    ensures
      var e := DeleteEffect(s, name);
      InDisk(s.disk, e.log) && SlotSum(Table(DiskAfter(s.disk, e.log, p))) <= SlotSum(Table(s.disk))
  {
    hide Table, TableOk, FindFrom, InodeSector, SuperSector, SlotSum, Apply, Erased;
    var t, e := Table(s.disk), DeleteEffect(s, name);
    DeleteCrashAtomic(s, name, p);
    if e.ret == 0 && p > 0 {
      var i := Find(t, name);
      ErasedOk(t, i);
      SlotSumPut(t, i, Erased(t[i]));
    } else {
      assert e.log[..p] == [];
      assert Apply(s.disk, []) == s.disk by {
        ApplyNothing(s.disk);
      }
    }
  }

  lemma {:induction false} ApplyNothing(d: Disk)
    ensures Apply(d, []) == d
  {
  }

  /** Counter and table stay in step over an event exactly when it is not such a crash. */
  lemma {:induction false} CountAfterEvent(s: Fs, ev: Event)
    requires Inv(s) && Admissible(ev.op)
    ensures Inv(EventStep(s, ev)) <==> CountSurvives(s, ev)
  {
    hide Table, FilesOf, TableOk, DecodeSuper, SlotSum, Apply, EffectOf, Slots, FindFrom;
    EventCorrect(s, ev);
    if Reached(s, ev) == |EffectOf(s, ev.op).log| {
      CountAfterWhole(s, ev);
    } else {
      CountAfterPart(s, ev);
    }
  }

  /** All sector writes of the operation reached the disk. */
  lemma {:induction false} CountAfterWhole(s: Fs, ev: Event)
    requires Inv(s) && Admissible(ev.op) && Reached(s, ev) == |EffectOf(s, ev.op).log|
    ensures Inv(EventStep(s, ev)) && CountSurvives(s, ev)
  {
    hide Table, FilesOf, TableOk, DecodeSuper, FindFrom, SlotSum, Apply, FreeBlockFrom, Slots, Inv, InodeSector;
    var e, p := EffectOf(s, ev.op), Reached(s, ev);
    assert Inv(s) ==> FsOk(s) by {
      InvFacts(s);
    }
    EventCorrect(s, ev);
    StepCorrect(s, ev.op);
    assert e.log[..p] == e.log;
    InvFacts(After(s, e));
    InvRebooted(After(s, e));
    if ev.op.Write? {
      WriteLogShape(Table(s.disk), s, ev.op.name, ev.op.data);
    }
  }

  lemma {:induction false} InvFacts(s: Fs)
    requires Inv(s)
    ensures FsOk(s)
  {
  }

  lemma {:induction false} InvRebooted(s: Fs)
    requires Inv(s)
    ensures Inv(Fs(s.disk, DecodeSuper(s.disk[0]))) && InitEffect(s.disk) == Effect(0, [], DecodeSuper(s.disk[0]))
  {
    hide Table, TableOk, DecodeSuper, SlotSum;
  }

  /** The operation was cut short. */
  lemma {:induction false} CountAfterPart(s: Fs, ev: Event)
    requires Inv(s) && Admissible(ev.op) && Reached(s, ev) < |EffectOf(s, ev.op).log|
    ensures Inv(EventStep(s, ev)) <==> CountSurvives(s, ev)
  {
    hide Table, FilesOf, TableOk, DecodeSuper, FindFrom, InodeSector, SuperSector, SlotSum, Apply, FreeBlockFrom, Slots;
    var e, p := EffectOf(s, ev.op), Reached(s, ev);
    EventCorrect(s, ev);
    ApplyNothing(s.disk);
    assert p == 0 ==> e.log[..p] == [];
    match ev.op
    case Create(name) => CreateAtomic(s, name);
    case Write(name, data) =>
      WriteCrashAtomic(s, name, data, p);
      WriteLogShape(Table(s.disk), s, name, data);
      SlotsAfterWrite(s, name, data, p);
    case Delete(name) =>
      DeleteCrashAtomic(s, name, p);
      SlotsAfterDelete(s, name, p);
    case Read(_, _) =>
    case Reboot =>
  }

  /** Counter and table are in step in every state of a run with crashes. */
  ghost predicate InvAlong(s: Fs, evs: seq<Event>)
    requires FsOk(s) && forall i :: 0 <= i < |evs| ==> Admissible(evs[i].op)
    decreases |evs|
  {
    Inv(s) && (evs != [] ==> InvAlong(EventStep(s, evs[0]), evs[1..]))
  }

  /** No event of the run is such a crash. */
  predicate SurvivesAlong(s: Fs, evs: seq<Event>)
    requires FsOk(s) && forall i :: 0 <= i < |evs| ==> Admissible(evs[i].op)
    decreases |evs|
  {
    evs != [] ==> CountSurvives(s, evs[0]) && SurvivesAlong(EventStep(s, evs[0]), evs[1..])
  }

  lemma {:induction false} CountAlongRun(s: Fs, evs: seq<Event>)
    requires Inv(s) && forall i :: 0 <= i < |evs| ==> Admissible(evs[i].op)
    ensures InvAlong(s, evs) <==> SurvivesAlong(s, evs)
    ensures SurvivesAlong(s, evs) ==> Inv(CrashRun(s, evs))
    decreases |evs|
  {
    hide FsOk, CountOk, CountSurvives, EventDisk;
    if evs != [] {
      CountAfterEvent(s, evs[0]);
      if CountSurvives(s, evs[0]) {
        CountAlongRun(EventStep(s, evs[0]), evs[1..]);
      }
    }
  }

  /** The first block ever written, with a crash before the superblock: the disk then counts 1024 free blocks
      beside one in use. */
  lemma {:induction false} CrashSpoilsCount(d: Disk, name: Name, data: Data)
    requires DecodeSuper(d[0]).magic != FS_MAGIC && |name| <= 63 && 0 < |data| <= 512
    ensures
      var s := Step(Formatted(d), Create(name));
      !Inv(EventStep(s, Crash(Write(name, data), 2)))
  {
    hide Table, FilesOf, TableOk, DecodeSuper, FindFrom, InodeSector, SuperSector, SlotSum, Apply, FreeBlockFrom,
         NewInode, CountOk, InitEffect, Slots;
    var s0 := Formatted(d);
    var s, ev := Step(s0, Create(name)), Crash(Write(name, data), 2);
    StepCorrect(s0, Create(name));
    StepCorrect(s, Write(name, data));
    CountAfterEvent(s, ev);
    WriteLogShape(Table(s.disk), s, name, data);
    FilesFind(Table(s.disk), s.disk, name);
  }

  // ---------- blocks the counter loses ----------

  /** A successful write loses blocks from the count exactly when it stores something in a file that has slots
      already: those slots are taken over without being given back. */
  lemma {:induction false} RewriteLosesBlocks(s: Fs, name: Name, data: Data)
    requires Inv(s) && |data| + 511 < WORD_LIMIT && WriteEffect(s, name, data).ret == 0
    ensures
      var e := WriteEffect(s, name, data);
      && name in Files(s.disk) && InDisk(s.disk, e.log)
      && (e.sb.free_blocks + SlotSum(Table(Apply(s.disk, e.log))) == s.sb.free_blocks + SlotSum(Table(s.disk))
          <==> |data| == 0 || Files(s.disk)[name].slots == 0)
      && e.sb.free_blocks + SlotSum(Table(Apply(s.disk, e.log))) <= s.sb.free_blocks + SlotSum(Table(s.disk))
  {
    hide Table, FilesOf, TableOk, FindFrom, SlotSum, Apply, FreeBlockFrom, Slots, InodeSector, SuperSector, Rewritten;
    var t, e := Table(s.disk), WriteEffect(s, name, data);
    SlotsAfterWrite(s, name, data, |e.log|);
    WriteLogShape(t, s, name, data);
    FilesFind(t, s.disk, name);
    assert e.log[..|e.log|] == e.log;
  }

  /** A write that fails leaves the counter in memory alone exactly when it stops before taking a block: the file
      is missing, the data need more than 32 blocks, or the counter is 0 already. Otherwise it leaves 0. */
  lemma {:induction false} FailedWriteCounter(s: Fs, name: Name, data: Data)
    requires Inv(s) && |data| + 511 < WORD_LIMIT && WriteEffect(s, name, data).ret != 0
    ensures WriteEffect(s, name, data).sb == s.sb <==>
            name !in Files(s.disk) || |data| > 16384 || s.sb.free_blocks == 0
    ensures WriteEffect(s, name, data).sb == s.sb || WriteEffect(s, name, data).sb == s.sb.(free_blocks := 0)
  {
    hide Table, FilesOf, TableOk, FindFrom, SlotSum, FreeBlockFrom;
    var t := Table(s.disk);
    FilesFind(t, s.disk, name);
    if FreeBlock(t, 1024) == 0 {
      FullDisk(t);
    }
  }

  /** Both counters agree, and with the slots in use they make up all 1024 blocks. */
  predicate Exact(s: Fs) {
    && s.sb.free_blocks == DecodeSuper(s.disk[0]).free_blocks
    && s.sb.free_blocks + SlotSum(Table(s.disk)) == 1024
  }

  /** The operation makes the count inexact: a write that stores something in a file with slots, or one that
      runs out of blocks under way. */
  predicate Loses(a: AbsFs, op: Op) {
    op.Write? && op.name in a.files && 0 < BlocksNeeded(|op.data|) <= 32 &&
    if BlocksNeeded(|op.data|) <= a.free then a.files[op.name].slots > 0 else a.free > 0
  }

  lemma {:induction false} ExactWrite(s: Fs, name: Name, data: Data)
    requires Inv(s) && Exact(s) && |data| + 511 < WORD_LIMIT
    ensures Exact(Step(s, Write(name, data))) <==> !Loses(AbsOf(s), Write(name, data))
  {
    hide Table, FilesOf, TableOk, FindFrom, SlotSum, Apply, FreeBlockFrom, Slots, InodeSector, SuperSector, Rewritten,
         DecodeSuper, WriteOn;
    var t, e := Table(s.disk), WriteEffect(s, name, data);
    StepCorrect(s, Write(name, data));
    SlotsAfterWrite(s, name, data, |e.log|);
    assert e.log[..|e.log|] == e.log;
    WriteLogShape(t, s, name, data);
    if e.ret == 0 {
      RewriteLosesBlocks(s, name, data);
    }
  }

  lemma {:induction false} ExactDelete(s: Fs, name: Name)
    requires Inv(s) && Exact(s)
    ensures Exact(Step(s, Delete(name)))
  {
    hide TableOk, FilesOf, Table, DecodeSuper, Erased, SlotSum, InodeSector, SuperSector, FindFrom, Slots;
    var t, e := Table(s.disk), DeleteEffect(s, name);
    StepCorrect(s, Delete(name));
    DeleteCrashAtomic(s, name, |e.log|);
    FilesFind(t, s.disk, name);
    assert e.log[..|e.log|] == e.log;
    if e.ret == 0 {
      var i := Find(t, name);
      SlotSumPut(t, i, Erased(t[i]));
      ErasedOk(t, i);
    }
  }

  lemma {:induction false} ExactCreate(s: Fs, name: Name)
    requires Inv(s) && Exact(s) && |name| <= 63
    ensures Exact(Step(s, Create(name)))
  {
    hide TableOk, FilesOf, Table, DecodeSuper, NewInode, SlotSum, Apply, InodeSector;
    var t := Table(s.disk);
    CreateAtomic(s, name);
    FilesFind(t, s.disk, name);
    if CreateEffect(s, name).ret == 0 {
      var i := UnusedFrom(t, 0);
      assert Truncated(name) == name;
      NewInodeOk(t, i, name);
      SlotSumPut(t, i, NewInode(name));
    }
  }

  /** One step of an exact count. */
  lemma {:induction false} ExactStep(s: Fs, op: Op)
    requires Inv(s) && Exact(s) && Admissible(op)
    ensures Exact(Step(s, op)) <==> !Loses(AbsOf(s), op)
  {
    hide Table, FilesOf, TableOk, DecodeSuper, SlotSum, Apply, FindFrom;
    match op
    case Create(name) => ExactCreate(s, name);
    case Write(name, data) => ExactWrite(s, name, data);
    case Read(_, _) => ApplyNothing(s.disk);
    case Delete(name) => ExactDelete(s, name);
    case Reboot => ApplyNothing(s.disk);
  }

  ghost predicate ExactAlong(s: Fs, ops: seq<Op>)
    requires Inv(s) && AllAdmissible(ops)
    decreases |ops|
  {
    Exact(s) && (ops != [] ==> ExactAlong(Step(s, ops[0]), ops[1..]))
  }

  predicate NoLoss(a: AbsFs, ops: seq<Op>)
    decreases |ops|
  {
    ops != [] ==> !Loses(a, ops[0]) && NoLoss(AbsStep(a, ops[0]), ops[1..])
  }

  lemma {:induction false} ExactRun(s: Fs, ops: seq<Op>)
    requires Inv(s) && Exact(s) && AllAdmissible(ops)
    ensures ExactAlong(s, ops) <==> NoLoss(AbsOf(s), ops)
    decreases |ops|
  {
    hide Inv, Exact, Loses, AbsStep, AbsOf, EffectOf, StepRefines;
    if ops != [] {
      ExactStep(s, ops[0]);
      StepIs(s, ops[0]);
      if Exact(Step(s, ops[0])) {
        ExactRun(Step(s, ops[0]), ops[1..]);
      }
    }
  }

  lemma {:induction false} StepIs(s: Fs, op: Op)
    requires Inv(s) && Admissible(op)
    ensures AbsOf(Step(s, op)) == AbsStep(AbsOf(s), op)
  {
    hide Inv, AbsOf, AbsStep, EffectOf, OutputOf, AbsOutput;
    StepCorrect(s, op);
  }

  /** From a formatted disk, counter and slots make up 1024 in every state of a run exactly when no write of the
      run stores something in a file that has slots already or runs out of blocks under way. */
  lemma {:induction false} CountIsExact(d: Disk, ops: seq<Op>)
    requires DecodeSuper(d[0]).magic != FS_MAGIC && AllAdmissible(ops)
    ensures ExactAlong(Formatted(d), ops) <==> NoLoss(AbsFs(map[], 1024, 1024), ops)
  {
    hide Table, FilesOf, TableOk, DecodeSuper, SlotSum, Apply, InitEffect, Step, NoLoss, ExactAlong;
    var s := Formatted(d);
    FormatCorrect(d);
    NoFilesSum(s);
    ExactRun(s, ops);
  }

  lemma {:induction false} NoFilesSum(s: Fs)
    requires FsOk(s) && Files(s.disk) == map[]
    ensures SlotSum(Table(s.disk)) == 0
  {
    var t := Table(s.disk);
    hide SlotSum, Table;
    assert Names(t) == FilesOf(t, s.disk).Keys;
    forall i | 0 <= i < 32 ensures !InUse(t[i]) {
      UsedIsNamed(t, i);
    }
    EmptySum(t);
  }

  lemma {:induction false} UsedIsNamed(t: seq<Inode>, i: nat)
    requires i < |t|
    ensures InUse(t[i]) ==> NameOf(t[i]) in Names(t)
  {
  }

  // ---------- a disk worn out by rewriting ----------

  /** The same write `n` times over. */
  function Rewrites(name: Name, data: Data, n: nat): seq<Op> {
    if n == 0 then [] else [Write(name, data)] + Rewrites(name, data, n - 1)
  }

  lemma {:induction false} RewritesAdmissible(name: Name, data: Data, n: nat)
    requires |data| + 511 < WORD_LIMIT
    ensures AllAdmissible(Rewrites(name, data, n))
  {
    if n > 0 {
      RewritesAdmissible(name, data, n - 1);
    }
  }

  /** Each rewrite of a one-block file takes one from the counter and gives nothing back. */
  lemma {:induction false} RunDown(a: AbsFs, name: Name, data: Data, n: nat)
    requires name in a.files && BlocksNeeded(|data|) == 1 && a.free >= n && a.files[name] == File(Smear(data), 1)
    requires a.free == a.saved
    ensures AbsFinal(a, Rewrites(name, data, n)) == AbsFs(a.files, a.free - n, a.free - n)
    decreases n
  {
    hide Smear;
    if n > 0 {
      var u := AbsStep(a, Write(name, data));
      assert u.files == a.files;
      RunDown(u, name, data, n - 1);
      assert Rewrites(name, data, n)[1..] == Rewrites(name, data, n - 1);
    }
  }

  /** On a fresh disk one file of one block is created and then written `n` times. */
  function Worn(name: Name, data: Data, n: nat): seq<Op>
    requires n > 0
  {
    [Create(name), Write(name, data)] + Rewrites(name, data, n - 1)
  }

  /** The counter is down by `n`, with a single slot in use. */
  lemma {:induction false} WornState(name: Name, data: Data, n: nat)
    requires |name| <= 63 && 0 < |data| <= 512 && 0 < n <= 1024
    ensures AllAdmissible(Worn(name, data, n))
    ensures AbsFinal(AbsFs(map[], 1024, 1024), Worn(name, data, n))
            == AbsFs(map[name := File(Smear(data), 1)], 1024 - n, 1024 - n)
  {
    hide Smear, Rewrites;
    RewritesAdmissible(name, data, n - 1);
    var ops, rest := Worn(name, data, n), Rewrites(name, data, n - 1);
    var a := AbsFs(map[], 1024, 1024);
    var b := AbsStep(a, Create(name));
    var c := AbsStep(b, Write(name, data));
    assert ops[1..][1..] == rest && ops[1..][0] == Write(name, data);
    assert c.files == map[name := File(Smear(data), 1)];
    RunDown(c, name, data, n - 1);
    assert AbsFinal(a, ops) == AbsFinal(b, ops[1..]) == AbsFinal(c, rest);
  }

  /** With one block left on the counter, a write of two blocks fails and leaves 0 in memory; the next reboot
      brings the 1 back. */
  lemma {:induction false} RunsOut(d: Disk, name: Name, data: Data)
    requires DecodeSuper(d[0]).magic != FS_MAGIC && |name| <= 63 && 0 < |data| <= 512
    ensures AllAdmissible(Worn(name, data, 1023))
    ensures
      var s := Final(Formatted(d), Worn(name, data, 1023));
      var e := WriteEffect(s, name, TwoBlocks);
      && s.sb.free_blocks == 1 && e.ret == -1 && e.sb.free_blocks == 0
      && Step(Step(s, Write(name, TwoBlocks)), Reboot).sb.free_blocks == 1
  {
    hide Table, FilesOf, TableOk, FindFrom, SlotSum, Apply, FreeBlockFrom, DecodeSuper, InitEffect, Worn, Smear,
         WriteOn;
    var s0, ops := Formatted(d), Worn(name, data, 1023);
    WornState(name, data, 1023);
    RunRefines(s0, ops);
    var s := Final(s0, ops);
    StepCorrect(s, Write(name, TwoBlocks));
    StepIs(s, Write(name, TwoBlocks));
    StepIs(Step(s, Write(name, TwoBlocks)), Reboot);
  }
}
