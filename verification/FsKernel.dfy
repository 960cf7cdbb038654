/** kernel/fs.c: the file system as the kernel runs it, updating the disk and the superblock in place. */
module FsKernel {
  import opened Bytes
  import opened FsLayout
  import opened FsSpec
  import opened FsFrame
  import opened FsCrash

  // ---------- string helpers ----------

  /** A `char` of the target is signed. */
  function SignedChar(b: byte): int { if b < 128 then b else b - 256 }

  /** `fs_strcmp` on two terminated buffers: zero exactly for equal C strings, otherwise the difference
      at the first place where they differ. */
  method Strcmp(a: seq<byte>, b: seq<byte>) returns (r: int)
    requires 0 in a && 0 in b
    ensures r == 0 <==> CStr(a) == CStr(b)
    ensures exists k :: 0 <= k < |a| && k < |b| && a[..k] == b[..k] && 0 !in a[..k]
                        && (r != 0 || a[k] == 0) && r == SignedChar(a[k]) - SignedChar(b[k])
  {
    var i := 0;
    while a[i] != 0 && b[i] != 0 && a[i] == b[i]
      invariant 0 <= i < |a| && i < |b|
      invariant a[..i] == b[..i] && 0 !in a[..i]
      invariant 0 in a[i..] && 0 in b[i..]
      decreases |a| - i
    {
      assert a[i..] == [a[i]] + a[i + 1..] && b[i..] == [b[i]] + b[i + 1..];
      i := i + 1;
    }
    r := SignedChar(a[i]) - SignedChar(b[i]);
    if a[i] == b[i] {
      CStrIs(a, a[..i]);
      CStrIs(b, a[..i]);
    } else {
      DifferentStrings(a, b, i);
    }
  }

  lemma {:induction false} CStrPrefix(s: seq<byte>, n: nat)
    requires n <= |s| && 0 !in s[..n]
    ensures s[..n] <= CStr(s)
  {
    if n > 0 {
      assert s[0] in s[..n];
      assert forall k :: 0 <= k < n - 1 ==> s[1..][k] in s[..n];
      CStrPrefix(s[1..], n - 1);
      assert s[..n] == [s[0]] + s[1..][..n - 1];
    }
  }

  lemma {:induction false} DifferentStrings(a: seq<byte>, b: seq<byte>, i: nat)
    requires i < |a| && i < |b| && a[..i] == b[..i] && 0 !in a[..i] && a[i] != b[i]
    ensures CStr(a) != CStr(b)
  {
    if a[i] == 0 {
      CStrIs(a, a[..i]);
      CStrPrefix(b, i + 1);
    } else if b[i] == 0 {
      CStrIs(b, b[..i]);
      CStrPrefix(a, i + 1);
    } else {
      CStrPrefix(a, i + 1);
      CStrPrefix(b, i + 1);
      assert CStr(a)[i] == a[..i + 1][i] && CStr(b)[i] == b[..i + 1][i];
    }
  }

  /** `fs_strcpy` into a buffer: at most `max - 1` characters, then a terminator. */
  method Strcpy(dst: array<byte>, src: Name, max: nat)
    requires 0 < max <= dst.Length
    modifies dst
    ensures var n := if |src| < max - 1 then |src| else max - 1;
            dst[..] == src[..n] + [0] + old(dst[..])[n + 1..]
  {
    var i := 0;
    while i < max - 1 && i < |src|
      invariant 0 <= i <= max - 1 && i <= |src|
      invariant forall k :: 0 <= k < i ==> dst[k] == src[k]
      invariant forall k :: i <= k < dst.Length ==> dst[k] == old(dst[k])
    {
      dst[i] := src[i];
      i := i + 1;
    }
    dst[i] := 0;
  }

  class AshFs {
    var disk: Disk
    var superblock: Superblock
    ghost var log: seq<SectorWrite>

    constructor (d: Disk)
      ensures disk == d && log == []
    {
      disk := d;
      superblock := Superblock(0, 0, 0, 0, 0, 0);
      log := [];
    }

    ghost function State(): Fs
      reads this
    {
      Fs(disk, superblock)
    }

    /** The disk is now where the effect's writes lead, and the superblock is the effect's. */
    twostate predicate Did(e: Effect)
      reads this
    {
      && InDisk(old(disk), e.log)
      && disk == Apply(old(disk), e.log)
      && superblock == e.sb
      && log == old(log) + e.log
    }

    // ---------- sectors ----------

    method AtaRead(lba: nat) returns (buf: Sector)
      requires lba < |disk|
      ensures buf == disk[lba]
    {
      buf := disk[lba];
    }

    method AtaWrite(lba: nat, buf: Sector)
      requires lba < |disk|
      modifies this
      ensures disk == old(disk)[lba := buf] && log == old(log) + [SectorWrite(lba, buf)]
      ensures superblock == old(superblock)
    {
      disk := disk[lba := buf];
      log := log + [SectorWrite(lba, buf)];
    }

    // ---------- inode helpers ----------

    method InodeRead(index: nat) returns (x: Inode)
      requires index < 32
      ensures x == Table(disk)[index]
    {
      var sector := 1 + index / 2;
      var offset := index % 2;
      var buf := AtaRead(sector);
      x := DecodeInode(buf[offset * 200..offset * 200 + 200]);
    }

    method InodeWrite(index: nat, x: Inode)
      requires index < 32
      modifies this
      ensures disk == old(disk)[1 + index / 2 := InodeSector(old(disk), index, x)]
      ensures Table(disk) == Table(old(disk))[index := x]
      ensures superblock == old(superblock)
      ensures log == old(log) + [SectorWrite(1 + index / 2, InodeSector(old(disk), index, x))]
    {
      var sector := 1 + index / 2;
      var offset := index % 2;
      var buf := AtaRead(sector);
      buf := Splice(buf, offset * 200, EncodeInode(x));
      TableAfterInodeWrite(disk, index, x);
      AtaWrite(sector, buf);
    }

    method InodeFind(name: Name) returns (r: int)
      requires TableOk(Table(disk))
      ensures r == Find(Table(disk), name)
    {
      hide Table;
      var i := 0;
      CStrIs(name + [0], name);
      while i < 32
        invariant 0 <= i <= 32
        invariant Find(Table(disk), name) == FindFrom(Table(disk), name, i)
      {
        var x := InodeRead(i);
        if x.used != 0 {
          assert InUse(Table(disk)[i]);
          var c := Strcmp(x.name, name + [0]);
          if c == 0 {
            return i;
          }
        }
        i := i + 1;
      }
      return -1;
    }

    method InodeAlloc() returns (r: int)
      ensures r == UnusedFrom(Table(disk), 0)
    {
      hide Table;
      var i := 0;
      while i < 32
        invariant 0 <= i <= 32
        invariant UnusedFrom(Table(disk), 0) == UnusedFrom(Table(disk), i)
      {
        var x := InodeRead(i);
        if x.used == 0 {
          return i;
        }
        i := i + 1;
      }
      return -1;
    }

    /** The scan of `block_alloc`: the first data block no inode on disk refers to. */
    method BlockAlloc() returns (block: u32)
      requires TableOk(Table(disk)) && superblock.total_blocks == 1024
      modifies this`superblock
      ensures block == if old(superblock).free_blocks == 0 then 0 else FreeBlock(Table(disk), 1024)
      ensures superblock == if block == 0 then old(superblock)
                            else old(superblock).(free_blocks := old(superblock).free_blocks - 1)
    {
      hide Table, FreeBlockFrom, Slots, CStr;
      if superblock.free_blocks == 0 {
        return 0;
      }
      ghost var t := Table(disk);
      var used := new byte[1024](_ => 0);
      var i := 0;
      while i < 32
        invariant 0 <= i <= 32
        invariant Marks(used[..], t, i, [])
        invariant disk == old(disk) && superblock == old(superblock)
      {
        var x := InodeRead(i);
        if x.used != 0 {
          assert InUse(t[i]);
          MarkInode(used, x, t, i);
        }
        ReferencedPush(t, i);
        i := i + 1;
      }
      assert t[..32] == t;
      i := 0;
      while i < superblock.total_blocks
        invariant 0 <= i <= 1024
        invariant superblock == old(superblock)
        invariant forall c :: 33 <= c < 33 + i ==> Referenced(t, c)
      {
        if used[i] == 0 {
          superblock := superblock.(free_blocks := superblock.free_blocks - 1);
          return 33 + i;
        }
        i := i + 1;
      }
      return 0;
    }

    /** The inner marking loop for one used inode. */
    method MarkInode(used: array<byte>, x: Inode, ghost t: seq<Inode>, ghost i: nat)
      requires used.Length == 1024 && i < |t| && t[i] == x && InodeOk(x)
      requires Marks(used[..], t, i, [])
      modifies used
      ensures Marks(used[..], t, i, x.blocks)
    {
      hide Referenced, Slots;
      var j := 0;
      while j < 32
        invariant 0 <= j <= 32
        invariant Marks(used[..], t, i, x.blocks[..j])
      {
        assert x.blocks[..j + 1] == x.blocks[..j] + [x.blocks[j]];
        if x.blocks[j] != 0 {
          used[x.blocks[j] - 33] := 1;
        }
        j := j + 1;
      }
      assert x.blocks[..32] == x.blocks;
    }

    // ---------- public operations ----------

    lemma {:induction false} FormatStep(d: Disk, w: seq<SectorWrite>, i: nat)
      requires InDisk(d, w + ZeroTable(i)) && i < 32
      ensures w + ZeroTable(i + 1) == w + ZeroTable(i) + [SectorWrite(1 + i, ZeroSector)]
      ensures InDisk(d, w + ZeroTable(i + 1))
      ensures Apply(d, w + ZeroTable(i + 1)) == Apply(d, w + ZeroTable(i))[1 + i := ZeroSector]
    {
      assert w + ZeroTable(i + 1) == w + ZeroTable(i) + [SectorWrite(1 + i, ZeroSector)];
      ApplyPush(d, w + ZeroTable(i), SectorWrite(1 + i, ZeroSector));
    }

    lemma {:induction false} FormatStart(d: Disk, w: SectorWrite)
      requires w.lba < |d|
      ensures [w] + ZeroTable(0) == [w] && InDisk(d, [w]) && Apply(d, [w]) == d[w.lba := w.data]
      ensures Apply(d, []) == d
    {
      ApplyPush(d, [], w);
      assert [] + [w] == [w];
    }

    method Init()
      modifies this
      ensures Did(InitEffect(old(disk)))
    {
      hide SuperSector, DecodeSuper, Apply, ZeroTable;
      FormatStart(disk, SectorWrite(0, disk[0]));
      var buf := AtaRead(0);
      superblock := DecodeSuper(buf);
      if superblock.magic != FS_MAGIC {
        superblock := Superblock(FS_MAGIC, 1, 1024, 1, 33, 1024);
        ghost var d, l := disk, log;
        AtaWrite(0, SuperSector(superblock));
        ghost var w := [SectorWrite(0, SuperSector(superblock))];
        var i := 0;
        FormatStart(d, w[0]);
        while i < 32
          invariant 0 <= i <= 32
          invariant InDisk(d, w + ZeroTable(i)) && disk == Apply(d, w + ZeroTable(i)) && log == l + (w + ZeroTable(i))
          invariant superblock == FreshSuper
        {
          FormatStep(d, w, i);
          AtaWrite(1 + i, ZeroSector);
          i := i + 1;
        }
      }
    }

    /** The inode `fs_create` fills in: zeroed, named and marked as used. */
    method FreshInode(name: Name) returns (x: Inode)
      ensures x == NewInode(name)
    {
      var nameField := new byte[64](_ => 0);
      Strcpy(nameField, name, 64);
      assert nameField[..] == StoredName(name);
      x := InodeRecord(nameField[..], 0, seq(32, _ => 0), 1, [0, 0, 0]);
    }

    method Create(name: Name) returns (r: int)
      requires FsOk(State())
      modifies this
      ensures r == CreateEffect(old(State()), name).ret
      ensures Did(CreateEffect(old(State()), name))
      ensures |name| <= 63 ==>
        && FsOk(State())
        && Files(disk) == if r == 0 then Files(old(disk))[name := File([], 0)] else Files(old(disk))
    {
      hide Table, FindFrom, TableOk, InodeSector, NewInode, FilesOf, DecodeSuper;
      ghost var s := State();
      if |name| <= 63 {
        CreateAtomic(s, name);
      }
      var index := InodeFind(name);
      if index >= 0 {
        return -1;
      }
      index := InodeAlloc();
      if index < 0 {
        return -1;
      }
      var x := FreshInode(name);
      ghost var w := SectorWrite(1 + index / 2, InodeSector(disk, index, x));
      ApplyPush(disk, [], w);
      assert [] + [w] == [w];
      InodeWrite(index, x);
      r := 0;
    }

    /** The end of a write or a delete: the inode sector, then the superblock sector. The disk has come
        from `d` by the writes `c`, which did not touch that inode sector. */
    method Close(index: nat, x: Inode, ghost d: Disk, ghost c: seq<SectorWrite>)
      requires index < 32 && InDisk(d, c) && disk == Apply(d, c) && disk[1 + index / 2] == d[1 + index / 2]
      modifies this
      ensures InDisk(d, c + Closing(d, index, x, superblock))
      ensures disk == Apply(d, c + Closing(d, index, x, superblock))
      ensures superblock == old(superblock)
      ensures log == old(log) + Closing(d, index, x, superblock)
    {
      hide Table, SuperSector, EncodeInode, Apply;
      ghost var w := Closing(d, index, x, superblock);
      assert InodeSector(d, index, x) == InodeSector(disk, index, x);
      ApplyPush(d, c, w[0]);
      ApplyPush(d, c + [w[0]], w[1]);
      assert c + [w[0]] + [w[1]] == c + w;
      InodeWrite(index, x);
      AtaWrite(0, SuperSector(superblock));
    }

    method Read(name: Name, buf: array<byte>, size: nat) returns (r: int)
      requires FsOk(State()) && size <= buf.Length
      modifies buf
      ensures r == ReadOutcome(State(), name, size).ret
      ensures var got := ReadOutcome(State(), name, size).bytes;
              buf[..] == got + old(buf[..])[|got|..]
    {
      hide Table, FindFrom, Slots, CStr;
      var index := InodeFind(name);
      if index < 0 {
        return -1;
      }
      var x := InodeRead(index);
      assert InUse(Table(disk)[index]);
      var toRead := if size < x.size then size else x.size;
      var read := 0;
      var i := 0;
      while i < 32 && read < toRead
        invariant 0 <= i <= 32
        invariant read == if 512 * i < toRead then 512 * i else toRead
        invariant forall p :: 0 <= p < read ==> buf[p] == Contents(disk, x)[p]
        invariant forall p :: read <= p < buf.Length ==> buf[p] == old(buf[p])
      {
        if x.blocks[i] == 0 {
          break;
        }
        var data := AtaRead(x.blocks[i]);
        var chunk := if toRead - read > 512 then 512 else toRead - read;
        CopyIn(buf, read, data, chunk);
        assert forall p :: read <= p < read + chunk ==> p / 512 == i && p % 512 == p - read;
        read := read + chunk;
        i := i + 1;
      }
      r := read;
    }

    /** `fs_memcpy` of the first `n` bytes of a sector to offset `o` of a buffer. */
    method CopyIn(buf: array<byte>, o: nat, data: Sector, n: nat)
      requires n <= 512 && o + n <= buf.Length
      modifies buf
      ensures forall p :: 0 <= p < buf.Length ==>
        buf[p] == if o <= p < o + n then data[p - o] else old(buf[p])
    {
      var i := 0;
      while i < n
        invariant 0 <= i <= n
        invariant forall p :: 0 <= p < buf.Length ==>
          buf[p] == if o <= p < o + i then data[p - o] else old(buf[p])
      {
        buf[o + i] := data[i];
        i := i + 1;
      }
    }

    lemma {:induction false} WrapStep(n: nat)
      ensures (n % WORD_LIMIT + 1) % WORD_LIMIT == (n + 1) % WORD_LIMIT
    {
    }

    lemma {:induction false} ZeroSlotsYet()
      ensures Slots([]) == 0
    {
    }

    lemma {:induction false} SlotsPush(bs: seq<u32>, i: nat)
      requires i < |bs|
      ensures Slots(bs[..i + 1]) == Slots(bs[..i]) + if bs[i] != 0 then 1 else 0
    {
      assert bs[..i + 1][..i] == bs[..i];
    }

    /** The delete loop: every non-zero slot is given back to the counter and cleared. */
    method ReleaseBlocks(x: Inode) returns (bs: seq<u32>)
      modifies this`superblock
      ensures bs == seq(32, _ => 0)
      ensures superblock == old(superblock).(free_blocks :=
                              (old(superblock).free_blocks + Slots(x.blocks)) % WORD_LIMIT)
    {
      hide Slots;
      ZeroSlotsYet();
      bs := x.blocks;
      var i := 0;
      assert x.blocks[..0] == [];
      while i < 32
        invariant 0 <= i <= 32 && |bs| == 32
        invariant forall j :: 0 <= j < i ==> bs[j] == 0
        invariant forall j :: i <= j < 32 ==> bs[j] == x.blocks[j]
        invariant superblock == old(superblock).(free_blocks :=
                                  (old(superblock).free_blocks + Slots(x.blocks[..i])) % WORD_LIMIT)
      {
        SlotsPush(x.blocks, i);
        if bs[i] != 0 {
          WrapStep(old(superblock).free_blocks + Slots(x.blocks[..i]));
          superblock := superblock.(free_blocks := (superblock.free_blocks + 1) % WORD_LIMIT);
          bs := bs[i := 0];
        }
        i := i + 1;
      }
      assert x.blocks[..32] == x.blocks;
    }

    /** All sector writes of a delete, and of a write, have been made. */
    lemma {:induction false} DeleteAll(s: Fs, name: Name)
      requires FsOk(s)
      ensures
        var e := DeleteEffect(s, name);
        && InDisk(s.disk, e.log) && FsOk(Fs(Apply(s.disk, e.log), e.sb))
        && Files(Apply(s.disk, e.log)) == if e.ret == 0 then Files(s.disk) - {name} else Files(s.disk)
    {
      hide Table, FindFrom, TableOk, InodeSector, SuperSector, DecodeSuper, FilesOf, Slots;
      var e := DeleteEffect(s, name);
      DeleteCrashAtomic(s, name, |e.log|);
      assert e.log[..|e.log|] == e.log;
    }

    lemma {:induction false} WriteAll(s: Fs, name: Name, data: Data)
      requires FsOk(s) && |data| + 511 < WORD_LIMIT
      ensures
        var e := WriteEffect(s, name, data);
        && InDisk(s.disk, e.log) && FsOk(Fs(Apply(s.disk, e.log), e.sb))
        && Files(Apply(s.disk, e.log)) == if e.ret == 0 then FileWrite(Files(s.disk), name, data) else Files(s.disk)
    {
      hide Table, TableOk, DecodeSuper, FilesOf, FileWrite, WriteOn;
      var e := WriteEffect(s, name, data);
      WriteCrashAtomic(s, name, data, |e.log|);
      WriteLogShape(Table(s.disk), s, name, data);
      assert e.log[..|e.log|] == e.log;
    }

    method Delete(name: Name) returns (r: int)
      requires FsOk(State())
      modifies this
      ensures r == DeleteEffect(old(State()), name).ret
      ensures Did(DeleteEffect(old(State()), name))
      ensures FsOk(State()) && Files(disk) == if r == 0 then Files(old(disk)) - {name} else Files(old(disk))
    {
      hide Table, FindFrom, TableOk, InodeSector, SuperSector, Slots, Closing, DecodeSuper, FilesOf;
      ghost var s := State();
      DeleteAll(s, name);
      var index := InodeFind(name);
      if index < 0 {
        return -1;
      }
      var x := InodeRead(index);
      var zeros := ReleaseBlocks(x);
      ghost var d := disk;
      Close(index, x.(blocks := zeros, used := 0), d, []);
      assert [] + Closing(d, index, Erased(x), superblock) == Closing(d, index, Erased(x), superblock);
      r := 0;
    }

    /** One padded chunk, as `fs_write` assembles it. */
    method PadChunk(data: Data, written: nat, ghost i: nat) returns (buf: Sector, n: nat)
      requires written == 512 * i <= |data|
      ensures buf == Chunk(data, i)
      ensures n == if |data| - written > 512 then 512 else |data| - written
    {
      n := |data| - written;
      if n > 512 {
        n := 512;
      }
      buf := data[written..written + n] + seq(512 - n, _ => 0);
    }

    /** The write loop. Each pass asks `block_alloc` for a block and gets the same one, because the inode
        under construction is not on disk; all chunks land in that block and all slots name it. */
    method WriteChunks(x: Inode, data: Data, needed: nat) returns (ok: bool, y: Inode)
      requires FsOk(State()) && needed <= 32 && (needed > 0 ==> 512 * (needed - 1) < |data|)
      modifies this
      ensures
        var b, free := FreeBlock(Table(old(disk)), 1024), old(superblock).free_blocks;
        var n := if b == 0 then 0 else if needed < free then needed else free;
        && InDisk(old(disk), ChunksTo(b, data, n)) && disk == Apply(old(disk), ChunksTo(b, data, n))
        && log == old(log) + ChunksTo(b, data, n)
        && superblock == old(superblock).(free_blocks := free - n)
        && ok == (needed == 0 || n == needed)
        && (ok ==> y.(size := |data|) == Rewritten(x, needed, b, |data|))
        && (forall l :: 0 <= l < 33 ==> disk[l] == old(disk)[l])
    {
      hide Table, TableOk, Slots, FreeBlockFrom, Chunk, Apply, DecodeSuper;
      y := x;
      ghost var d, b, free := disk, FreeBlock(Table(disk), 1024), superblock.free_blocks;
      var written := 0;
      var i := 0;
      ChunkStart(d, b, data);
      while i < needed
        invariant 0 <= i <= needed && i <= free
        invariant i < needed ==> written == 512 * i
        invariant i > 0 ==> b != 0
        invariant InDisk(d, ChunksTo(b, data, i)) && disk == Apply(d, ChunksTo(b, data, i))
        invariant log == old(log) + ChunksTo(b, data, i)
        invariant Table(disk) == Table(d)
        invariant forall l :: 0 <= l < 33 ==> disk[l] == d[l]
        invariant superblock == old(superblock).(free_blocks := free - i)
        invariant y == x.(blocks := y.blocks)
        invariant forall j :: 0 <= j < 32 ==> y.blocks[j] == if j < i then b else x.blocks[j]
      {
        var block := BlockAlloc();
        if block == 0 {
          return false, y;
        }
        y := y.(blocks := y.blocks[i := block]);
        var buf, n := PadChunk(data, written, i);
        ChunkStep(d, b, data, i);
        AtaWrite(block, buf);
        written := written + n;
        i := i + 1;
      }
      ok := true;
    }

    lemma {:induction false} ChunkStart(d: Disk, b: nat, data: Data)
      ensures ChunksTo(b, data, 0) == [] && Apply(d, ChunksTo(b, data, 0)) == d
    {
      assert ChunksTo(b, data, 0) == [];
    }

    method Write(name: Name, data: Data) returns (r: int)
      requires FsOk(State())
      modifies this
      ensures r == WriteEffect(old(State()), name, data).ret
      ensures Did(WriteEffect(old(State()), name, data))
      ensures |data| + 511 < WORD_LIMIT ==>
        && FsOk(State())
        && Files(disk) == if r == 0 then FileWrite(Files(old(disk)), name, data) else Files(old(disk))
    {
      hide Table, FindFrom, TableOk, SuperSector, Slots, FreeBlockFrom, Chunk, Rewritten, InodeSector, Apply, Closing,
           DecodeSuper, FilesOf, FileWrite;
      if |data| + 511 < WORD_LIMIT {
        WriteAll(State(), name, data);
      }
      ChunkStart(disk, FreeBlock(Table(disk), 1024), data);
      var index := InodeFind(name);
      if index < 0 {
        return -1;
      }
      var x := InodeRead(index);
      var needed := (|data| + 511) % WORD_LIMIT / 512;
      if needed > 32 {
        return -1;
      }
      ghost var d, b := disk, FreeBlock(Table(disk), 1024);
      var ok, y := WriteChunks(x, data, needed);
      if !ok {
        return -1;
      }
      y := y.(size := |data|);
      Close(index, y, d, ChunksTo(b, data, needed));
      r := 0;
    }

    /** One more chunk in the unreferenced block leaves the table as it was. */
    lemma {:induction false} ChunkStep(d: Disk, b: nat, data: Data, i: nat)
      requires 33 <= b < |d|
      ensures InDisk(d, ChunksTo(b, data, i)) && InDisk(d, ChunksTo(b, data, i + 1))
      ensures ChunksTo(b, data, i + 1) == ChunksTo(b, data, i) + [SectorWrite(b, Chunk(data, i))]
      ensures Apply(d, ChunksTo(b, data, i + 1)) == Apply(d, ChunksTo(b, data, i))[b := Chunk(data, i)]
      ensures Table(Apply(d, ChunksTo(b, data, i + 1))) == Table(Apply(d, ChunksTo(b, data, i)))
      ensures forall l :: 0 <= l < 33 ==> Apply(d, ChunksTo(b, data, i + 1))[l] == d[l]
    {
      hide Table, Chunk;
      ApplyChunksTo(d, b, data, i);
      ApplyChunksTo(d, b, data, i + 1);
      var e := Apply(d, ChunksTo(b, data, i));
      TableAfterOtherWrite(e, b, Chunk(data, i));
      assert ChunksTo(b, data, i + 1) == ChunksTo(b, data, i) + [SectorWrite(b, Chunk(data, i))];
      ApplyPush(d, ChunksTo(b, data, i), SectorWrite(b, Chunk(data, i)));
    }
  }
}
