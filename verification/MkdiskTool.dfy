/** tools/mkdisk.c: the tool as it runs, loop by loop, over a disk image updated in place. */
module MkdiskTool {
  import opened Bytes
  import opened FsLayout
  import opened FsSpec
  import opened FsFrame
  import opened FsCrash
  import opened Mkdisk

  class DiskImage {
    var sectors: Disk
    ghost var log: seq<SectorWrite>

    constructor (d: Disk)
      ensures sectors == d && log == []
    {
      sectors := d;
      log := [];
    }

    method ReadSector(lba: nat) returns (buf: Sector)
      requires lba < |sectors|
      ensures buf == sectors[lba]
    {
      buf := sectors[lba];
    }

    method WriteSector(lba: nat, buf: Sector)
      requires lba < |sectors|
      modifies this
      ensures sectors == old(sectors)[lba := buf] && log == old(log) + [SectorWrite(lba, buf)]
    {
      sectors := sectors[lba := buf];
      log := log + [SectorWrite(lba, buf)];
    }

    method ReadInode(i: nat) returns (x: Inode)
      requires i < 32
      ensures x == Table(sectors)[i]
    {
      var buf := ReadSector(1 + i / 2);
      var offset := i % 2;
      x := DecodeInode(buf[offset * 200..offset * 200 + 200]);
    }

    /** The search for a free inode. */
    method FreeInode() returns (index: int)
      ensures index == UnusedFrom(Table(sectors), 0)
    {
      hide Table;
      index := -1;
      var i := 0;
      while i < 32
        invariant 0 <= i <= 32 && index == -1
        invariant UnusedFrom(Table(sectors), 0) == UnusedFrom(Table(sectors), i)
      {
        var x := ReadInode(i);
        if x.used == 0 {
          index := i;
          break;
        }
        i := i + 1;
      }
    }

    /** The marking pass over the whole table. */
    method MarkUsed() returns (used: array<byte>)
      requires TableOk(Table(sectors))
      ensures fresh(used) && used.Length == 1024
      ensures Marks(used[..], Table(sectors), 32, [])
    {
      hide Table, Slots, CStr;
      ghost var t := Table(sectors);
      used := new byte[1024](_ => 0);
      var i := 0;
      while i < 32
        invariant 0 <= i <= 32
        invariant Marks(used[..], t, i, [])
      {
        var x := ReadInode(i);
        if x.used != 0 {
          assert InUse(t[i]);
          var j := 0;
          while j < 32
            invariant 0 <= j <= 32
            invariant Marks(used[..], t, i, x.blocks[..j])
          {
            assert x.blocks[..j + 1] == x.blocks[..j] + [x.blocks[j]];
            if x.blocks[j] != 0 {
              used[x.blocks[j] - 33] := 1;
            }
            j := j + 1;
          }
          assert x.blocks[..32] == x.blocks;
        }
        ReferencedPush(t, i);
        i := i + 1;
      }
    }

    /** The search for the next unmarked block, which it marks. */
    method TakeBlock(used: array<byte>, total: nat, ghost t: seq<Inode>, ghost i: nat) returns (block: u32)
      requires used.Length == 1024 && total == 1024 && |t| == 32 && i <= |FreeBlocks(t)|
      requires Marks(used[..], t, 32, FreeBlocks(t)[..i])
      modifies used
      ensures block == if i < |FreeBlocks(t)| then FreeBlocks(t)[i] else 0
      ensures block != 0 ==> Marks(used[..], t, 32, FreeBlocks(t)[..i + 1])
    {
      hide FreeBlocksFrom, Referenced;
      assert t[..32] == t;
      ghost var fb := FreeBlocks(t);
      block := 0;
      var b := 0;
      while b < total
        invariant 0 <= b <= 1024 && block == 0
        invariant Marks(used[..], t, 32, fb[..i])
        invariant forall c :: 33 <= c < 33 + b ==> Referenced(t, c) || c in fb[..i]
      {
        if used[b] == 0 {
          block := 33 + b;
          NextFree(t, i, b);
          assert fb[..i + 1] == fb[..i] + [fb[i]];
          used[b] := 1;
          return;
        }
        b := b + 1;
      }
      if i < |fb| {
        StillFree(t, i);
      }
    }

    /** The next free block is unreferenced and not taken yet. */
    lemma {:induction false} StillFree(t: seq<Inode>, i: nat)
      requires i < |FreeBlocks(t)|
      ensures !Referenced(t, FreeBlocks(t)[i]) && FreeBlocks(t)[i] !in FreeBlocks(t)[..i]
      ensures 33 <= FreeBlocks(t)[i] < 1057
    {
      hide FreeBlocksFrom, Referenced;
      var fb := FreeBlocks(t);
      assert forall j :: 0 <= j < i ==> fb[..i][j] == fb[j] < fb[i];
    }

    lemma {:induction false} NextFree(t: seq<Inode>, i: nat, b: nat)
      requires i <= |FreeBlocks(t)| && b < 1024
      requires !Referenced(t, 33 + b) && 33 + b !in FreeBlocks(t)[..i]
      requires forall c :: 33 <= c < 33 + b ==> Referenced(t, c) || c in FreeBlocks(t)[..i]
      ensures i < |FreeBlocks(t)| && FreeBlocks(t)[i] == 33 + b
    {
      hide FreeBlocksFrom, Referenced;
      var fb := FreeBlocks(t);
      var m :| 0 <= m < |fb| && fb[m] == 33 + b;
      assert forall j :: 0 <= j < i ==> fb[..i][j] == fb[j];
      StillFree(t, i);
      assert fb[i] <= fb[m];
    }

    /** The allocation loop: chunk `i` goes to the `i`-th unreferenced block. */
    method CopyChunks(used: array<byte>, total: nat, free: u32, data: Data, needed: nat)
      returns (ok: bool, blocks: seq<u32>, left: u32)
      requires DiskOk(sectors) && used.Length == 1024 && total == 1024
      requires Marks(used[..], Table(sectors), 32, [])
      requires needed <= 32 && (needed > 0 ==> 512 * (needed - 1) < |data|)
      modifies this, used
      ensures
        var fb := FreeBlocks(Table(old(sectors)));
        var n := if needed < |fb| then needed else |fb|;
        && InDisk(old(sectors), Spread(fb, data, n)) && sectors == Apply(old(sectors), Spread(fb, data, n))
        && log == old(log) + Spread(fb, data, n)
        && ok == (n == needed)
        && (ok ==> blocks == fb[..needed] && left == (free - needed) % WORD_LIMIT)
    {
      hide Table, FreeBlocksFrom, Referenced, Chunk, Apply, DecodeSuper, TableOk;
      ghost var d, t := sectors, Table(sectors);
      ghost var fb := FreeBlocks(t);
      blocks := [];
      left := free;
      SpreadStart(d, fb, data);
      assert fb[..0] == [];
      var written := 0;
      var i := 0;
      while i < needed
        invariant 0 <= i <= needed && i <= |fb|
        invariant i < needed ==> written == 512 * i
        invariant InDisk(d, Spread(fb, data, i)) && sectors == Apply(d, Spread(fb, data, i))
        invariant log == old(log) + Spread(fb, data, i)
        invariant Marks(used[..], t, 32, fb[..i])
        invariant blocks == fb[..i] && left == (free - i) % WORD_LIMIT
      {
        var block := TakeBlock(used, total, t, i);
        if block == 0 {
          ok := false;
          return;
        }
        left := (left - 1) % WORD_LIMIT;
        WrapDown(free - i);
        assert fb[..i + 1] == fb[..i] + [fb[i]];
        blocks := blocks + [block];
        var n := if |data| - written > 512 then 512 else |data| - written;
        var buf := PadTo512(data[written..written + n]);
        ChunkIs(data, written, n, i);
        SpreadStep(d, fb, data, i);
        WriteSector(block, buf);
        written := written + n;
        i := i + 1;
      }
      ok := true;
    }

    /** `memset` of the sector buffer followed by `memcpy` of the chunk. */
    method PadTo512(chunk: seq<byte>) returns (buf: Sector)
      requires |chunk| <= 512
      ensures buf == chunk + seq(512 - |chunk|, _ => 0)
    {
      buf := chunk + seq(512 - |chunk|, _ => 0);
    }

    lemma {:induction false} ChunkIs(data: Data, written: nat, n: nat, i: nat)
      requires written == 512 * i && written + n <= |data| && n <= 512 && (n < 512 ==> written + n == |data|)
      ensures data[written..written + n] + seq(512 - n, _ => 0) == Chunk(data, i)
    {
    }

    lemma {:induction false} WrapDown(n: int)
      ensures (n % WORD_LIMIT - 1) % WORD_LIMIT == (n - 1) % WORD_LIMIT
    {
    }

    lemma {:induction false} SpreadStart(d: Disk, fb: seq<u32>, data: Data)
      ensures Spread(fb, data, 0) == [] && Apply(d, Spread(fb, data, 0)) == d
    {
      assert Spread(fb, data, 0) == [];
    }

    lemma {:induction false} SpreadStep(d: Disk, fb: seq<u32>, data: Data, i: nat)
      requires i < |fb| && InDisk(d, Spread(fb, data, i)) && fb[i] < |d|
      ensures Spread(fb, data, i + 1) == Spread(fb, data, i) + [SectorWrite(fb[i], Chunk(data, i))]
      ensures InDisk(d, Spread(fb, data, i + 1))
      ensures Apply(d, Spread(fb, data, i + 1)) == Apply(d, Spread(fb, data, i))[fb[i] := Chunk(data, i)]
    {
      hide Chunk;
      assert Spread(fb, data, i + 1) == Spread(fb, data, i) + [SectorWrite(fb[i], Chunk(data, i))];
      ApplyPush(d, Spread(fb, data, i), SectorWrite(fb[i], Chunk(data, i)));
    }

    /** The closing writes. */
    method Finish(index: nat, x: Inode, sb: Superblock, ghost d: Disk, ghost c: seq<SectorWrite>)
      requires index < 32 && InDisk(d, c) && sectors == Apply(d, c) && sectors[1 + index / 2] == d[1 + index / 2]
      modifies this
      ensures InDisk(d, c + Closing(d, index, x, sb)) && sectors == Apply(d, c + Closing(d, index, x, sb))
      ensures log == old(log) + Closing(d, index, x, sb)
    {
      hide SuperSector, EncodeInode, Apply;
      ghost var w := Closing(d, index, x, sb);
      assert InodeSector(d, index, x) == InodeSector(sectors, index, x);
      ApplyPush(d, c, w[0]);
      ApplyPush(d, c + [w[0]], w[1]);
      assert c + [w[0]] + [w[1]] == c + w;
      var buf := ReadSector(1 + index / 2);
      buf := Splice(buf, index % 2 * 200, EncodeInode(x));
      WriteSector(1 + index / 2, buf);
      WriteSector(0, SuperSector(sb));
    }

    /** `main` once the image is open and the source file has been read into `data`. */
    method CopyFile(name: Name, data: Data) returns (ret: int)
      requires DecodeSuper(sectors[0]).magic == FS_MAGIC ==> DiskOk(sectors)
      modifies this
      ensures ret == MakeEffect(old(sectors), name, data).ret
      ensures
        var e := MakeEffect(old(sectors), name, data);
        && InDisk(old(sectors), e.log) && sectors == Apply(old(sectors), e.log) && log == old(log) + e.log
    {
      hide Table, FreeBlocksFrom, Chunk, Apply, DecodeSuper, TableOk, SuperSector, Closing;
      ghost var d, fb := sectors, FreeBlocks(Table(sectors));
      SpreadStart(d, fb, data);
      var buf := ReadSector(0);
      var sb := DecodeSuper(buf);
      if sb.magic != FS_MAGIC {
        return 1;
      }
      var needed := (|data| + 511) % WORD_LIMIT / 512;
      if needed > 32 {
        return 1;
      }
      var index := FreeInode();
      if index < 0 {
        return 1;
      }
      var used := MarkUsed();
      var ok, blocks, left := CopyChunks(used, sb.total_blocks, sb.free_blocks, data, needed);
      if !ok {
        return 1;
      }
      ApplySpread(d, fb, data, needed);
      var x := MadeInode(name, data, blocks);
      Finish(index, x, sb.(free_blocks := left), d, Spread(fb, data, needed));
      ret := 0;
    }
  }
}
