/** The on-disk layout of AshFS: include/fs.h and the inode helpers of kernel/fs.c. */
module FsLayout {
  import opened Bytes

  // Sector 0 holds the superblock. 32 inodes of 200 bytes lie two to a sector in sectors 1 to 16 of the
  // 32 set aside for them; data blocks are the 1024 sectors 33 to 1056. A file has at most 32 blocks of
  // 512 bytes and a 64-byte name field.

  const FS_MAGIC: u32 := 0xA5075

  type Sector = s: seq<byte> | |s| == 512 witness seq(512, _ => 0)

  /** A disk with room for the superblock, the inode table and 1024 data blocks. */
  type Disk = d: seq<Sector> | |d| >= 1057 witness seq<Sector>(1057, _ => ZeroSector)

  const ZeroSector: Sector := seq(512, _ => 0)

  datatype Superblock = Superblock(magic: u32, version: u32, total_blocks: u32,
                                   inode_start: u32, data_start: u32, free_blocks: u32)

  datatype InodeRecord = InodeRecord(name: seq<byte>, size: u32, blocks: seq<u32>, used: byte, padding: seq<byte>)

  type Inode = x: InodeRecord | |x.name| == 64 && |x.blocks| == 32 && |x.padding| == 3
    witness InodeRecord(seq(64, _ => 0), 0, seq(32, _ => 0), 0, [0, 0, 0])

  // ---------- byte encodings ----------

  function EncodeSuper(sb: Superblock): (b: seq<byte>)
    ensures |b| == 24
  {
    WordsBytes([sb.magic, sb.version, sb.total_blocks, sb.inode_start, sb.data_start, sb.free_blocks])
  }

  function DecodeSuper(s: Sector): Superblock {
    var w := WordsAt(s, 0, 6);
    Superblock(w[0], w[1], w[2], w[3], w[4], w[5])
  }

  /** A sector zeroed and then overwritten with the superblock (kernel/fs.c:230-233). */
  function SuperSector(sb: Superblock): Sector {
    EncodeSuper(sb) + seq(488, _ => 0)
  }

  lemma {:induction false} SuperRoundTrip(sb: Superblock)
    ensures DecodeSuper(SuperSector(sb)) == sb
  {
    var ws := [sb.magic, sb.version, sb.total_blocks, sb.inode_start, sb.data_start, sb.free_blocks];
    assert SuperSector(sb)[0..0 + 4 * |ws|] == WordsBytes(ws);
    WordsRoundTrip(ws, SuperSector(sb), 0);
  }

  function EncodeInode(x: Inode): (b: seq<byte>)
    ensures |b| == 200
  {
    x.name + U32Bytes(x.size) + WordsBytes(x.blocks) + [x.used] + x.padding
  }

  function DecodeInode(b: seq<byte>): Inode
    requires |b| == 200
  {
    InodeRecord(b[0..64], U32At(b, 64), WordsAt(b, 68, 32), b[196], b[197..200])
  }

  lemma {:induction false} InodeRoundTrip(x: Inode)
    ensures DecodeInode(EncodeInode(x)) == x
  {
    var b := EncodeInode(x);
    assert b[0..64] == x.name;
    assert b[64..64 + 4] == U32Bytes(x.size);
    U32RoundTrip(x.size, b, 64);
    assert b[68..68 + 4 * |x.blocks|] == WordsBytes(x.blocks);
    WordsRoundTrip(x.blocks, b, 68);
    assert b[197..200] == x.padding;
  }

  // ---------- the inode table ----------

  /** What `inode_read(i)` copies out (kernel/fs.c:60-67). */
  function InodeAt(d: Disk, i: nat): Inode
    requires i < 32
  {
    DecodeInode(d[1 + i / 2][i % 2 * 200..i % 2 * 200 + 200])
  }

  /** The sector `inode_write(i, x)` writes back (kernel/fs.c:69-77). */
  function InodeSector(d: Disk, i: nat, x: Inode): Sector
    requires i < 32
  {
    Splice(d[1 + i / 2], i % 2 * 200, EncodeInode(x))
  }

  /** The whole inode table as an array. */
  function Table(d: Disk): (t: seq<Inode>)
    ensures |t| == 32
  {
    seq(32, i requires 0 <= i < 32 => InodeAt(d, i))
  }

  /** Where each field lies on disk: inode `i` in half `i % 2` of sector `1 + i / 2`, at byte offsets 0, 64, 68,
      196 and 197. */
  lemma {:induction false} InodeOnDisk(d: Disk, i: nat, j: nat)
    requires i < 32 && j < 32
    ensures
      var s, o, x := d[1 + i / 2], i % 2 * 200, Table(d)[i];
      && x.name == s[o..o + 64] && x.size == U32At(s, o + 64) && x.blocks[j] == U32At(s, o + 68 + 4 * j)
      && x.used == s[o + 196] && x.padding == s[o + 197..o + 200]
  {
    var s, o := d[1 + i / 2], i % 2 * 200;
    SliceOfSlice(s, o, o + 200, 0, 64);
    SliceOfSlice(s, o, o + 200, 197, 200);
    var b := s[o..o + 200];
    assert b[196] == s[o + 196];
    assert U32At(b, 64) == U32At(s, o + 64) && U32At(b, 68 + 4 * j) == U32At(s, o + 68 + 4 * j);
  }

  /** And of the superblock, in sector 0. */
  lemma {:induction false} SuperOnDisk(s: Sector)
    ensures DecodeSuper(s).magic == U32At(s, 0) && DecodeSuper(s).version == U32At(s, 4)
    ensures DecodeSuper(s).total_blocks == U32At(s, 8) && DecodeSuper(s).inode_start == U32At(s, 12)
    ensures DecodeSuper(s).data_start == U32At(s, 16) && DecodeSuper(s).free_blocks == U32At(s, 20)
  {
  }

  lemma {:induction false} InodeReadAfterWrite(d: Disk, i: nat, x: Inode, j: nat)
    requires i < 32 && j < 32
    ensures InodeAt(d[1 + i / 2 := InodeSector(d, i, x)], j) == if i == j then x else InodeAt(d, j)
  {
    var s := InodeSector(d, i, x);
    var e := d[1 + i / 2 := s];
    var o := j % 2 * 200;
    if i == j {
      assert s[o..o + 200] == EncodeInode(x);
      InodeRoundTrip(x);
    } else if i / 2 == j / 2 {
      assert s[o..o + 200] == d[1 + j / 2][o..o + 200];
    }
  }

  /** Writing inode `i` is an update of the table at `i` and touches no sector outside 1..16. */
  lemma {:induction false} TableAfterInodeWrite(d: Disk, i: nat, x: Inode)
    requires i < 32
    ensures Table(d[1 + i / 2 := InodeSector(d, i, x)]) == Table(d)[i := x]
    ensures 1 <= 1 + i / 2 <= 16
  {
    var e := d[1 + i / 2 := InodeSector(d, i, x)];
    forall j | 0 <= j < 32 ensures Table(e)[j] == Table(d)[i := x][j] {
      InodeReadAfterWrite(d, i, x, j);
    }
  }

  /** A write outside sectors 1..16 leaves every inode as it was. */
  lemma {:induction false} TableAfterOtherWrite(d: Disk, lba: nat, s: Sector)
    requires lba < |d| && !(1 <= lba <= 16)
    ensures Table(d[lba := s]) == Table(d)
  {
    forall j | 0 <= j < 32 ensures Table(d[lba := s])[j] == Table(d)[j] {
    }
  }
}
