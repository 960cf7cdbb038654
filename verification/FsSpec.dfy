/** AshFS as a state of disk sectors and a superblock copy, and each operation of kernel/fs.c as the
    list of sector writes it makes, its result and the superblock it leaves in memory. */
module FsSpec {
  import opened Bytes
  import opened FsLayout

  // ---------- names ----------

  /** A C string without its terminator. */
  type Name = n: seq<byte> | 0 !in n

  /** The C string starting at the beginning of a buffer. */
  function CStr(s: seq<byte>): (r: Name)
    ensures r <= s
    ensures |r| == |s| || s[|r|] == 0
  {
    if s == [] || s[0] == 0 then [] else [s[0]] + CStr(s[1..])
  }

  lemma {:induction false} CStrIs(s: seq<byte>, r: Name)
    requires r <= s && (|r| == |s| || s[|r|] == 0)
    ensures CStr(s) == r
  {
    if r != [] {
      assert s[0] == r[0] && r[0] in r;
      CStrIs(s[1..], r[1..]);
    }
  }

  /** The 64-byte name field that `fs_strcpy` fills in a zeroed inode (kernel/fs.c:31-39). */
  function StoredName(name: Name): (s: seq<byte>)
    ensures |s| == 64
  {
    var n := if |name| < 63 then |name| else 63;
    name[..n] + seq(64 - n, _ => 0)
  }

  /** The name a stored file answers to: the given one up to 63 characters. */
  function Truncated(name: Name): Name {
    if |name| < 63 then name else name[..63]
  }

  lemma {:induction false} StoredNameIs(name: Name)
    ensures CStr(StoredName(name)) == Truncated(name)
    ensures 0 in StoredName(name)
  {
    assert StoredName(name)[63] == 0;
    CStrIs(StoredName(name), Truncated(name));
  }

  // ---------- inodes and the table ----------

  predicate InUse(x: Inode) { x.used != 0 }

  function NameOf(x: Inode): Name { CStr(x.name) }

  predicate Named(x: Inode, name: Name) { InUse(x) && NameOf(x) == name }

  /** The lowest index at or above `i` of a file called `name`, or -1 (kernel/fs.c:79-88). */
  function FindFrom(t: seq<Inode>, name: Name, i: nat): (r: int)
    requires i <= |t|
    ensures r == -1 || i <= r < |t|
    ensures r >= 0 ==> Named(t[r], name) && forall j {:trigger Named(t[j], name)} :: i <= j < r ==> !Named(t[j], name)
    ensures r < 0 ==> forall j :: i <= j < |t| ==> !Named(t[j], name)
    decreases |t| - i
  {
    if i == |t| then -1 else if Named(t[i], name) then i else FindFrom(t, name, i + 1)
  }

  function Find(t: seq<Inode>, name: Name): (r: int) { FindFrom(t, name, 0) }

  /** The lowest index at or above `i` of an unused inode, or -1 (kernel/fs.c:90-99). */
  function UnusedFrom(t: seq<Inode>, i: nat): (r: int)
    requires i <= |t|
    ensures r == -1 || i <= r < |t|
    ensures r >= 0 ==> !InUse(t[r]) && forall j {:trigger InUse(t[j])} :: i <= j < r ==> InUse(t[j])
    ensures r < 0 ==> forall j {:trigger InUse(t[j])} :: i <= j < |t| ==> InUse(t[j])
    decreases |t| - i
  {
    if i == |t| then -1 else if !InUse(t[i]) then i else UnusedFrom(t, i + 1)
  }

  /** The number of non-zero block slots. */
  function Slots(bs: seq<u32>): (n: nat)
    ensures n <= |bs|
  {
    if bs == [] then 0
    else Slots(bs[..|bs| - 1]) + if bs[|bs| - 1] != 0 then 1 else 0
  }

  /** Some file in use has block number `b` in a slot. */
  predicate Referenced(t: seq<Inode>, b: int) {
    exists i :: 0 <= i < |t| && InUse(t[i]) && b in t[i].blocks
  }

  /** The first unreferenced block at index `i` or above, as a sector number, or 0 (kernel/fs.c:120-127). */
  function FreeBlockFrom(t: seq<Inode>, total: nat, i: nat): (b: nat)
    requires i <= total
    ensures b == 0 || 33 + i <= b < 33 + total
    ensures b != 0 ==> !Referenced(t, b) && forall c :: 33 + i <= c < b ==> Referenced(t, c)
    ensures b == 0 ==> forall c :: 33 + i <= c < 33 + total ==> Referenced(t, c)
    decreases |t|, total - i
  {
    if i == total then 0 else if !Referenced(t, 33 + i) then 33 + i else FreeBlockFrom(t, total, i + 1)
  }

  function FreeBlock(t: seq<Inode>, total: nat): nat { FreeBlockFrom(t, total, 0) }

  /** All unreferenced blocks from index `i` on, lowest first. */
  function FreeBlocksFrom(t: seq<Inode>, total: nat, i: nat): (fb: seq<u32>)
    requires i <= total <= 1024
    ensures forall j :: 0 <= j < |fb| ==> 33 + i <= fb[j] < 33 + total && !Referenced(t, fb[j])
    ensures forall j, k :: 0 <= j < k < |fb| ==> fb[j] < fb[k]
    ensures forall b :: 33 + i <= b < 33 + total && !Referenced(t, b) ==> b in fb
    decreases |t|, total - i
  {
    if i == total then []
    else if !Referenced(t, 33 + i) then [33 + i] + FreeBlocksFrom(t, total, i + 1)
    else FreeBlocksFrom(t, total, i + 1)
  }

  function FreeBlocks(t: seq<Inode>): seq<u32> { FreeBlocksFrom(t, 1024, 0) }

  /** A used inode as the kernel leaves it: a terminated name, its non-zero slots first and in the
      data area, and enough of them for its size. */
  predicate InodeOk(x: Inode) {
    && 0 in x.name
    && (forall j :: 0 <= j < 32 ==> x.blocks[j] == 0 || 33 <= x.blocks[j] < 1057)
    && (forall j :: 0 <= j < 32 ==> (x.blocks[j] != 0 <==> j < Slots(x.blocks)))
    && x.size <= 512 * Slots(x.blocks)
  }

  /** No block belongs to both inodes. */
  predicate NoShare(x: Inode, y: Inode) {
    forall b :: b in x.blocks && b in y.blocks ==> b == 0
  }

  /** Two files have different names and no common block. */
  predicate Apart(t: seq<Inode>, i: nat, j: nat)
    requires i < |t| && j < |t|
  {
    i != j && InUse(t[i]) && InUse(t[j]) ==> NameOf(t[i]) != NameOf(t[j]) && NoShare(t[i], t[j])
  }

  predicate TableOk(t: seq<Inode>): (ok: bool)
    ensures ok ==> |t| == 32
  {
    && |t| == 32
    && (forall i {:trigger InUse(t[i])} :: 0 <= i < 32 && InUse(t[i]) ==> InodeOk(t[i]))
    && (forall i, j :: 0 <= i < 32 && 0 <= j < 32 ==> Apart(t, i, j))
  }

  // ---------- file contents ----------

  function Contents(d: Disk, x: Inode): (c: seq<byte>)
    requires InodeOk(x)
    ensures |c| == x.size
  {
    seq(x.size, p requires 0 <= p < x.size => d[x.blocks[p / 512]][p % 512])
  }

  /** What a user can tell about a file: its bytes, and the number of blocks charged to it. */
  datatype File = File(bytes: seq<byte>, slots: nat)

  function FileOf(d: Disk, x: Inode): File
    requires InodeOk(x)
  {
    File(Contents(d, x), Slots(x.blocks))
  }

  function Names(t: seq<Inode>): set<Name> {
    set i | 0 <= i < |t| && InUse(t[i]) :: NameOf(t[i])
  }

  /** An inode table over a disk seen as a map from names to files. */
  function FilesOf(t: seq<Inode>, d: Disk): (m: map<Name, File>)
    requires TableOk(t)
  {
    map n | n in Names(t) :: FileOf(d, t[Find(t, n)])
  }

  function Files(d: Disk): (m: map<Name, File>)
    requires TableOk(Table(d))
  {
    FilesOf(Table(d), d)
  }

  // ---------- sector writes ----------

  datatype SectorWrite = SectorWrite(lba: nat, data: Sector)

  predicate InDisk(d: Disk, log: seq<SectorWrite>) {
    forall i :: 0 <= i < |log| ==> log[i].lba < |d|
  }

  /** The disk after a list of sector writes. */
  function Apply(d: Disk, log: seq<SectorWrite>): (r: Disk)
    requires InDisk(d, log)
    ensures |r| == |d|
  {
    if log == [] then d
    else
      var n := |log| - 1;
      Apply(d, log[..n])[log[n].lba := log[n].data]
  }

  lemma {:induction false} ApplyPush(d: Disk, log: seq<SectorWrite>, w: SectorWrite)
    requires InDisk(d, log) && w.lba < |d|
    ensures InDisk(d, log + [w])
    ensures Apply(d, log + [w]) == Apply(d, log)[w.lba := w.data]
  {
    assert (log + [w])[..|log|] == log;
  }

  /** Chunk `i` of the data, zero-padded to a sector (kernel/fs.c:217-221). */
  function Chunk(data: seq<byte>, i: nat): Sector {
    seq(512, p requires 0 <= p < 512 => if 512 * i + p < |data| then data[512 * i + p] else 0)
  }

  /** Successive chunks written to one and the same sector. */
  function ChunksTo(b: nat, data: seq<byte>, n: nat): (log: seq<SectorWrite>)
    ensures |log| == n
  {
    seq(n, i requires 0 <= i < n => SectorWrite(b, Chunk(data, i)))
  }

  lemma {:induction false} ApplyChunksTo(d: Disk, b: nat, data: seq<byte>, n: nat)
    requires b < |d|
    ensures InDisk(d, ChunksTo(b, data, n))
    ensures Apply(d, ChunksTo(b, data, n)) == if n == 0 then d else d[b := Chunk(data, n - 1)]
  {
    var log := ChunksTo(b, data, n);
    if n > 0 {
      ApplyChunksTo(d, b, data, n - 1);
      assert log[..n - 1] == ChunksTo(b, data, n - 1);
      assert log[n - 1] == SectorWrite(b, Chunk(data, n - 1));
      var e := Apply(d, log[..n - 1]);
      assert e[b := Chunk(data, n - 1)] == d[b := Chunk(data, n - 1)];
    }
  }

  // ---------- the operations ----------

  datatype Fs = Fs(disk: Disk, sb: Superblock)

  /** The outcome of an operation: return value, sector writes in order, superblock in memory. */
  datatype Effect = Effect(ret: int, log: seq<SectorWrite>, sb: Superblock)

  /** 32-bit `(size + 511) / 512`, wrap-around included (kernel/fs.c:201). */
  function BlocksNeeded(size: u32): nat { (size + 511) % WORD_LIMIT / 512 }

  type Data = data: seq<byte> | |data| < WORD_LIMIT

  const FreshSuper := Superblock(FS_MAGIC, 1, 1024, 1, 33, 1024)

  function InitEffect(d: Disk): Effect {
    var sb := DecodeSuper(d[0]);
    if sb.magic == FS_MAGIC then Effect(0, [], sb)
    else Effect(0, [SectorWrite(0, SuperSector(FreshSuper))] + ZeroTable(32), FreshSuper)
  }

  function ZeroTable(n: nat): (log: seq<SectorWrite>)
    ensures |log| == n
  {
    seq(n, i requires 0 <= i < n => SectorWrite(1 + i, ZeroSector))
  }

  function NewInode(name: Name): Inode {
    InodeRecord(StoredName(name), 0, seq(32, _ => 0), 1, [0, 0, 0])
  }

  /** `fs_create` over inode table `t` of disk `d` (kernel/fs.c:166-188). */
  function CreateOn(t: seq<Inode>, s: Fs, name: Name): Effect
    requires |t| == 32
  {
    var i := UnusedFrom(t, 0);
    if Find(t, name) >= 0 || i < 0 then Effect(-1, [], s.sb)
    else Effect(0, [SectorWrite(1 + i / 2, InodeSector(s.disk, i, NewInode(name)))], s.sb)
  }

  function CreateEffect(s: Fs, name: Name): Effect { CreateOn(Table(s.disk), s, name) }

  /** The inode after a write of `size` bytes whose `k` chunks all went to block `b`. */
  function Rewritten(x: Inode, k: nat, b: u32, size: u32): Inode {
    x.(blocks := seq(32, j requires 0 <= j < 32 => if j < k then b else x.blocks[j]), size := size)
  }

  /** The closing writes of an operation: inode `i` becomes `x`, then the superblock goes out. */
  function Closing(d: Disk, i: nat, x: Inode, sb: Superblock): (log: seq<SectorWrite>)
    requires i < 32
  {
    [SectorWrite(1 + i / 2, InodeSector(d, i, x)), SectorWrite(0, SuperSector(sb))]
  }

  /** `fs_write` over inode table `t` (kernel/fs.c:190-237). Every pass of its loop finds the same free
      block, since the inode being built is not on disk yet. */
  function WriteOn(t: seq<Inode>, s: Fs, name: Name, data: Data): Effect
    requires |t| == 32
  {
    var i := Find(t, name);
    var k := BlocksNeeded(|data|);
    var b := FreeBlock(t, 1024);
    var free := s.sb.free_blocks;
    if i < 0 || k > 32 || (k > 0 && b == 0) then Effect(-1, [], s.sb)
    else if free < k then Effect(-1, ChunksTo(b, data, free), s.sb.(free_blocks := 0))
    else
      var sb := s.sb.(free_blocks := free - k);
      Effect(0, ChunksTo(b, data, k) + Closing(s.disk, i, Rewritten(t[i], k, b, |data|), sb), sb)
  }

  function WriteEffect(s: Fs, name: Name, data: Data): Effect { WriteOn(Table(s.disk), s, name, data) }

  function Erased(x: Inode): Inode { x.(blocks := seq(32, _ => 0), used := 0) }

  /** `fs_delete` over inode table `t` (kernel/fs.c:267-295). */
  function DeleteOn(t: seq<Inode>, s: Fs, name: Name): Effect
    requires |t| == 32
  {
    var i := Find(t, name);
    if i < 0 then Effect(-1, [], s.sb)
    else
      var sb := s.sb.(free_blocks := (s.sb.free_blocks + Slots(t[i].blocks)) % WORD_LIMIT);
      Effect(0, Closing(s.disk, i, Erased(t[i]), sb), sb)
  }

  function DeleteEffect(s: Fs, name: Name): Effect { DeleteOn(Table(s.disk), s, name) }

  /** The return value of `fs_read` and the bytes it puts at the front of the buffer. */
  datatype ReadResult = ReadResult(ret: int, bytes: seq<byte>)

  /** `fs_read` over inode table `t` (kernel/fs.c:239-265). */
  function ReadOn(t: seq<Inode>, d: Disk, name: Name, size: nat): ReadResult
    requires TableOk(t)
  {
    var i := Find(t, name);
    if i < 0 then ReadResult(-1, [])
    else
      var c := Contents(d, t[i]);
      var n := if size < |c| then size else |c|;
      ReadResult(n, c[..n])
  }

  function ReadOutcome(s: Fs, name: Name, size: nat): ReadResult
    requires TableOk(Table(s.disk))
  {
    ReadOn(Table(s.disk), s.disk, name, size)
  }
}
