/** How single sector writes change the map of files: the frame lemmas behind every AshFS theorem. */
module FsFrame {
  import opened Bytes
  import opened FsLayout
  import opened FsSpec

  // ---------- looking files up ----------

  lemma {:induction false} FindIs(t: seq<Inode>, i: nat)
    requires TableOk(t) && i < 32 && InUse(t[i])
    ensures Find(t, NameOf(t[i])) == i
  {
    assert Named(t[i], NameOf(t[i]));
    assert Apart(t, Find(t, NameOf(t[i])), i);
  }

  /** A name is a key of the map exactly when `inode_find` succeeds; the value is that inode's file. */
  lemma {:induction false} FilesFind(t: seq<Inode>, d: Disk, name: Name)
    requires TableOk(t)
    ensures name in FilesOf(t, d) <==> Find(t, name) >= 0
    ensures name in FilesOf(t, d) ==> FilesOf(t, d)[name] == FileOf(d, t[Find(t, name)])
  {
    var i := Find(t, name);
    assert i >= 0 ==> NameOf(t[i]) == name;
  }

  /** Only names of at most 63 characters are ever found. */
  lemma {:induction false} KeysAreShort(t: seq<Inode>, name: Name)
    requires TableOk(t) && Find(t, name) >= 0
    ensures |name| <= 63
  {
    var x := t[Find(t, name)];
    assert 0 in x.name && CStr(x.name) <= x.name;
    assert |CStr(x.name)| == 64 ==> CStr(x.name) == x.name;
  }

  // ---------- block slots ----------

  lemma {:induction false} SlotsArePrefix(bs: seq<u32>, n: nat)
    requires n <= |bs|
    requires forall j :: 0 <= j < |bs| ==> (bs[j] != 0 <==> j < n)
    ensures Slots(bs) == n
  {
    if bs != [] {
      var m := |bs| - 1;
      SlotsArePrefix(bs[..m], if n <= m then n else m);
    }
  }

  // ---------- the table of used blocks ----------

  /** `used[c]` is set exactly for the blocks that the first `n` inodes refer to or `bs` lists. */
  ghost predicate Marks(used: seq<byte>, t: seq<Inode>, n: nat, bs: seq<u32>)
    requires |used| == 1024 && n <= |t|
  {
    forall c :: 0 <= c < 1024 ==> (used[c] != 0 <==> Referenced(t[..n], 33 + c) || 33 + c in bs)
  }

  lemma {:induction false} ReferencedPush(t: seq<Inode>, i: nat)
    requires i < |t|
    ensures forall b :: Referenced(t[..i + 1], b) <==> Referenced(t[..i], b) || (InUse(t[i]) && b in t[i].blocks)
  {
    forall b ensures Referenced(t[..i + 1], b) <==> Referenced(t[..i], b) || (InUse(t[i]) && b in t[i].blocks) {
      assert forall k :: 0 <= k < i ==> t[..i + 1][k] == t[..i][k] == t[k];
      assert t[..i + 1][i] == t[i];
    }
  }

  // ---------- contents ----------

  lemma {:induction false} ContentsFrame(d: Disk, e: Disk, x: Inode)
    requires InodeOk(x)
    requires forall b :: b in x.blocks && b != 0 ==> d[b] == e[b]
    ensures FileOf(d, x) == FileOf(e, x)
  {
    forall p | 0 <= p < x.size ensures Contents(d, x)[p] == Contents(e, x)[p] {
      var j := p / 512;
      assert x.blocks[j] != 0 && x.blocks[j] in x.blocks;
    }
  }

  /** A data sector no file refers to, or a sector below the data area. */
  predicate Idle(t: seq<Inode>, lba: nat) {
    lba < 33 || !Referenced(t, lba)
  }

  lemma {:induction false} IdleFrame(t: seq<Inode>, d: Disk, lba: nat, s: Sector, i: nat)
    requires TableOk(t) && lba < |d| && Idle(t, lba)
    requires i < 32 && InUse(t[i])
    ensures FileOf(d[lba := s], t[i]) == FileOf(d, t[i])
  {
    forall b | b in t[i].blocks && b != 0 ensures d[b] == d[lba := s][b] {
      assert Referenced(t, b);
    }
    ContentsFrame(d, d[lba := s], t[i]);
  }

  /** Two maps agree on a key. */
  predicate AgreeAt<K, V(==)>(a: map<K, V>, b: map<K, V>, k: K) {
    (k in a <==> k in b) && (k in a && k in b ==> a[k] == b[k])
  }

  lemma {:induction false} AgreeEverywhere<K(!new), V>(a: map<K, V>, b: map<K, V>)
    requires forall k :: AgreeAt(a, b, k)
    ensures a == b
  {
    assert forall k :: k in a ==> AgreeAt(a, b, k);
    assert forall k :: k in b ==> AgreeAt(a, b, k);
  }

  lemma {:induction false} IdleWriteAt(t: seq<Inode>, d: Disk, lba: nat, s: Sector, name: Name)
    requires TableOk(t) && lba < |d| && Idle(t, lba)
    ensures AgreeAt(FilesOf(t, d[lba := s]), FilesOf(t, d), name)
  {
    hide FilesOf, FileOf, Idle;
    FilesFind(t, d, name);
    FilesFind(t, d[lba := s], name);
    if Find(t, name) >= 0 {
      IdleFrame(t, d, lba, s, Find(t, name));
    }
  }

  /** Writing an idle sector changes no file of the table. */
  lemma {:induction false} IdleWrite(t: seq<Inode>, d: Disk, lba: nat, s: Sector)
    requires TableOk(t) && lba < |d| && Idle(t, lba)
    ensures FilesOf(t, d[lba := s]) == FilesOf(t, d)
  {
    hide FilesOf, TableOk, Idle, AgreeAt;
    var m, m' := FilesOf(t, d[lba := s]), FilesOf(t, d);
    forall name: Name ensures AgreeAt(m, m', name) {
      IdleWriteAt(t, d, lba, s, name);
    }
    AgreeEverywhere(m, m');
  }

  // ---------- replacing one inode ----------

  /** The files left when inode `i` is taken out. */
  function Without(t: seq<Inode>, d: Disk, i: nat): map<Name, File>
    requires TableOk(t) && i < 32
  {
    if InUse(t[i]) then FilesOf(t, d) - {NameOf(t[i])} else FilesOf(t, d)
  }

  /** The file an inode brings in. */
  function Bringing(d: Disk, x: Inode): map<Name, File>
    requires InUse(x) ==> InodeOk(x)
  {
    if InUse(x) then map[NameOf(x) := FileOf(d, x)] else map[]
  }

  lemma {:induction false} SameIndex(t: seq<Inode>, i: nat, x: Inode, name: Name)
    requires TableOk(t) && i < 32 && TableOk(t[i := x])
    ensures Named(x, name) ==> Find(t[i := x], name) == i
    ensures !Named(x, name) && Named(t[i], name) ==> Find(t[i := x], name) < 0
    ensures !Named(x, name) && !Named(t[i], name) ==> Find(t[i := x], name) == Find(t, name)
    ensures Named(t[i], name) ==> Find(t, name) == i
  {
    var u := t[i := x];
    var f, g := Find(t, name), Find(u, name);
    assert f >= 0 && f != i ==> u[f] == t[f];
    assert g >= 0 && g != i ==> u[g] == t[g];
    assert u[i] == x;
    assert g >= 0 ==> Apart(u, g, i) && Apart(t, g, i);
    assert f >= 0 ==> Apart(t, f, i);
  }

  /** At each name the new table agrees with the old one, except for the two inodes involved. */
  lemma {:induction false} TablePutAt(t: seq<Inode>, d: Disk, i: nat, x: Inode, name: Name)
    requires TableOk(t) && i < 32 && TableOk(t[i := x])
    requires InUse(x) ==> InodeOk(x)
    ensures Named(x, name) ==> name in FilesOf(t[i := x], d) && FilesOf(t[i := x], d)[name] == FileOf(d, x)
    ensures !Named(x, name) && Named(t[i], name) ==> name !in FilesOf(t[i := x], d)
    ensures !Named(x, name) && !Named(t[i], name) ==> AgreeAt(FilesOf(t[i := x], d), FilesOf(t, d), name)
  {
    var u := t[i := x];
    var f, g := Find(t, name), Find(u, name);
    FilesFind(t, d, name);
    FilesFind(u, d, name);
    SameIndex(t, i, x, name);
    assert f >= 0 && f != i ==> u[f] == t[f];
    assert u[i] == x;
  }

  /** Replacing one inode replaces one file. */
  lemma {:induction false} TablePut(t: seq<Inode>, d: Disk, i: nat, x: Inode)
    requires TableOk(t) && i < 32 && TableOk(t[i := x])
    requires InUse(x) ==> InodeOk(x)
    ensures FilesOf(t[i := x], d) == Without(t, d, i) + Bringing(d, x)
  {
    hide FilesOf, TableOk, FileOf;
    var m, m' := FilesOf(t[i := x], d), Without(t, d, i) + Bringing(d, x);
    forall name: Name ensures AgreeAt(m, m', name) {
      TablePutAt(t, d, i, x, name);
    }
    AgreeEverywhere(m, m');
  }

  // ---------- the same on the disk itself ----------

  /** A write to the superblock or to an unreferenced data sector keeps the table and all files. */
  lemma {:induction false} DiskIdleWrite(d: Disk, lba: nat, s: Sector)
    requires TableOk(Table(d)) && lba < |d| && !(1 <= lba <= 16) && Idle(Table(d), lba)
    ensures Table(d[lba := s]) == Table(d)
    ensures Files(d[lba := s]) == Files(d)
  {
    TableAfterOtherWrite(d, lba, s);
    IdleWrite(Table(d), d, lba, s);
  }
}
