/** The `free_blocks` counter against the scan of the inode table, by counting. */
module FsCount {
  import opened Bytes
  import opened FsLayout
  import opened FsSpec
  import opened FsFrame

  /** The block slots an inode is charged for. */
  function Weight(x: Inode): nat { if InUse(x) then Slots(x.blocks) else 0 }

  /** The non-zero slots of all used inodes. */
  function SlotSum(t: seq<Inode>): nat {
    if t == [] then 0 else SlotSum(t[..|t| - 1]) + Weight(t[|t| - 1])
  }

  lemma {:induction false} SlotSumPut(t: seq<Inode>, i: nat, x: Inode)
    requires i < |t|
    ensures SlotSum(t[i := x]) == SlotSum(t) - Weight(t[i]) + Weight(x)
  {
    hide Weight;
    var n := |t| - 1;
    if i < n {
      SlotSumPut(t[..n], i, x);
      assert t[i := x][..n] == t[..n][i := x];
    } else {
      assert t[i := x][..n] == t[..n];
    }
  }

  // ---------- distinct blocks are at most as many as slots ----------

  function NonZeroBlocks(bs: seq<u32>): (r: set<u32>)
    ensures |r| <= Slots(bs)
    ensures forall b :: b in r <==> b in bs && b != 0
  {
    if bs == [] then {}
    else
      var n := |bs| - 1;
      assert forall b :: b in bs <==> b in bs[..n] || b == bs[n];
      NonZeroBlocks(bs[..n]) + if bs[n] != 0 then {bs[n]} else {}
  }

  function ReferencedBlocks(t: seq<Inode>): (r: set<u32>)
    ensures |r| <= SlotSum(t)
  {
    if t == [] then {}
    else
      var n := |t| - 1;
      ReferencedBlocks(t[..n]) + if InUse(t[n]) then NonZeroBlocks(t[n].blocks) else {}
  }

  lemma {:induction false} ReferencedIsMember(t: seq<Inode>, i: nat, b: u32)
    requires i < |t| && InUse(t[i]) && b in t[i].blocks && b != 0
    ensures b in ReferencedBlocks(t)
  {
    var n := |t| - 1;
    if i < n {
      ReferencedIsMember(t[..n], i, b);
    }
  }

  function Range(lo: u32, n: nat): (r: set<u32>)
    requires lo + n <= WORD_LIMIT
    ensures |r| == n
    ensures forall b :: b in r <==> lo <= b < lo + n
  {
    if n == 0 then {} else Range(lo, n - 1) + {lo + n - 1}
  }

  lemma {:induction false} AllReferenced(t: seq<Inode>, n: nat)
    requires forall b :: 33 <= b < 33 + n ==> Referenced(t, b)
    requires n <= 1024
    ensures SlotSum(t) >= n
  {
    var r := Range(33, n);
    forall b | b in r ensures b in ReferencedBlocks(t) {
      assert Referenced(t, b);
      var i :| 0 <= i < |t| && InUse(t[i]) && b in t[i].blocks;
      ReferencedIsMember(t, i, b);
    }
    assert r <= ReferencedBlocks(t);
    SubsetSize(r, ReferencedBlocks(t));
  }

  /** Pigeonhole: when the scan finds no free block, all 1024 blocks are charged to some slot. */
  lemma {:induction false} FullDisk(t: seq<Inode>)
    requires FreeBlock(t, 1024) == 0
    ensures SlotSum(t) >= 1024
  {
    AllReferenced(t, 1024);
  }

  function Members(s: seq<u32>): (r: set<u32>)
    ensures |r| <= |s| && forall x :: x in r <==> x in s
  {
    if s == [] then {} else Members(s[..|s| - 1]) + {s[|s| - 1]}
  }

  /** Blocks that are not in the scan's list of free ones are charged to some slot. */
  lemma {:induction false} ScanCount(t: seq<Inode>)
    ensures |FreeBlocks(t)| + SlotSum(t) >= 1024
  {
    hide FreeBlocksFrom, ReferencedBlocks, SlotSum;
    var r, all := Range(33, 1024), Members(FreeBlocks(t)) + ReferencedBlocks(t);
    forall b | b in r ensures b in all {
      if Referenced(t, b) {
        var i :| 0 <= i < |t| && InUse(t[i]) && b in t[i].blocks;
        ReferencedIsMember(t, i, b);
      }
    }
    SubsetSize(r, all);
  }

  // ---------- files against inodes in use ----------

  function UsedCount(t: seq<Inode>): (n: nat)
    ensures n <= |t|
  {
    if t == [] then 0 else UsedCount(t[..|t| - 1]) + if InUse(t[|t| - 1]) then 1 else 0
  }

  predicate NamesDistinct(t: seq<Inode>) {
    forall i, j :: 0 <= i < j < |t| && InUse(t[i]) && InUse(t[j]) ==> NameOf(t[i]) != NameOf(t[j])
  }

  lemma {:induction false} NamesPush(t: seq<Inode>)
    requires t != []
    ensures Names(t) == Names(t[..|t| - 1]) + if InUse(t[|t| - 1]) then {NameOf(t[|t| - 1])} else {}
  {
    hide NameOf;
    var u := t[..|t| - 1];
    assert forall i :: 0 <= i < |u| ==> u[i] == t[i];
  }

  lemma {:induction false} NamesSize(t: seq<Inode>)
    requires NamesDistinct(t)
    ensures |Names(t)| == UsedCount(t)
  {
    if t == [] {
      assert Names(t) == {};
    } else {
      var n := |t| - 1;
      NamesSize(t[..n]);
      if InUse(t[n]) {
        NamesPush(t);
        assert NameOf(t[n]) !in Names(t[..n]);
      } else {
        NamesPush(t);
      }
    }
  }

  lemma {:induction false} AllUsed(t: seq<Inode>)
    ensures UsedCount(t) == |t| <==> forall i :: 0 <= i < |t| ==> InUse(t[i])
  {
    if t != [] {
      AllUsed(t[..|t| - 1]);
      assert forall i :: 0 <= i < |t| - 1 ==> t[..|t| - 1][i] == t[i];
    }
  }

  /** A free inode exists exactly when the disk holds fewer than 32 files. */
  lemma {:induction false} FilesSize(t: seq<Inode>, d: Disk)
    requires TableOk(t)
    ensures |FilesOf(t, d)| <= 32
    ensures UnusedFrom(t, 0) < 0 <==> |FilesOf(t, d)| == 32
  {
    forall i, j | 0 <= i < j < |t| && InUse(t[i]) && InUse(t[j]) ensures NameOf(t[i]) != NameOf(t[j]) {
      assert Apart(t, i, j);
    }
    NamesSize(t);
    AllUsed(t);
    assert FilesOf(t, d).Keys == Names(t);
  }
}
