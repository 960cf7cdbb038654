/** The block list as it lies in memory: 12-byte headers inside the bytes the heap manages. */
module HeapMemory {
  import opened Bytes
  import opened HeapSpec
  import opened HeapTheorems

  const HEAP_START: u32 := 0x0100_0000
  const HEAP_SIZE := 0x10_0000

  /** A header at offset `o`: size, free flag and address of the next header. */
  predicate Header(m: seq<byte>, o: nat, b: Block, next: int)
    requires o + HEADER <= |m|
  {
    U32At(m, o) == b.size && (m[o + 4] != 0 <==> b.free) && U32At(m, o + 8) == next
  }

  /** The same in bytes: size in bytes 0 to 3, the flag in byte 4, the successor in bytes 8 to 11. */
  lemma {:induction false} HeaderBytes(m: seq<byte>, o: nat, b: Block, next: u32)
    requires o + HEADER <= |m| && b.size < WORD_LIMIT
    ensures Header(m, o, b, next) <==>
            m[o..o + 4] == U32Bytes(b.size) && (m[o + 4] != 0 <==> b.free) && m[o + 8..o + 12] == U32Bytes(next)
  {
    hide U32Bytes, U32At;
    BytesOfWord(m, o);
    BytesOfWord(m, o + 8);
    if m[o..o + 4] == U32Bytes(b.size) {
      U32RoundTrip(b.size, m, o);
    }
    if m[o + 8..o + 8 + 4] == U32Bytes(next) {
      U32RoundTrip(next, m, o + 8);
    }
  }

  /** The address of the header after block `i`, or null. */
  function NextOf(bs: Blocks, i: nat): int
    requires i < |bs|
  {
    if i + 1 < |bs| then HEAP_START + Start(bs, i + 1) else 0
  }

  predicate HeaderOk(m: seq<byte>, bs: Blocks, i: nat)
    requires i < |bs|
  {
    Start(bs, i) + HEADER <= |m| && Header(m, Start(bs, i), bs[i], NextOf(bs, i))
  }

  predicate Aligned(bs: Blocks) { forall i :: 0 <= i < |bs| ==> bs[i].size % 4 == 0 }

  /** Memory `m` holds the block list `bs`, which tiles the whole heap. */
  predicate Lays(m: seq<byte>, bs: Blocks): (ok: bool)
    ensures ok ==> |m| == HEAP_SIZE && Length(bs) == HEAP_SIZE && bs != []
  {
    && |m| == HEAP_SIZE && Length(bs) == HEAP_SIZE && bs != []
    && Aligned(bs)
    && forall i :: 0 <= i < |bs| ==> HeaderOk(m, bs, i)
  }

  predicate SameOutside(m: seq<byte>, m': seq<byte>, lo: nat, hi: nat) {
    |m| == |m'| && forall k :: 0 <= k < |m| && !(lo <= k < hi) ==> m[k] == m'[k]
  }

  lemma {:induction false} HeaderFrame(m: seq<byte>, m': seq<byte>, o: nat, b: Block, next: int)
    requires o + HEADER <= |m| && o + HEADER <= |m'| && Header(m, o, b, next)
    requires forall k :: o <= k < o + HEADER ==> m[k] == m'[k]
    ensures Header(m', o, b, next)
  {
  }

  lemma {:induction false} StartBound(bs: Blocks, i: nat)
    requires i < |bs|
    ensures Start(bs, i) + HEADER + bs[i].size <= Length(bs)
  {
    StartOrder(bs, i, |bs|);
    assert bs[..|bs|] == bs;
  }

  /** Starts of the front and back parts of a list in three parts. */
  lemma {:induction false} StartFront(a: Blocks, k: Blocks, c: Blocks, j: nat)
    requires j <= |a|
    ensures Start(a + k + c, j) == Length(a[..j])
  {
    hide Length;
    assert (a + k + c)[..j] == a[..j];
  }

  lemma {:induction false} StartBack(a: Blocks, k: Blocks, c: Blocks, j: nat)
    requires j <= |c|
    ensures Start(a + k + c, |a| + |k| + j) == Length(a) + Length(k) + Length(c[..j])
  {
    hide Length;
    assert (a + k + c)[..|a| + |k| + j] == a + k + c[..j];
    LengthConcat(a + k, c[..j]);
    LengthConcat(a, k);
  }

  /** Replacing part of the list by one of the same length moves no other block. */
  lemma {:induction false} StartsStay(a: Blocks, k: Blocks, k': Blocks, c: Blocks, j: nat)
    requires Length(k) == Length(k')
    ensures j <= |a| ==> Start(a + k' + c, j) == Start(a + k + c, j)
    ensures j <= |c| ==> Start(a + k' + c, |a| + |k'| + j) == Start(a + k + c, |a| + |k| + j)
  {
    hide Length, Start;
    if j <= |a| {
      StartFront(a, k, c, j);
      StartFront(a, k', c, j);
    }
    if j <= |c| {
      StartBack(a, k, c, j);
      StartBack(a, k', c, j);
    }
  }

  /** A block in the front part keeps its place, its contents and its successor. */
  lemma {:induction false} FrontBlock(a: Blocks, k: Blocks, k': Blocks, c: Blocks, i: nat)
    requires Length(k) == Length(k') && k != [] && k' != [] && i < |a|
    ensures
      var bs, r := a + k + c, a + k' + c;
      r[i] == bs[i] && Start(r, i) == Start(bs, i) && NextOf(r, i) == NextOf(bs, i)
      && Start(bs, i) + HEADER <= Length(a)
  {
    hide Length, Start;
    var bs, r := a + k + c, a + k' + c;
    StartsStay(a, k, k', c, i);
    StartsStay(a, k, k', c, i + 1);
    StartOrder(a, i, |a|);
    StartFront(a, k, c, i);
    StartWhole(a, i);
  }

  lemma {:induction false} StartWhole(a: Blocks, i: nat)
    requires i <= |a|
    ensures Start(a, |a|) == Length(a) && Start(a, i) == Length(a[..i])
  {
    assert a[..|a|] == a;
  }

  /** So does a block in the back part, up to its index. */
  lemma {:induction false} BackBlock(a: Blocks, k: Blocks, k': Blocks, c: Blocks, j: nat)
    requires Length(k) == Length(k') && k != [] && k' != [] && j < |c|
    ensures
      var bs, r := a + k + c, a + k' + c;
      var p, q := |a| + |k| + j, |a| + |k'| + j;
      r[q] == bs[p] && Start(r, q) == Start(bs, p) && NextOf(r, q) == NextOf(bs, p)
      && Start(bs, p) >= Length(a) + Length(k)
  {
    hide Length, Start;
    var bs, r := a + k + c, a + k' + c;
    var p, q := |a| + |k| + j, |a| + |k'| + j;
    StartsStay(a, k, k', c, j);
    StartsStay(a, k, k', c, j + 1);
    StartBack(a, k, c, j);
  }

  /** A header that is still in place makes the block it stands for laid out. */
  lemma {:induction false} HeaderMoves(m: seq<byte>, m': seq<byte>, bs: Blocks, p: nat, r: Blocks, q: nat)
    requires |m| == |m'| && p < |bs| && q < |r| && HeaderOk(m, bs, p)
    requires r[q] == bs[p] && Start(r, q) == Start(bs, p) && NextOf(r, q) == NextOf(bs, p)
    requires forall k :: Start(bs, p) <= k < Start(bs, p) + HEADER ==> m[k] == m'[k]
    ensures HeaderOk(m', r, q)
  {
    hide Start, NextOf;
    HeaderFrame(m, m', Start(bs, p), bs[p], NextOf(bs, p));
  }

  lemma {:induction false} HeaderElsewhere(m: seq<byte>, m': seq<byte>,
                                           a: Blocks, k: Blocks, k': Blocks, c: Blocks, i: nat)
    requires Lays(m, a + k + c) && Length(k) == Length(k') && k != [] && k' != []
    requires SameOutside(m, m', Length(a), Length(a) + Length(k))
    requires i < |a| + |k'| + |c| && !(|a| <= i < |a| + |k'|)
    ensures HeaderOk(m', a + k' + c, i)
  {
    hide Start, Length, NextOf, Header, Aligned;
    var bs, r := a + k + c, a + k' + c;
    if i < |a| {
      FrontBlock(a, k, k', c, i);
      assert HeaderOk(m, bs, i);
      HeaderMoves(m, m', bs, i, r, i);
    } else {
      var j := i - |a| - |k'|;
      BackBlock(a, k, k', c, j);
      assert HeaderOk(m, bs, |a| + |k| + j);
      HeaderMoves(m, m', bs, |a| + |k| + j, r, i);
    }
  }

  lemma {:induction false} AlignedParts(a: Blocks, k: Blocks, c: Blocks)
    ensures Aligned(a + k + c) <==> Aligned(a) && Aligned(k) && Aligned(c)
  {
    var bs := a + k + c;
    assert forall i :: 0 <= i < |a| ==> a[i] == bs[i];
    assert forall i :: 0 <= i < |k| ==> k[i] == bs[|a| + i];
    assert forall i :: 0 <= i < |c| ==> c[i] == bs[|a| + |k| + i];
  }

  /** Memory changed only inside the middle part, whose headers are right again: the list is laid out. */
  lemma {:induction false} ReplaceLays(m: seq<byte>, m': seq<byte>, a: Blocks, k: Blocks, k': Blocks, c: Blocks)
    requires Lays(m, a + k + c) && Length(k) == Length(k') && k != [] && k' != [] && Aligned(k')
    requires SameOutside(m, m', Length(a), Length(a) + Length(k))
    requires forall i :: |a| <= i < |a| + |k'| ==> HeaderOk(m', a + k' + c, i)
    ensures Lays(m', a + k' + c)
  {
    hide Length, HeaderOk, Aligned;
    var r := a + k' + c;
    ThreeParts(a, k, c);
    ThreeParts(a, k', c);
    AlignedParts(a, k, c);
    AlignedParts(a, k', c);
    forall i | 0 <= i < |r| ensures HeaderOk(m', r, i) {
      if !(|a| <= i < |a| + |k'|) {
        HeaderElsewhere(m, m', a, k, k', c, i);
      }
    }
  }

  // ---------- the three changes kmalloc and kfree make ----------

  lemma {:induction false} Cut(bs: Blocks, i: nat, n: nat)
    requires i + n <= |bs|
    ensures bs == bs[..i] + bs[i..i + n] + bs[i + n..]
  {
  }

  /** A new header for block `i`, of the same size. */
  lemma {:induction false} MarkLays(m: seq<byte>, m': seq<byte>, bs: Blocks, i: nat, free: bool)
    requires Lays(m, bs) && i < |bs|
    requires SameOutside(m, m', Start(bs, i), Start(bs, i) + HEADER) && Start(bs, i) + HEADER <= |m|
    requires Header(m', Start(bs, i), Block(bs[i].size, free), NextOf(bs, i))
    ensures Lays(m', bs[i := Block(bs[i].size, free)])
  {
    hide Length;
    var b := Block(bs[i].size, free);
    var a, k, k', c := bs[..i], bs[i..i + 1], [b], bs[i + 1..];
    Cut(bs, i, 1);
    assert k == [bs[i]];
    var r := bs[i := b];
    assert r == a + k' + c;
    LengthOne(bs[i]);
    LengthOne(b);
    StartsStay(a, k, k', c, 0);
    StartsStay(a, k, k', c, i);
    assert Aligned(k') by {
      assert bs[i].size % 4 == 0;
    }
    assert HeaderOk(m', r, i);
    ReplaceLays(m, m', a, k, k', c);
  }

  lemma {:induction false} AlignedOne(b: Block)
    ensures Aligned([b]) <==> b.size % 4 == 0
  {
    assert [b][0] == b;
  }

  lemma {:induction false} TakenAligned(b: Block, need: nat)
    requires b.free && b.size >= need && b.size % 4 == 0 && need % 4 == 0
    ensures Aligned(Taken(b, need))
  {
    if b.size >= need + HEADER + 4 {
      assert (b.size - need - HEADER) % 4 == 0;
    }
  }

  /** Block `i` cut in two: its own header and a new one behind its payload. */
  lemma {:induction false} SplitLays(m: seq<byte>, m': seq<byte>, bs: Blocks, i: nat, need: nat)
    requires Lays(m, bs) && i < |bs| && bs[i].free && bs[i].size >= need + HEADER + 4 && need % 4 == 0
    requires SameOutside(m, m', Start(bs, i), Start(bs, i) + HEADER + bs[i].size)
    requires Start(bs, i) + HEADER + need + HEADER <= |m'|
    requires Header(m', Start(bs, i), Block(need, false), HEAP_START + Start(bs, i) + HEADER + need)
    requires Header(m', Start(bs, i) + HEADER + need, Block(bs[i].size - need - HEADER, true), NextOf(bs, i))
    ensures Lays(m', bs[..i] + Taken(bs[i], need) + bs[i + 1..])
  {
    hide Length, Header, U32At, Aligned;
    var a, k, k', c := bs[..i], bs[i..i + 1], Taken(bs[i], need), bs[i + 1..];
    Cut(bs, i, 1);
    assert k == [bs[i]];
    var r := a + k' + c;
    LengthOne(bs[i]);
    StartsStay(a, k, k', c, 0);
    StartsStay(a, k, k', c, i);
    StartStep(r, i);
    assert r[i] == k'[0] && r[i + 1] == k'[1];
    AlignedParts(a, k, c);
    AlignedOne(bs[i]);
    TakenAligned(bs[i], need);
    assert NextOf(r, i) == HEAP_START + Start(bs, i) + HEADER + need;
    assert HeaderOk(m', r, i);
    assert HeaderOk(m', r, i + 1);
    ReplaceLays(m, m', a, k, k', c);
  }

  function Merged(x: Block, y: Block): Block { Block(x.size + HEADER + y.size, true) }

  /** Blocks `i` and `i + 1` joined under the first header. */
  lemma {:induction false} MergeLays(m: seq<byte>, m': seq<byte>, bs: Blocks, i: nat)
    requires Lays(m, bs) && i + 1 < |bs|
    requires SameOutside(m, m', Start(bs, i), Start(bs, i) + HEADER) && Start(bs, i) + HEADER <= |m|
    requires Header(m', Start(bs, i), Merged(bs[i], bs[i + 1]), NextOf(bs, i + 1))
    ensures Lays(m', bs[..i] + [Merged(bs[i], bs[i + 1])] + bs[i + 2..])
  {
    hide Length;
    var b := Merged(bs[i], bs[i + 1]);
    var a, k, k', c := bs[..i], bs[i..i + 2], [b], bs[i + 2..];
    Cut(bs, i, 2);
    assert k == [bs[i]] + [bs[i + 1]];
    LengthConcat([bs[i]], [bs[i + 1]]);
    LengthOne(bs[i]);
    LengthOne(bs[i + 1]);
    LengthOne(b);
    var r := a + k' + c;
    StartsStay(a, k, k', c, 0);
    StartsStay(a, k, k', c, i);
    assert Aligned(k') by {
      assert bs[i].size % 4 == 0 && bs[i + 1].size % 4 == 0;
    }
    assert HeaderOk(m', r, i);
    ReplaceLays(m, m', a, k, k', c);
  }

  /** Every block, and so every payload, starts at a multiple of 4. */
  lemma {:induction false} StartAligned(bs: Blocks, i: nat)
    requires Aligned(bs) && i <= |bs|
    ensures Start(bs, i) % 4 == 0
    decreases i
  {
    if i == 0 {
      assert bs[..0] == [];
    } else {
      StartAligned(bs, i - 1);
      StartStep(bs, i - 1);
    }
  }

  // ---------- live bytes ----------

  /** Offset `k` lies in a live payload. */
  predicate InLive(live: set<(nat, nat)>, k: nat) { exists p :: p in live && p.0 <= k < p.0 + p.1 }

  /** No byte of a live payload differs. */
  predicate Kept(m: seq<byte>, m': seq<byte>, live: set<(nat, nat)>) {
    |m| == |m'| && forall k :: 0 <= k < |m| && InLive(live, k) ==> m'[k] == m[k]
  }

  lemma {:induction false} KeptInFree(m: seq<byte>, m': seq<byte>, bs: Blocks, i: nat, lo: nat, hi: nat)
    requires i < |bs| && bs[i].free && SameOutside(m, m', lo, hi)
    requires Start(bs, i) <= lo && hi <= Start(bs, i) + HEADER + bs[i].size
    ensures Kept(m, m', Live(bs))
  {
    hide LiveFrom, Length;
    FreeBlockIsClear(bs, i);
  }

  lemma {:induction false} KeptInHeader(m: seq<byte>, m': seq<byte>, bs: Blocks, i: nat)
    requires i < |bs| && SameOutside(m, m', Start(bs, i), Start(bs, i) + HEADER)
    ensures Kept(m, m', Live(bs))
  {
    hide LiveFrom, Length;
    forall k | 0 <= k < |m| && InLive(Live(bs), k) ensures m'[k] == m[k] {
      var p :| p in Live(bs) && p.0 <= k < p.0 + p.1;
      var j := LiveIndex(bs, 0, p.0, p.1);
      if i < j {
        StartOrder(bs, i, j);
      } else if j < i {
        StartOrder(bs, j, i);
      }
    }
  }

  /** Writes inside a live payload touch no header. */
  lemma {:induction false} PayloadLays(m: seq<byte>, m': seq<byte>, bs: Blocks, p: (nat, nat))
    requires Lays(m, bs) && p in Live(bs) && SameOutside(m, m', p.0, p.0 + p.1)
    ensures Lays(m', bs)
  {
    hide LiveFrom, Length, Header, U32At;
    var j := LiveIndex(bs, 0, p.0, p.1);
    forall i | 0 <= i < |bs| ensures HeaderOk(m', bs, i) {
      assert HeaderOk(m, bs, i);
      if i < j {
        StartOrder(bs, i, j);
      } else if j < i {
        StartOrder(bs, j, i);
      }
      HeaderFrame(m, m', Start(bs, i), bs[i], NextOf(bs, i));
    }
  }

  lemma {:induction false} PokeKeeps(m: seq<byte>, bs: Blocks, k: nat, v: byte)
    requires Lays(m, bs) && k < |m| && InLive(Live(bs), k)
    ensures Lays(m[k := v], bs)
  {
    hide LiveFrom, Length, Lays;
    var p :| p in Live(bs) && p.0 <= k < p.0 + p.1;
    PayloadLays(m, m[k := v], bs, p);
  }
}
