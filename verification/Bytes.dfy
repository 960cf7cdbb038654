/** Bytes, 32-bit words and their little-endian encoding on the i686 target. */
module Bytes {

  type byte = x: int | 0 <= x < 256

  const WORD_LIMIT := 0x1_0000_0000

  type u32 = x: int | 0 <= x < 0x1_0000_0000

  /** The four little-endian bytes of a word. */
  function U32Bytes(w: u32): (b: seq<byte>)
    ensures |b| == 4
  {
    var (a, b, c) := (w / 256, w / 256 / 256, w / 256 / 256 / 256);
    [w % 256, a % 256, b % 256, c]
  }

  /** The word stored at offset `o`. */
  function U32At(b: seq<byte>, o: nat): u32
    requires o + 4 <= |b|
  {
    b[o] as int + 0x100 * (b[o + 1] as int) + 0x1_0000 * (b[o + 2] as int) + 0x100_0000 * (b[o + 3] as int)
  }

  /** `s` with the bytes from offset `o` on replaced by `t`. */
  function Splice(s: seq<byte>, o: nat, t: seq<byte>): (r: seq<byte>)
    requires o + |t| <= |s|
    ensures |r| == |s|
    ensures forall k :: 0 <= k < |s| ==> r[k] == if o <= k < o + |t| then t[k - o] else s[k]
  {
    s[..o] + t + s[o + |t|..]
  }

  lemma {:induction false} U32RoundTrip(w: u32, b: seq<byte>, o: nat)
    requires o + 4 <= |b|
    requires b[o..o + 4] == U32Bytes(w)
    ensures U32At(b, o) == w
  {
    assert b[o] == b[o..o + 4][0] && b[o + 1] == b[o..o + 4][1];
    assert b[o + 2] == b[o..o + 4][2] && b[o + 3] == b[o..o + 4][3];
  }

  /** Least significant byte first. */
  lemma {:induction false} LittleEndian(w: u32)
    ensures
      var b := U32Bytes(w);
      w == b[0] as int + 0x100 * (b[1] as int) + 0x1_0000 * (b[2] as int) + 0x100_0000 * (b[3] as int)
    ensures U32Bytes(0x0403_0201) == [1, 2, 3, 4]
  {
    var b := U32Bytes(w);
    assert b[0..4] == b;
    U32RoundTrip(w, b, 0);
  }

  lemma {:induction false} BytesOfWord(b: seq<byte>, o: nat)
    requires o + 4 <= |b|
    ensures U32Bytes(U32At(b, o)) == b[o..o + 4]
  {
    var w := U32At(b, o);
    var r := b[o + 1] as int + 0x100 * (b[o + 2] as int) + 0x1_0000 * (b[o + 3] as int);
    assert w == b[o] as int + 0x100 * r && w / 256 == r && w % 256 == b[o];
    assert r / 256 == b[o + 2] as int + 0x100 * (b[o + 3] as int) && r % 256 == b[o + 1];
  }

  /** The bytes of a word array, as C lays it out. */
  function WordsBytes(ws: seq<u32>): (b: seq<byte>)
    ensures |b| == 4 * |ws|
  {
    seq(4 * |ws|, i requires 0 <= i < 4 * |ws| => U32Bytes(ws[i / 4])[i % 4])
  }

  /** The array of `n` words starting at offset `o`. */
  function WordsAt(b: seq<byte>, o: nat, n: nat): (ws: seq<u32>)
    requires o + 4 * n <= |b|
    ensures |ws| == n
  {
    seq(n, i requires 0 <= i < n => U32At(b, o + 4 * i))
  }

  lemma {:induction false} WordBytesAt(ws: seq<u32>, i: nat)
    requires i < |ws|
    ensures WordsBytes(ws)[4 * i..4 * i + 4] == U32Bytes(ws[i])
  {
    var e := WordsBytes(ws);
    forall k | 0 <= k < 4 ensures e[4 * i + k] == U32Bytes(ws[i])[k] {
      assert (4 * i + k) / 4 == i && (4 * i + k) % 4 == k;
    }
  }

  lemma {:induction false} SliceOfSlice<T>(s: seq<T>, a: nat, b: nat, c: nat, d: nat)
    requires a <= b <= |s| && c <= d <= b - a
    ensures s[a..b][c..d] == s[a + c..a + d]
  {
    var r, q := s[a..b][c..d], s[a + c..a + d];
    assert |r| == |q| == d - c;
    assert forall k :: 0 <= k < d - c ==> r[k] == s[a..b][c + k] == s[a + c + k] == q[k];
  }

  lemma {:induction false} SubsetSize<T>(a: set<T>, b: set<T>)
    requires a <= b
    ensures |a| <= |b|
  {
    assert b == a + (b - a);
  }

  lemma {:induction false} WordRoundTrip(ws: seq<u32>, b: seq<byte>, o: nat, i: nat)
    requires o + 4 * |ws| <= |b| && i < |ws|
    requires b[o..o + 4 * |ws|] == WordsBytes(ws)
    ensures U32At(b, o + 4 * i) == ws[i]
  {
    WordBytesAt(ws, i);
    SliceOfSlice(b, o, o + 4 * |ws|, 4 * i, 4 * i + 4);
    U32RoundTrip(ws[i], b, o + 4 * i);
  }

  lemma {:induction false} WordsRoundTrip(ws: seq<u32>, b: seq<byte>, o: nat)
    requires o + 4 * |ws| <= |b|
    requires b[o..o + 4 * |ws|] == WordsBytes(ws)
    ensures WordsAt(b, o, |ws|) == ws
  {
    forall i | 0 <= i < |ws| ensures WordsAt(b, o, |ws|)[i] == ws[i] {
      WordRoundTrip(ws, b, o, i);
    }
  }
}
