/** Bytes, little-endian 32-bit words and overwriting, as the on-disc formats use them. */
module Words {

  type byte = x: nat | x < 0x100

  datatype Option<T> = None | Some(value: T)

  const WORD: nat := 0x1_0000_0000   // one more than the largest 32-bit value

  function U32(f: seq<byte>, p: nat): (v: nat)
    requires p + 4 <= |f|
    ensures v < WORD
  {
    var a: int, b: int, c: int, d: int := f[p], f[p + 1], f[p + 2], f[p + 3];
    a + 0x100 * b + 0x1_0000 * c + 0x100_0000 * d
  }

  function Enc32(v: nat): (e: seq<byte>)
    requires v < WORD
    ensures |e| == 4
  {
    [v % 0x100, v / 0x100 % 0x100, v / 0x1_0000 % 0x100, v / 0x100_0000]
  }

  lemma Dec32(v: nat)
    requires v < WORD
    ensures U32(Enc32(v), 0) == v
  {
    var a, b, c := v / 0x100, v / 0x1_0000, v / 0x100_0000;
    assert v == v % 0x100 + 0x100 * a;
    assert a == a % 0x100 + 0x100 * (a / 0x100) && a / 0x100 == b;
    assert b == b % 0x100 + 0x100 * (b / 0x100) && b / 0x100 == c;
  }

  lemma U32Local(f: seq<byte>, p: nat, f': seq<byte>, p': nat)
    requires p + 4 <= |f| && p' + 4 <= |f'| && f[p..p + 4] == f'[p'..p' + 4]
    ensures U32(f, p) == U32(f', p')
  {
    var w, w' := f[p..p + 4], f'[p'..p' + 4];
    assert f[p] == w[0] && f[p + 1] == w[1] && f[p + 2] == w[2] && f[p + 3] == w[3];
    assert f'[p'] == w'[0] && f'[p' + 1] == w'[1] && f'[p' + 2] == w'[2] && f'[p' + 3] == w'[3];
  }

  /** The bytes with data written over the bytes from p on. */
  function Patch(f: seq<byte>, p: nat, data: seq<byte>): (r: seq<byte>)
    requires p + |data| <= |f|
    ensures |r| == |f|
    ensures forall i :: 0 <= i < |f| ==> r[i] == if p <= i < p + |data| then data[i - p] else f[i]
  {
    f[..p] + data + f[p + |data|..]
  }

  /** A word outside the patch keeps its value. */
  lemma PatchSpares(f: seq<byte>, p: nat, data: seq<byte>, q: nat)
    requires p + |data| <= |f| && q + 4 <= |f| && (q + 4 <= p || p + |data| <= q)
    ensures U32(Patch(f, p, data), q) == U32(f, q)
  {
    var g := Patch(f, p, data);
    assert g[q..q + 4] == f[q..q + 4];
    U32Local(g, q, f, q);
  }
}
