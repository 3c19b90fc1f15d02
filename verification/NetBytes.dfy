/** Big-endian numbers and addresses, as the network formats use them. */
module NetBytes {
  import opened Regions
  import opened Words

  type Address = a: seq<byte> | |a| == 4 witness [0, 0, 0, 0]

  function Pair(high: nat, low: nat): (r: nat)
    ensures high < 0x100 && low < 0x100 ==> r < 0x1_0000
  {
    high * 0x100 + low
  }

  /** The two bytes of a 16-bit value, high byte first. */
  function Be16(v: nat): (e: seq<byte>)
    requires v < 0x1_0000
    ensures |e| == 2
  {
    [v / 0x100, v % 0x100]
  }

  function Be32(v: nat): (e: seq<byte>)
    requires v < WORD
    ensures |e| == 4
  {
    [v / 0x100_0000, v / 0x1_0000 % 0x100, v / 0x100 % 0x100, v % 0x100]
  }

  function U16(f: seq<byte>, p: nat): (v: nat)
    requires p + 2 <= |f|
    ensures v < 0x1_0000
  {
    Pair(f[p], f[p + 1])
  }

  function U32be(f: seq<byte>, p: nat): (v: nat)
    requires p + 4 <= |f|
    ensures v < WORD
  {
    var a: int, b: int, c: int, d: int := f[p], f[p + 1], f[p + 2], f[p + 3];
    a * 0x100_0000 + b * 0x1_0000 + c * 0x100 + d
  }

  lemma U16At(f: seq<byte>, p: nat, v: nat)
    requires v < 0x1_0000 && At(f, p, Be16(v))
    ensures p + 2 <= |f| && U16(f, p) == v
  {
    assert f[p] == f[p..p + 2][0] && f[p + 1] == f[p..p + 2][1];
  }

  lemma U32At(f: seq<byte>, p: nat, v: nat)
    requires v < WORD && At(f, p, Be32(v))
    ensures p + 4 <= |f| && U32be(f, p) == v
  {
    var w := f[p..p + 4];
    assert f[p] == w[0] && f[p + 1] == w[1] && f[p + 2] == w[2] && f[p + 3] == w[3];
    var a, b, c := v / 0x100, v / 0x1_0000, v / 0x100_0000;
    assert v == v % 0x100 + 0x100 * a;
    assert a == a % 0x100 + 0x100 * b && a / 0x100 == b;
    assert b == b % 0x100 + 0x100 * c && b / 0x100 == c;
  }
}
