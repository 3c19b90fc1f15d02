/** The map as the bytes that ReadMap loads: one sector per zone, a four-byte header with the free
    pointer in bytes 1 and 2, then the allocation bits, lowest bit of each byte first. */
module MapBytes {
  import opened Arithmetic
  import opened Words
  import opened Bits
  import opened Geometry
  import opened ZoneClaim
  import opened DiscScan

  const MAP_BITS_OFFSET: nat := 4

  /** Bit k of a byte. */
  predicate BitOf(b: nat, k: nat)
    decreases k
  {
    if k == 0 then b % 2 == 1 else BitOf(b / 2, k - 1)
  }

  /** The byte that SetBit stores: bit k cleared, then the value put in. */
  function PutBit(b: nat, k: nat, v: bool): (r: nat)
    decreases k
  {
    if k == 0 then b / 2 * 2 + (if v then 1 else 0) else 2 * PutBit(b / 2, k - 1, v) + b % 2
  }

  lemma {:induction false} PutBitIs(b: nat, k: nat, v: bool, j: nat)
    ensures BitOf(PutBit(b, k, v), j) == if j == k then v else BitOf(b, j)
    decreases k
  {
    if k == 0 {
      assert j > 0 ==> PutBit(b, k, v) / 2 == b / 2;
    } else {
      assert PutBit(b, k, v) / 2 == PutBit(b / 2, k - 1, v);
      if j > 0 {
        PutBitIs(b / 2, k - 1, v, j - 1);
      }
    }
  }

  lemma {:induction false} PutBitBound(b: nat, k: nat, v: bool, n: nat)
    requires b < Pow2(n) && k < n
    ensures PutBit(b, k, v) < Pow2(n)
    decreases k
  {
    var half := Pow2(n - 1);
    assert Pow2(n) == 2 * half && b / 2 < half;
    if k > 0 {
      PutBitBound(b / 2, k - 1, v, n - 1);
    }
  }

  lemma PutBitByte(b: byte, k: nat, v: bool)
    requires k < 8
    ensures PutBit(b, k, v) < 0x100
  {
    assert Pow2(4) == 16;
    assert Pow2(8) == 0x100;
    PutBitBound(b, k, v, 8);
  }

  ghost predicate Loaded(g: Geo, b: seq<byte>) {
    g.Ok() && |b| == g.nzones * g.SecSize()
  }

  /** Byte i of a zone's sector is a byte of the map, and of no other zone. */
  lemma ZoneBytes(g: Geo, b: seq<byte>, z: nat)
    requires Loaded(g, b) && z < g.nzones
    ensures 0 <= z * g.SecSize() && z * g.SecSize() + g.SecSize() <= |b|
    ensures MAP_BITS_OFFSET * 8 + g.ZoneBits() <= 8 * g.SecSize() && g.SecSize() >= 4
  {
    MulGap(z, g.nzones, g.SecSize());
  }

  /** The byte that holds allocation bit i of zone z. */
  function ByteOf(g: Geo, b: seq<byte>, z: nat, i: nat): (n: nat)
    requires Loaded(g, b) && z < g.nzones && i < g.ZoneBits()
    ensures z * g.SecSize() + MAP_BITS_OFFSET <= n < z * g.SecSize() + g.SecSize() && n < |b|
  {
    ZoneBytes(g, b, z);
    z * g.SecSize() + MAP_BITS_OFFSET + i / 8
  }

  function HeadWord(lo: byte, hi: byte): (h: nat)
    ensures h < 0x1_0000
  {
    lo + 0x100 * hi
  }

  function HeadOf(g: Geo, b: seq<byte>, z: nat): (h: nat)
    requires Loaded(g, b) && z < g.nzones
    ensures h < 0x1_0000
  {
    ZoneBytes(g, b, z);
    HeadWord(b[z * g.SecSize() + 1], b[z * g.SecSize() + 2])
  }

  function ViewOf(g: Geo, b: seq<byte>, z: nat): (v: ZoneView)
    requires Loaded(g, b) && z < g.nzones
    ensures ViewOk(g, v)
  {
    ZoneView(HeadOf(g, b, z),
             seq(g.ZoneBits(), i requires 0 <= i < g.ZoneBits() => BitOf(b[ByteOf(g, b, z, i)], i % 8)))
  }

  lemma ViewBit(g: Geo, b: seq<byte>, z: nat, i: nat)
    requires Loaded(g, b) && z < g.nzones && i < g.ZoneBits()
    ensures ViewOf(g, b, z).bits[i] == BitOf(b[ByteOf(g, b, z, i)], i % 8)
  {
  }

  function ViewsOf(g: Geo, b: seq<byte>): (vs: seq<ZoneView>)
    requires Loaded(g, b)
    ensures ViewsOk(g, vs)
    ensures forall z :: 0 <= z < g.nzones ==> vs[z] == ViewOf(g, b, z)
  {
    seq(g.nzones, z requires 0 <= z < g.nzones => ViewOf(g, b, z))
  }

  /** A byte outside the sector of a zone does not matter to it. */
  lemma ViewLocal(g: Geo, b: seq<byte>, b': seq<byte>, z: nat)
    requires Loaded(g, b) && Loaded(g, b') && z < g.nzones
    requires forall n :: z * g.SecSize() <= n < z * g.SecSize() + g.SecSize() && n < |b| ==> b'[n] == b[n]
    ensures ViewOf(g, b', z) == ViewOf(g, b, z)
  {
    ZoneBytes(g, b, z);
    var v, v' := ViewOf(g, b, z), ViewOf(g, b', z);
    forall i | 0 <= i < g.ZoneBits() ensures v'.bits[i] == v.bits[i] {
      var n := ByteOf(g, b, z, i);
      ViewBit(g, b, z, i);
      ViewBit(g, b', z, i);
      assert n == ByteOf(g, b', z, i) && b'[n] == b[n];
    }
  }

  /** Changing bytes of one sector changes the view of its zone only. */
  lemma ViewsUpdate(g: Geo, b: seq<byte>, b': seq<byte>, z: nat)
    requires Loaded(g, b) && Loaded(g, b') && z < g.nzones
    requires forall n :: 0 <= n < |b| && !(z * g.SecSize() <= n < z * g.SecSize() + g.SecSize()) ==> b'[n] == b[n]
    ensures ViewsOf(g, b') == ViewsOf(g, b)[z := ViewOf(g, b', z)]
  {
    forall y | 0 <= y < g.nzones && y != z ensures ViewOf(g, b', y) == ViewOf(g, b, y) {
      ZoneBytes(g, b, y);
      ZoneBytes(g, b, z);
      if y < z {
        MulGap(y, z, g.SecSize());
      } else {
        MulGap(z, y, g.SecSize());
      }
      ViewLocal(g, b, b', y);
    }
  }

  /** Storing one allocation bit. */
  lemma BitUpdate(g: Geo, b: seq<byte>, z: nat, i: nat, x: bool)
    requires Loaded(g, b) && z < g.nzones && i < g.ZoneBits()
    ensures var n := ByteOf(g, b, z, i);
            && PutBit(b[n], i % 8, x) < 0x100
            && var b' := b[n := PutBit(b[n], i % 8, x)];
            && Loaded(g, b')
            && ViewsOf(g, b') == ViewsOf(g, b)[z := ViewOf(g, b, z).(bits := ViewOf(g, b, z).bits[i := x])]
  {
    hide PutBit, BitOf, Geo.Ok, ViewsOf;
    var n := ByteOf(g, b, z, i);
    PutBitByte(b[n], i % 8, x);
    var b': seq<byte> := b[n := PutBit(b[n], i % 8, x)];
    ViewsUpdate(g, b, b', z);
    ZoneBytes(g, b, z);
    var v, v' := ViewOf(g, b, z), ViewOf(g, b', z);
    forall j | 0 <= j < g.ZoneBits() ensures v'.bits[j] == v.bits[i := x][j] {
      var nj := ByteOf(g, b, z, j);
      ViewBit(g, b, z, j);
      ViewBit(g, b', z, j);
      assert nj == ByteOf(g, b', z, j);
      if nj == n {
        PutBitIs(b[n], i % 8, x, j % 8);
      }
    }
    assert v'.bits == v.bits[i := x];
  }

  /** Storing the two bytes of the free pointer. */
  lemma HeadUpdate(g: Geo, b: seq<byte>, b': seq<byte>, z: nat, lo: byte, hi: byte)
    requires Loaded(g, b) && z < g.nzones
    requires var s := z * g.SecSize(); s + 2 < |b| && b' == b[s + 1 := lo][s + 2 := hi]
    ensures Loaded(g, b')
    ensures ViewsOf(g, b') == ViewsOf(g, b)[z := ViewOf(g, b, z).(head := HeadWord(lo, hi))]
  {
    hide HeadWord, BitOf, Geo.Ok, ViewsOf;
    ZoneBytes(g, b, z);
    ViewsUpdate(g, b, b', z);
    var v, v' := ViewOf(g, b, z), ViewOf(g, b', z);
    forall j | 0 <= j < g.ZoneBits() ensures v'.bits[j] == v.bits[j] {
      ViewBit(g, b, z, j);
      ViewBit(g, b', z, j);
      assert ByteOf(g, b, z, j) == ByteOf(g, b', z, j);
    }
    assert v'.bits == v.bits;
  }
}
