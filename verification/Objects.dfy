/** discreader/Objects.c: loading, saving and copying objects through their chunk lists. */
module DiscObjects {
  import opened Arithmetic
  import opened Words
  import opened Bits
  import opened Geometry
  import opened MapScan
  import opened MapChain
  import opened MapObjects
  import opened ZoneClaim
  import opened DiscScan

  /** Allocation unit that a map bit stands for. */
  function LfauNo(g: Geo, zone: nat, bit: nat): int {
    zone * g.ZoneBits() + bit - DISC_RECORD_BITS
  }

  /** MapAddr: the sector of a map bit, in 32-bit arithmetic. */
  function MapAddr(g: Geo, zone: nat, bit: nat): (a: nat) {
    var lfauno := LfauNo(g, zone, bit) % WORD;
    if g.log2bpmb > g.log2secsize then lfauno * Pow2(g.log2bpmb - g.log2secsize) % WORD
    else lfauno / Pow2(g.log2secsize - g.log2bpmb)
  }

  /** SinAddr: the sector an object address stands for; 0 if there is no such object. */
  function SinAddr(g: Geo, s: Store, sin: nat): (a: nat)
    requires forall id :: id in s ==> s[id] != []
  {
    var id, low := sin / 0x100, sin % 0x100;
    if id >= Pow2(g.idlen) || id !in s then 0
    else
      var l := s[id];
      var c := if id == 2 && |l| > 1 then l[1] else l[0];
      (MapAddr(g, c.zone, c.start) + (if low > 1 then (low - 1) * Pow2(g.shareSize) else 0)) % WORD
  }

  /** Discs on which an allocation unit is at least a sector and all sectors have 32-bit numbers. */
  ghost predicate Addressable(g: Geo) {
    && g.Ok() && g.log2bpmb >= g.log2secsize
    && g.nzones * g.ZoneBits() * Pow2(g.log2bpmb - g.log2secsize) < WORD
  }

  // ----- From chunks to byte ranges

  function ByteAddr(g: Geo, c: Chunk): int { LfauNo(g, c.zone, c.start) * g.Bpmb() }

  function ByteLen(g: Geo, c: Chunk): int { c.len * g.Bpmb() }

  /** The chunk is a fragment of its zone. */
  ghost predicate InZone(g: Geo, c: Chunk) {
    && c.zone < g.nzones && g.FirstBit(c.zone) <= c.start && c.start + c.len <= g.ZoneBits() && c.len > 0
  }

  lemma {:induction false} Pow2Split(a: nat, b: nat)
    requires b <= a
    ensures Pow2(a - b) * Pow2(b) == Pow2(a)
    decreases b
  {
    if b > 0 {
      Pow2Split(a - 1, b - 1);
      assert Pow2(a - b) * (2 * Pow2(b - 1)) == 2 * (Pow2(a - b) * Pow2(b - 1));
    }
  }

  lemma LfauBounds(g: Geo, c: Chunk)
    requires g.Ok() && InZone(g, c)
    ensures 0 <= LfauNo(g, c.zone, c.start) && LfauNo(g, c.zone, c.start) + c.len <= g.nzones * g.ZoneBits()
  {
    MulGap(c.zone, g.nzones, g.ZoneBits());
    if c.zone > 0 {
      MulGap(0, c.zone, g.ZoneBits());
    }
  }

  lemma SmallMod(n: nat)
    requires n < WORD
    ensures n % WORD == n
  {
  }

  lemma MapAddrSectors(g: Geo, c: Chunk)
    requires Addressable(g) && InZone(g, c)
    ensures LfauNo(g, c.zone, c.start) >= 0
    ensures MapAddr(g, c.zone, c.start) == LfauNo(g, c.zone, c.start) * Pow2(g.log2bpmb - g.log2secsize)
  {
    hide Pow2, LfauNo, Geo.ZoneBits;
    LfauBounds(g, c);
    PowerOfZero();
    var n, p, m := LfauNo(g, c.zone, c.start), Pow2(g.log2bpmb - g.log2secsize), g.nzones * g.ZoneBits();
    var x := n * p;
    MulMonotone(n, m, p);
    SmallMod(n);
    SmallMod(x);
  }

  lemma MapAddrSmall(g: Geo, c: Chunk)
    ensures MapAddr(g, c.zone, c.start) < WORD
  {
    var lfauno, p := LfauNo(g, c.zone, c.start) % WORD, Pow2(g.log2secsize);
    if g.log2bpmb <= g.log2secsize {
      DivShrinks(lfauno, Pow2(g.log2secsize - g.log2bpmb));
    }
  }

  lemma DivShrinks(n: nat, d: nat)
    requires d > 0
    ensures n / d <= n
  {
    assert n == n / d * d + n % d;
    MulMonotone(1, d, n / d);
  }

  lemma PowerOfZero()
    ensures Pow2(0) == 1
  {
  }

  lemma Regroup(n: nat, p: nat, q: nat, r: nat)
    requires p * q == r
    ensures n * p * q == n * r
  {
  }

  /** The sector address of a chunk is its byte address in whole sectors. */
  lemma MapAddrBytes(g: Geo, c: Chunk)
    requires Addressable(g) && InZone(g, c)
    ensures MapAddr(g, c.zone, c.start) * g.SecSize() == ByteAddr(g, c) >= 0
  {
    hide Pow2, MapAddr, Geo.Ok;
    MapAddrSectors(g, c);
    Pow2Split(g.log2bpmb, g.log2secsize);
    assert LfauNo(g, c.zone, c.start) >= 0 by { LfauBounds(g, c); }
    Regroup(LfauNo(g, c.zone, c.start), Pow2(g.log2bpmb - g.log2secsize), Pow2(g.log2secsize), Pow2(g.log2bpmb));
  }

  /** a lies before b on the disc. */
  ghost predicate Before(a: Chunk, b: Chunk) {
    a.zone < b.zone || (a.zone == b.zone && a.start + a.len <= b.start)
  }

  lemma BeforeUnits(g: Geo, a: Chunk, b: Chunk)
    requires g.Ok() && InZone(g, a) && InZone(g, b) && Before(a, b)
    ensures 0 <= LfauNo(g, a.zone, a.start)
    ensures LfauNo(g, a.zone, a.start) + a.len <= LfauNo(g, b.zone, b.start)
  {
    LfauBounds(g, a);
    if a.zone < b.zone {
      MulGap(a.zone, b.zone, g.ZoneBits());
    }
  }

  lemma BeforeBytes(g: Geo, a: Chunk, b: Chunk)
    requires g.Ok() && InZone(g, a) && InZone(g, b) && Before(a, b)
    ensures ByteAddr(g, a) + ByteLen(g, a) <= ByteAddr(g, b)
  {
    hide Geo.Ok, InZone, LfauNo, Geo.Bpmb;
    BeforeUnits(g, a, b);
    var la, lb := LfauNo(g, a.zone, a.start), LfauNo(g, b.zone, b.start);
    MulMonotone(la + a.len, lb, g.Bpmb());
    assert (la + a.len) * g.Bpmb() == la * g.Bpmb() + a.len * g.Bpmb();
  }

  // ----- The bytes of an object

  ghost predicate Apart(g: Geo, a: Chunk, b: Chunk) {
    ByteAddr(g, a) + ByteLen(g, a) <= ByteAddr(g, b) || ByteAddr(g, b) + ByteLen(g, b) <= ByteAddr(g, a)
  }

  /** The chunks lie on the disc image. */
  ghost predicate OnDisc(g: Geo, disc: seq<byte>, cs: seq<Chunk>) {
    forall c :: c in cs ==> 0 <= ByteAddr(g, c) && 0 < ByteLen(g, c) && ByteAddr(g, c) + ByteLen(g, c) <= |disc|
  }

  ghost predicate PairwiseApart(g: Geo, cs: seq<Chunk>) {
    forall i, j :: 0 <= i < j < |cs| ==> Apart(g, cs[i], cs[j])
  }

  function Min(a: int, b: int): int { if a < b then a else b }

  function Capacity(g: Geo, cs: seq<Chunk>): int {
    if cs == [] then 0 else ByteLen(g, cs[0]) + Capacity(g, cs[1..])
  }

  /** The first size bytes of the chunks, in list order. */
  function ObjectBytes(g: Geo, disc: seq<byte>, cs: seq<Chunk>, size: nat): (r: seq<byte>)
    requires OnDisc(g, disc, cs)
    decreases |cs|
  {
    if cs == [] || size == 0 then []
    else
      assert cs[0] in cs;
      var a, n := ByteAddr(g, cs[0]), Min(ByteLen(g, cs[0]), size);
      disc[a..a + n] + ObjectBytes(g, disc, cs[1..], size - n)
  }

  /** The disc after buf was stored in the chunks, in list order, as far as they reach. */
  function Written(g: Geo, disc: seq<byte>, cs: seq<Chunk>, buf: seq<byte>): (r: seq<byte>)
    requires OnDisc(g, disc, cs)
    ensures |r| == |disc|
    decreases |cs|
  {
    if cs == [] || buf == [] then disc
    else
      assert cs[0] in cs;
      var a, n := ByteAddr(g, cs[0]), Min(ByteLen(g, cs[0]), |buf|);
      Written(g, Patch(disc, a, buf[..n]), cs[1..], buf[n..])
  }

  /** Bytes outside the chunks stay. */
  lemma {:induction false} WrittenFrame(g: Geo, disc: seq<byte>, cs: seq<Chunk>, buf: seq<byte>, i: nat)
    requires OnDisc(g, disc, cs) && i < |disc|
    requires forall c :: c in cs ==> i < ByteAddr(g, c) || ByteAddr(g, c) + ByteLen(g, c) <= i
    ensures Written(g, disc, cs, buf)[i] == disc[i]
    decreases |cs|
  {
    if cs != [] && buf != [] {
      hide ByteAddr, ByteLen;
      assert cs[0] in cs;
      var a, n := ByteAddr(g, cs[0]), Min(ByteLen(g, cs[0]), |buf|);
      WrittenFrame(g, Patch(disc, a, buf[..n]), cs[1..], buf[n..], i);
    }
  }

  /** An object none of whose chunks was written reads as before. */
  lemma {:induction false} OtherObject(g: Geo, disc: seq<byte>, cs: seq<Chunk>, buf: seq<byte>, other: seq<Chunk>, size: nat)
    requires OnDisc(g, disc, cs) && OnDisc(g, disc, other)
    requires forall c, o :: c in cs && o in other ==> Apart(g, c, o)
    ensures ObjectBytes(g, Written(g, disc, cs, buf), other, size) == ObjectBytes(g, disc, other, size)
    decreases |other|
  {
    if other != [] && size > 0 {
      hide ByteAddr, ByteLen, Written;
      assert other[0] in other;
      var a, n := ByteAddr(g, other[0]), Min(ByteLen(g, other[0]), size);
      var disc' := Written(g, disc, cs, buf);
      forall i | a <= i < a + n ensures disc'[i] == disc[i] {
        forall c | c in cs ensures i < ByteAddr(g, c) || ByteAddr(g, c) + ByteLen(g, c) <= i {
          assert Apart(g, c, other[0]);
        }
        WrittenFrame(g, disc, cs, buf, i);
      }
      assert disc'[a..a + n] == disc[a..a + n];
      OtherObject(g, disc, cs, buf, other[1..], size - n);
    }
  }

  lemma {:induction false} CapacityNonneg(g: Geo, disc: seq<byte>, cs: seq<Chunk>)
    requires OnDisc(g, disc, cs)
    ensures Capacity(g, cs) >= 0
    decreases |cs|
  {
    if cs != [] {
      assert cs[0] in cs;
      CapacityNonneg(g, disc, cs[1..]);
    }
  }

  /** Later chunks do not disturb the bytes stored in the first one. */
  lemma FirstPiece(g: Geo, disc: seq<byte>, c0: Chunk, rest: seq<Chunk>, head: seq<byte>, tail: seq<byte>)
    requires OnDisc(g, disc, [c0]) && OnDisc(g, disc, rest)
    requires forall c :: c in rest ==> Apart(g, c0, c)
    requires c0 in [c0] && |head| <= ByteLen(g, c0)
    ensures var a := ByteAddr(g, c0);
            && a >= 0 && a + |head| <= |disc|
            && Written(g, Patch(disc, a, head), rest, tail)[a..a + |head|] == head
  {
    hide ByteAddr, ByteLen, Written;
    var a := ByteAddr(g, c0);
    var disc1 := Patch(disc, a, head);
    var disc' := Written(g, disc1, rest, tail);
    forall i | a <= i < a + |head| ensures disc'[i] == head[i - a] {
      forall c | c in rest ensures i < ByteAddr(g, c) || ByteAddr(g, c) + ByteLen(g, c) <= i {
        assert Apart(g, c0, c);
      }
      WrittenFrame(g, disc1, rest, tail, i);
    }
  }

  lemma WrittenStep(g: Geo, disc: seq<byte>, cs: seq<Chunk>, buf: seq<byte>)
    requires OnDisc(g, disc, cs) && cs != [] && buf != []
    ensures var a, n := ByteAddr(g, cs[0]), Min(ByteLen(g, cs[0]), |buf|);
            && cs[0] in cs && 0 <= a && 0 <= n <= |buf| && a + n <= |disc|
            && Written(g, disc, cs, buf) == Written(g, Patch(disc, a, buf[..n]), cs[1..], buf[n..])
  {
    assert cs[0] in cs;
  }

  /** What was saved is what is loaded. */
  lemma {:induction false} SaveThenLoad(g: Geo, disc: seq<byte>, cs: seq<Chunk>, buf: seq<byte>)
    requires OnDisc(g, disc, cs) && PairwiseApart(g, cs) && |buf| <= Capacity(g, cs)
    ensures ObjectBytes(g, Written(g, disc, cs, buf), cs, |buf|) == buf
    decreases |cs|
  {
    hide ByteAddr, ByteLen, Apart, Patch, Written, ObjectBytes;
    if buf == [] {
      assert ObjectBytes(g, Written(g, disc, cs, buf), cs, 0) == [] by {
        ObjectEmpty(g, Written(g, disc, cs, buf));
      }
    } else {
      assert cs[0] in cs;
      var a, n := ByteAddr(g, cs[0]), Min(ByteLen(g, cs[0]), |buf|);
      CapacityNonneg(g, disc, cs[1..]);
      WrittenStep(g, disc, cs, buf);
      SaveThenLoad(g, Patch(disc, a, buf[..n]), cs[1..], buf[n..]);
      FirstPiece(g, disc, cs[0], cs[1..], buf[..n], buf[n..]);
      var disc' := Written(g, disc, cs, buf);
      assert |buf[n..]| == |buf| - n && ObjectBytes(g, disc', cs[1..], |buf| - n) == buf[n..];
      assert cs[0..] == cs;
      ObjectStep(g, disc', cs, 0, |buf|);
      assert buf == buf[..n] + buf[n..];
    }
  }

  // ----- Chunk lists of a scanned map

  lemma {:induction false} UsedBounds(fs: seq<Frag>, p: nat, end: nat, min: nat, off: nat, discEnd: nat)
    requires Tiles(fs, p, end, min)
    ensures FragsOrdered(UsedOf(fs, off, discEnd), p, end, min)
    decreases |fs|
  {
    if fs != [] {
      TilesNonneg(fs[1..], fs[0].End(), end, min);
      var off' := if fs[0].start == off then off + fs[0].id else off;
      UsedBounds(fs[1..], fs[0].End(), end, min, off', discEnd);
      var u := UsedOf(fs[1..], off', discEnd);
      ConsOrdered(fs[0], u, end, min);
    }
  }

  ghost predicate FragsOrdered(us: seq<Frag>, p: nat, end: nat, min: nat) {
    && (forall i :: 0 <= i < |us| ==> p <= us[i].start && us[i].End() <= end && us[i].len >= min)
    && (forall i, j :: 0 <= i < j < |us| ==> us[i].End() <= us[j].start)
  }

  lemma ConsOrdered(f: Frag, us: seq<Frag>, end: nat, min: nat)
    requires FragsOrdered(us, f.End(), end, min) && f.len >= min && f.End() <= end
    ensures FragsOrdered([f] + us, f.start, end, min) && FragsOrdered(us, f.start, end, min)
  {
  }

  /** The used fragments of one zone. */
  lemma ZoneUsedOrdered(g: Geo, z: nat, v: ZoneView)
    requires ViewOk(g, v) && z < g.nzones
    ensures var us := TagUsed(z, ZoneUsed(g, z, v));
            && (forall i :: 0 <= i < |us| ==> InZone(g, us[i].chunk) && us[i].chunk.zone == z)
            && (forall i, j :: 0 <= i < j < |us| ==> Before(us[i].chunk, us[j].chunk))
  {
    hide Geo.Ok, UsedOf, Fragments, HeadOff, Geo.DiscEnd;
    ZoneFreeBounds(g, z, v);
    UsedBounds(Frags(g, z, v), g.FirstBit(z), |v.bits|, g.idlen + 1, HeadOff(v.head), g.DiscEnd());
  }

  /** us lists fragments of the first hi zones in disc order without overlap. */
  ghost predicate InDiscOrder(g: Geo, us: seq<Used>, hi: nat) {
    && (forall i :: 0 <= i < |us| ==> InZone(g, us[i].chunk) && us[i].chunk.zone < hi)
    && (forall i, j :: 0 <= i < j < |us| ==> Before(us[i].chunk, us[j].chunk))
  }

  /** The used fragments of the disc, in scan order, lie in disc order without overlap. */
  lemma {:induction false} DiscUsedOrdered(g: Geo, vs: seq<ZoneView>, hi: nat)
    requires ViewsOk(g, vs) && hi <= |vs|
    ensures InDiscOrder(g, DiscUsed(g, vs, 0, hi), hi)
    decreases hi
  {
    if hi > 0 {
      hide Geo.Ok, ZoneUsed, InZone;
      DiscUsedOrdered(g, vs, hi - 1);
      ZoneUsedOrdered(g, hi - 1, vs[hi - 1]);
    }
  }

  lemma {:induction false} SelectMember(us: seq<Used>, id: nat, c: Chunk)
    requires c in Select(us, id)
    ensures exists i :: 0 <= i < |us| && us[i] == Used(id, c)
    decreases |us|
  {
    var n := |us| - 1;
    if c in Select(us[..n], id) {
      SelectMember(us[..n], id, c);
    } else {
      assert us[n] == Used(id, c);
    }
  }

  /** The chunks of one object, in scan order, lie in disc order without overlap. */
  lemma {:induction false} SelectOrdered(g: Geo, us: seq<Used>, hi: nat, id: nat)
    requires InDiscOrder(g, us, hi)
    ensures var cs := Select(us, id);
            && (forall i :: 0 <= i < |cs| ==> InZone(g, cs[i]))
            && (forall i, j :: 0 <= i < j < |cs| ==> Before(cs[i], cs[j]))
            && Ascending(cs)
    decreases |us|
  {
    if us != [] {
      hide InZone;
      var n := |us| - 1;
      SelectOrdered(g, us[..n], hi, id);
      var q := Select(us[..n], id);
      forall i | 0 <= i < |q| ensures Before(q[i], us[n].chunk) {
        assert q[i] in q;
        SelectMember(us[..n], id, q[i]);
      }
    }
  }

  /** The chunk list of an object in the store of a scanned map. */
  lemma StoreList(g: Geo, us: seq<Used>, hi: nat, id: nat)
    requires g.IdsPerZone() > 0 && InDiscOrder(g, us, hi)
    ensures var cs, s := Select(us, id), Build(us, g.IdsPerZone());
            && Ascending(cs) && (id in s <==> cs != [])
            && Chunks(s, id) == Rotate(cs, FirstHome(cs, HomeZone(id, g.IdsPerZone())))
  {
    hide Build, Select, HomeZone, FirstHome, InZone, Before;
    BuildSelect(us, g.IdsPerZone(), id);
    SelectOrdered(g, us, hi, id);
    InsertAllRotates(Select(us, id), HomeZone(id, g.IdsPerZone()));
  }

  lemma RotatedApart(g: Geo, cs: seq<Chunk>, n: nat)
    requires g.Ok() && n <= |cs|
    requires forall i :: 0 <= i < |cs| ==> InZone(g, cs[i])
    requires forall i, j :: 0 <= i < j < |cs| ==> Before(cs[i], cs[j])
    ensures PairwiseApart(g, Rotate(cs, n))
  {
    hide Geo.Ok, InZone, ByteAddr, ByteLen, Before;
    forall i, j | 0 <= i < j < |cs| ensures Apart(g, cs[i], cs[j]) && Apart(g, cs[j], cs[i]) {
      BeforeBytes(g, cs[i], cs[j]);
    }
  }

  /** Chunks in the store of a scanned map never overlap, within an object or between objects. */
  lemma StoreApart(g: Geo, us: seq<Used>, hi: nat, id: nat, other: nat)
    requires g.Ok() && g.IdsPerZone() > 0 && InDiscOrder(g, us, hi)
    ensures var s := Build(us, g.IdsPerZone());
            && PairwiseApart(g, Chunks(s, id))
            && (forall c :: c in Chunks(s, id) ==> InZone(g, c))
            && (id != other ==> forall c, o :: c in Chunks(s, id) && o in Chunks(s, other) ==> Apart(g, c, o))
  {
    hide Build, Select, HomeZone, FirstHome, Geo.Ok, InZone, ByteAddr, ByteLen, Before, Ascending;
    var s, cs := Build(us, g.IdsPerZone()), Select(us, id);
    StoreList(g, us, hi, id);
    StoreList(g, us, hi, other);
    SelectOrdered(g, us, hi, id);
    RotatedApart(g, cs, FirstHome(cs, HomeZone(id, g.IdsPerZone())));
    if id != other {
      forall c, o | c in Chunks(s, id) && o in Chunks(s, other) ensures Apart(g, c, o) {
        assert c in cs && o in Select(us, other);
        SelectMember(us, id, c);
        SelectMember(us, other, o);
        var i :| 0 <= i < |us| && us[i] == Used(id, c);
        var j :| 0 <= j < |us| && us[j] == Used(other, o);
        if i < j {
          BeforeBytes(g, c, o);
        } else {
          BeforeBytes(g, o, c);
        }
      }
    }
  }

  lemma ObjectStep(g: Geo, disc: seq<byte>, cs: seq<Chunk>, i: nat, left: nat)
    requires OnDisc(g, disc, cs) && i < |cs| && left > 0
    ensures var a, n := ByteAddr(g, cs[i]), Min(ByteLen(g, cs[i]), left);
            && cs[i] in cs && 0 <= a && 0 <= n && a + n <= |disc|
            && ObjectBytes(g, disc, cs[i..], left) == disc[a..a + n] + ObjectBytes(g, disc, cs[i + 1..], left - n)
  {
    hide ByteAddr, ByteLen;
    assert cs[i..][0] == cs[i] && cs[i..][1..] == cs[i + 1..];
  }

  lemma ObjectEmpty(g: Geo, disc: seq<byte>)
    ensures forall cs: seq<Chunk> :: OnDisc(g, disc, cs) ==> ObjectBytes(g, disc, cs, 0) == []
    ensures forall size: nat :: ObjectBytes(g, disc, [], size) == []
  {
  }

  lemma Associate(a: seq<byte>, b: seq<byte>, c: seq<byte>)
    ensures a + (b + c) == (a + b) + c
  {
  }

  // ----- Objects in one stretch, and shared objects

  /** The first size bytes of the object lie in one stretch of the disc, as they do whenever they fit
      the first chunk. */
  ghost predicate InOneRun(g: Geo, cs: seq<Chunk>, size: int)
    decreases |cs|
  {
    && cs != []
    && (size <= ByteLen(g, cs[0]) ||
        (|cs| > 1 && ByteAddr(g, cs[1]) == ByteAddr(g, cs[0]) + ByteLen(g, cs[0])
         && InOneRun(g, cs[1..], size - ByteLen(g, cs[0]))))
  }

  lemma {:induction false} RunBytes(g: Geo, disc: seq<byte>, cs: seq<Chunk>, size: nat)
    requires OnDisc(g, disc, cs) && InOneRun(g, cs, size)
    ensures var a := ByteAddr(g, cs[0]); 0 <= a && a + size <= |disc| && ObjectBytes(g, disc, cs, size) == disc[a..a + size]
    decreases |cs|
  {
    hide ByteAddr, ByteLen, ObjectBytes;
    assert cs[0] in cs;
    var a, n := ByteAddr(g, cs[0]), ByteLen(g, cs[0]);
    if size == 0 {
      ObjectEmpty(g, disc);
    } else {
      ObjectStep(g, disc, cs, 0, size);
      assert cs[0..] == cs;
      if size > n {
        RunBytes(g, disc, cs[1..], size - n);
        assert disc[a..a + n] + disc[a + n..a + size] == disc[a..a + size];
      } else {
        ObjectEmpty(g, disc);
        assert OnDisc(g, disc, cs[1..]);
      }
    }
  }

  /** Contents on which consecutive sectors are not the object. */
  lemma {:induction false} Broken(g: Geo, disc: seq<byte>, cs: seq<Chunk>, size: nat) returns (d: seq<byte>)
    requires OnDisc(g, disc, cs) && cs != [] && !InOneRun(g, cs, size)
    requires ByteAddr(g, cs[0]) >= 0 && ByteAddr(g, cs[0]) + size <= |disc|
    ensures |d| == |disc| && OnDisc(g, d, cs)
    ensures ObjectBytes(g, d, cs, size) != d[ByteAddr(g, cs[0])..ByteAddr(g, cs[0]) + size]
    decreases |cs|
  {
    hide ByteAddr, ByteLen, ObjectBytes;
    assert cs[0] in cs && cs[0..] == cs;
    var a, n := ByteAddr(g, cs[0]), ByteLen(g, cs[0]);
    if |cs| == 1 {
      d := disc;
      ObjectStep(g, d, cs, 0, size);
      ObjectEmpty(g, d);
    } else if ByteAddr(g, cs[1]) == a + n {
      d := Broken(g, disc, cs[1..], size - n);
      ObjectStep(g, d, cs, 0, size);
      var r := ObjectBytes(g, d, cs[1..], size - n);
      assert (d[a..a + n] + r)[n..] == r && d[a..a + size][n..] == d[a + n..a + size];
    } else {
      assert cs[1] in cs;
      var p := ByteAddr(g, cs[1]);
      d := seq(|disc|, i => if i == p then 1 else 0);
      ObjectStep(g, d, cs, 0, size);
      ObjectStep(g, d, cs, 1, size - n);
      assert ObjectBytes(g, d, cs, size)[n] == 1 && d[a..a + size][n] == 0;
    }
  }

  /** Byte address of the sector that an object address stands for. */
  ghost function SinByte(g: Geo, s: Store, sin: nat): (a: nat)
    requires forall id :: id in s ==> s[id] != []
  {
    SinAddr(g, s, sin) * g.SecSize()
  }

  /** The bytes that LoadObject gives for an object it knows. */
  ghost function Fetched(g: Geo, s: Store, d: seq<byte>, sin: nat, size: nat): seq<byte>
    requires (forall id :: id in s ==> s[id] != []) && sin / 0x100 in s && OnDisc(g, d, s[sin / 0x100])
    requires sin % 0x100 > 1 ==> SinByte(g, s, sin) + size <= |d|
  {
    if sin % 0x100 <= 1 then ObjectBytes(g, d, s[sin / 0x100], size)
    else
      var a := SinByte(g, s, sin);
      d[a..a + size]
  }

  /** CopyObject reads at once an object of one chunk that fits its buffer. */
  predicate ReadAtOnce(cs: seq<Chunk>, size: nat, bufferSize: nat) {
    size <= bufferSize && |cs| == 1
  }

  /** The bytes that CopyObject writes: those at the sector address if it reads at once, and else those of
      the chunks, also for a shared object. */
  ghost function Copied(g: Geo, s: Store, d: seq<byte>, sin: nat, size: nat, bufferSize: nat): seq<byte>
    requires (forall id :: id in s ==> s[id] != []) && sin / 0x100 in s && OnDisc(g, d, s[sin / 0x100])
    requires ReadAtOnce(s[sin / 0x100], size, bufferSize) ==> SinByte(g, s, sin) + size <= |d|
  {
    if ReadAtOnce(s[sin / 0x100], size, bufferSize) then
      var a := SinByte(g, s, sin);
      d[a..a + size]
    else ObjectBytes(g, d, s[sin / 0x100], size)
  }

  /** The bytes of an object are those from address a on, whatever the disc holds, exactly when there are
      none, or the object starts there and lies in one stretch. */
  lemma BytesAt(g: Geo, disc: seq<byte>, cs: seq<Chunk>, size: nat, a: nat)
    requires OnDisc(g, disc, cs) && cs != [] && a + size <= |disc|
    ensures (forall d: seq<byte> :: |d| == |disc| && OnDisc(g, d, cs) ==> ObjectBytes(g, d, cs, size) == d[a..a + size])
            <==> size == 0 || (a == ByteAddr(g, cs[0]) && InOneRun(g, cs, size))
  {
    hide ByteAddr, ByteLen, ObjectBytes, InOneRun;
    assert cs[0] in cs && cs[0..] == cs;
    if size == 0 {
      forall d: seq<byte> | |d| == |disc| && OnDisc(g, d, cs) ensures ObjectBytes(g, d, cs, size) == d[a..a + size] {
        ObjectEmpty(g, d);
      }
    } else if a != ByteAddr(g, cs[0]) {
      var p := ByteAddr(g, cs[0]);
      var d: seq<byte> := seq(|disc|, i => if i == p then 1 else 0);
      ObjectStep(g, d, cs, 0, size);
      assert ObjectBytes(g, d, cs, size)[0] == 1 && d[a..a + size][0] == 0;
    } else if InOneRun(g, cs, size) {
      forall d: seq<byte> | |d| == |disc| && OnDisc(g, d, cs) ensures ObjectBytes(g, d, cs, size) == d[a..a + size] {
        RunBytes(g, d, cs, size);
      }
    } else {
      var d := Broken(g, disc, cs, size);
    }
  }

  /** CopyObject writes what LoadObject gives, whatever the disc holds, exactly when the object is not
      shared and is not read at once beyond its chunk, or when it is shared and is read at once, empty,
      or in one stretch from the beginning of its first chunk. */
  lemma CopyAgrees(g: Geo, s: Store, disc: seq<byte>, sin: nat, size: nat, bufferSize: nat)
    requires Addressable(g) && (forall id :: id in s ==> s[id] != []) && sin / 0x100 in s && sin / 0x100 < Pow2(g.idlen)
    requires OnDisc(g, disc, s[sin / 0x100]) && forall c :: c in s[sin / 0x100] ==> InZone(g, c)
    requires SinByte(g, s, sin) + size <= |disc|
    ensures var cs, a := s[sin / 0x100], SinByte(g, s, sin);
            (forall d: seq<byte> :: |d| == |disc| && OnDisc(g, d, cs) ==>
                 Copied(g, s, d, sin, size, bufferSize) == Fetched(g, s, d, sin, size))
            <==> if sin % 0x100 <= 1 then !ReadAtOnce(cs, size, bufferSize) || size <= ByteLen(g, cs[0])
                 else ReadAtOnce(cs, size, bufferSize) || size == 0 || (a == ByteAddr(g, cs[0]) && InOneRun(g, cs, size))
  {
    hide ByteAddr, ByteLen, ObjectBytes, InOneRun, SinAddr, Addressable, InZone, Pow2, Geo.SecSize;
    var cs, a := s[sin / 0x100], SinByte(g, s, sin);
    BytesAt(g, disc, cs, size, a);
    assert cs[0] in cs;
    if sin % 0x100 <= 1 && ReadAtOnce(cs, size, bufferSize) {
      OneChunkStart(g, s, sin);
      OneRun(g, cs, size);
    } else if sin % 0x100 > 1 && !ReadAtOnce(cs, size, bufferSize) {
      assert forall d: seq<byte> :: |d| == |disc| && OnDisc(g, d, cs) ==>
          Copied(g, s, d, sin, size, bufferSize) == ObjectBytes(g, d, cs, size) && Fetched(g, s, d, sin, size) == d[a..a + size];
    }
  }

  /** A shared object of two chunks: LoadObject reads its sector, CopyObject the beginning of the first chunk. */
  lemma SharedCopy()
    ensures var g, s, sin := Geo(9, 15, 10, 1, 32, 0, 0), map[5 := [Chunk(0, 480, 16), Chunk(0, 520, 16)]], 5 * 0x100 + 2;
            var d: seq<byte> := [1] + seq(60000, i => 0);
            && Addressable(g) && (forall c :: c in s[5] ==> InZone(g, c)) && OnDisc(g, d, s[5])
            && SinAddr(g, s, sin) == 1 && g.SecSize() == 512
            && Copied(g, s, d, sin, 1, 65536) == [1] && Fetched(g, s, d, sin, 1) == [0]
  {
    var g, s, sin := Geo(9, 15, 10, 1, 32, 0, 0), map[5 := [Chunk(0, 480, 16), Chunk(0, 520, 16)]], 5 * 0x100 + 2;
    var d: seq<byte> := [1] + seq(60000, i => 0);
    TwoChunkDisc();
    ObjectStep(g, d, s[5], 0, 1);
    assert s[5][0..] == s[5];
    ObjectEmpty(g, d);
  }

  lemma TwoChunkDisc()
    ensures var g := Geo(9, 15, 10, 1, 32, 0, 0);
            && Addressable(g) && g.SecSize() == 512 && g.Bpmb() == 1024 && g.ZoneBits() == 4064
            && Pow2(0) == 1 && Pow2(15) == 32768
            && MapAddr(g, 0, 480) == 0
  {
    assert Pow2(3) == 8 && Pow2(6) == 64 && Pow2(9) == 512;
    assert Pow2(10) == 1024 && Pow2(12) == 4096;
    assert Pow2(15) == 32768;
  }

  lemma OneChunkStart(g: Geo, s: Store, sin: nat)
    requires Addressable(g) && (forall id :: id in s ==> s[id] != []) && sin / 0x100 in s && sin / 0x100 < Pow2(g.idlen)
    requires |s[sin / 0x100]| == 1 && sin % 0x100 <= 1 && InZone(g, s[sin / 0x100][0])
    ensures SinByte(g, s, sin) == ByteAddr(g, s[sin / 0x100][0])
  {
    hide Geo.Ok, ByteAddr, Addressable, InZone, MapAddr;
    MapAddrBytes(g, s[sin / 0x100][0]);
    MapAddrSmall(g, s[sin / 0x100][0]);
  }

  lemma OneRun(g: Geo, cs: seq<Chunk>, size: nat)
    requires |cs| == 1
    ensures InOneRun(g, cs, size) <==> size <= ByteLen(g, cs[0])
  {
  }

  /** A disc image with the store that a scan of its map gave. */
  class DiscImage {
    const g: Geo
    const data: array<byte>
    const objects: Store

    constructor (g: Geo, data: array<byte>, objects: Store)
      ensures this.g == g && this.data == data && this.objects == objects
    {
      this.g, this.data, this.objects := g, data, objects;
    }

    /** The chunks of every object are fragments of the map and lie on the image. */
    ghost predicate Valid()
      reads data
    {
      && Addressable(g)
      && (forall id :: id in objects ==> objects[id] != [])
      && (forall id, c :: id in objects && c in objects[id] ==> InZone(g, c))
      && (forall id :: id in objects ==> OnDisc(g, data[..], objects[id]))
    }

    method ReadSectors(start: nat, size: nat) returns (buffer: seq<byte>)
      requires start * g.SecSize() + size <= data.Length
      ensures buffer == data[start * g.SecSize()..start * g.SecSize() + size]
    {
      buffer := data[start * g.SecSize()..start * g.SecSize() + size];
    }

    method WriteSectors(buffer: seq<byte>, start: nat)
      requires start * g.SecSize() + |buffer| <= data.Length
      modifies data
      ensures data[..] == Patch(old(data[..]), start * g.SecSize(), buffer)
    {
      var a := start * g.SecSize();
      forall i | 0 <= i < |buffer| {
        data[a + i] := buffer[i];
      }
    }

    /** Reads an object; the answer is whether its chunks held all of size bytes. */
    method LoadObject(size: nat, sin: nat) returns (ok: bool, buffer: seq<byte>)
      requires Valid()
      requires sin % 0x100 > 1 ==> SinByte(g, objects, sin) + size <= data.Length
      ensures sin / 0x100 !in objects || sin / 0x100 >= Pow2(g.idlen) ==> !ok
      ensures sin / 0x100 in objects && sin / 0x100 < Pow2(g.idlen) ==>
                && buffer == Fetched(g, objects, data[..], sin, size)
                && (ok <==> sin % 0x100 > 1 || size <= Capacity(g, objects[sin / 0x100]))
    {
      hide Geo.Ok, ByteAddr, ByteLen, SinAddr, Addressable, InZone, MapAddr;
      var id := sin / 0x100;
      if id >= Pow2(g.idlen) || id !in objects {
        return false, [];
      }
      if sin % 0x100 > 1 {
        buffer := ReadSectors(SinAddr(g, objects, sin), size);
        return true, buffer;
      }
      ok, buffer := LoadChunks(objects[id], size);
    }

    /** The loop of LoadObject over the chunks of an object. */
    method LoadChunks(cs: seq<Chunk>, size: nat) returns (ok: bool, buffer: seq<byte>)
      requires Addressable(g) && OnDisc(g, data[..], cs) && forall c :: c in cs ==> InZone(g, c)
      ensures buffer == ObjectBytes(g, data[..], cs, size)
      ensures ok <==> size <= Capacity(g, cs)
    {
      hide Geo.Ok, ByteAddr, ByteLen, Addressable, InZone, MapAddr, ObjectBytes;
      var i, left := 0, size;
      ObjectEmpty(g, data[..]);
      buffer := [];
      assert cs[0..] == cs;
      while left > 0 && i < |cs|
        invariant 0 <= i <= |cs| && 0 <= left <= size
        invariant buffer + ObjectBytes(g, data[..], cs[i..], left) == ObjectBytes(g, data[..], cs, size)
        invariant Capacity(g, cs[i..]) >= left <==> Capacity(g, cs) >= size
      {
        var c := cs[i];
        assert cs[i..][0] == c && cs[i..][1..] == cs[i + 1..] && c in cs;
        MapAddrBytes(g, c);
        CapacityNonneg(g, data[..], cs[i + 1..]);
        ByteLenIs(c);
        var len := c.len * g.Bpmb();
        if len > left {
          len := left;
        }
        var piece := ReadSectors(MapAddr(g, c.zone, c.start), len);
        ObjectStep(g, data[..], cs, i, left);
        Associate(buffer, piece, ObjectBytes(g, data[..], cs[i + 1..], left - len));
        buffer := buffer + piece;
        left := left - len;
        i := i + 1;
      }
      CapacityNonneg(g, data[..], cs[i..]);
      ok := left == 0;
    }

    lemma ByteLenIs(c: Chunk)
      ensures ByteLen(g, c) == c.len * g.Bpmb()
    {
    }

    /** Writes an object; bytes that its chunks cannot hold are dropped without notice. */
    method SaveObject(buffer: seq<byte>, sin: nat) returns (ok: bool)
      requires Valid()
      requires sin % 0x100 > 1 ==> SinByte(g, objects, sin) + |buffer| <= data.Length
      modifies data
      ensures Valid()
      ensures ok <==> sin / 0x100 in objects && sin / 0x100 < Pow2(g.idlen)
      ensures !ok ==> data[..] == old(data[..])
      ensures ok && sin % 0x100 <= 1 ==> data[..] == Written(g, old(data[..]), objects[sin / 0x100], buffer)
      ensures ok && sin % 0x100 > 1 ==> data[..] == Patch(old(data[..]), SinByte(g, objects, sin), buffer)
    {
      hide Geo.Ok, ByteAddr, ByteLen, SinAddr, Addressable, InZone, MapAddr;
      var id := sin / 0x100;
      if id >= Pow2(g.idlen) || id !in objects {
        return false;
      }
      if sin % 0x100 > 1 {
        WriteSectors(buffer, SinAddr(g, objects, sin));
        return true;
      }
      SaveChunks(objects[id], buffer);
      ok := true;
    }

    /** The loop of SaveObject over the chunks of an object. */
    method SaveChunks(cs: seq<Chunk>, buffer: seq<byte>)
      requires Addressable(g) && OnDisc(g, data[..], cs) && forall c :: c in cs ==> InZone(g, c)
      modifies data
      ensures data[..] == Written(g, old(data[..]), cs, buffer)
    {
      hide Geo.Ok, ByteAddr, ByteLen, Addressable, InZone, MapAddr, Patch;
      var i, rest := 0, buffer;
      assert cs[0..] == cs;
      while rest != [] && i < |cs|
        invariant 0 <= i <= |cs| && OnDisc(g, data[..], cs)
        invariant Written(g, data[..], cs[i..], rest) == Written(g, old(data[..]), cs, buffer)
        decreases |cs| - i
      {
        var c := cs[i];
        assert cs[i..][0] == c && cs[i..][1..] == cs[i + 1..] && c in cs;
        MapAddrBytes(g, c);
        ByteLenIs(c);
        var len := c.len * g.Bpmb();
        if len > |rest| {
          len := |rest|;
        }
        WriteSectors(rest[..len], MapAddr(g, c.zone, c.start));
        rest := rest[len..];
        i := i + 1;
      }
    }

    /** The inner loop of CopyObject: one chunk, a buffer at a time. */
    method CopyChunk(c: Chunk, size: nat, bufferSize: nat) returns (piece: seq<byte>)
      requires Addressable(g) && InZone(g, c) && OnDisc(g, data[..], [c]) && c in [c]
      requires bufferSize > 0 && bufferSize % g.SecSize() == 0
      ensures piece == data[ByteAddr(g, c)..ByteAddr(g, c) + Min(ByteLen(g, c), size)]
    {
      hide Geo.Ok, ByteAddr, ByteLen, Addressable, InZone, MapAddr, Geo.Bpmb, Pow2;
      MapAddrBytes(g, c);
      ByteLenIs(c);
      ghost var a, n := ByteAddr(g, c), Min(ByteLen(g, c), size);
      var chunkaddr, offset, left, chunksize := MapAddr(g, c.zone, c.start), 0, size, c.len * g.Bpmb();
      piece := [];
      var again := true;
      while again
        invariant 0 <= offset <= n && left == size - offset && chunksize == ByteLen(g, c) - offset
        invariant piece == data[a..a + offset]
        invariant again ==> offset % g.SecSize() == 0
        invariant !again ==> offset == n
        decreases again, left
      {
        var len := chunksize;
        if len > bufferSize { len := bufferSize; }
        if len > left { len := left; }
        SectorOffset(chunkaddr, offset, g.SecSize());
        var part := ReadSectors(chunkaddr + offset / g.SecSize(), len);
        piece := piece + part;
        if len == bufferSize {
          SumOfMultiples(offset, len, g.SecSize());
        }
        offset, chunksize, left := offset + len, chunksize - len, left - len;
        again := chunksize > 0 && left > 0;
      }
    }

    /** Copies an object to a file, in one read when it has one chunk that fits the buffer, otherwise
        chunk by chunk. */
    method CopyObject(sin: nat, size: nat, bufferSize: nat) returns (ok: bool, file: seq<byte>)
      requires Valid() && bufferSize > 0 && bufferSize % g.SecSize() == 0
      requires sin / 0x100 in objects && ReadAtOnce(objects[sin / 0x100], size, bufferSize) ==>
                 SinByte(g, objects, sin) + size <= data.Length
      ensures ok <==> sin / 0x100 in objects && sin / 0x100 < Pow2(g.idlen)
      ensures ok ==> file == Copied(g, objects, data[..], sin, size, bufferSize)
    {
      hide Geo.Ok, ByteAddr, ByteLen, Addressable, InZone, MapAddr, ObjectBytes, SinAddr;
      var id := sin / 0x100;
      if id >= Pow2(g.idlen) || id !in objects {
        return false, [];
      }
      var cs := objects[id];
      if bufferSize >= size && |cs| == 1 {
        file := ReadSectors(SinAddr(g, objects, sin), size);
        return true, file;
      }
      var i, left, again := 0, size, true;
      file := [];
      ObjectEmpty(g, data[..]);
      assert cs[0..] == cs;
      while again
        invariant 0 <= i <= |cs| && 0 <= left <= size && (again ==> i < |cs|)
        invariant file + ObjectBytes(g, data[..], cs[i..], left) == ObjectBytes(g, data[..], cs, size)
        invariant !again ==> left == 0 || i == |cs|
        decreases again, |cs| - i
      {
        var c := cs[i];
        assert c in cs && [c][0] == c;
        var piece := CopyChunk(c, left, bufferSize);
        if left > 0 {
          ObjectStep(g, data[..], cs, i, left);
          Associate(file, piece, ObjectBytes(g, data[..], cs[i + 1..], left - |piece|));
        }
        file := file + piece;
        left := left - |piece|;
        i := i + 1;
        again := left > 0 && i < |cs|;
      }
      assert ObjectBytes(g, data[..], cs[i..], left) == [];
      ok := true;
    }

    lemma OneChunk(sin: nat, size: nat)
      requires Valid() && sin % 0x100 <= 1 && sin / 0x100 in objects && sin / 0x100 < Pow2(g.idlen)
      requires |objects[sin / 0x100]| == 1 && size <= Capacity(g, objects[sin / 0x100])
      ensures var a := SinByte(g, objects, sin);
              a + size <= data.Length && ObjectBytes(g, data[..], objects[sin / 0x100], size) == data[a..a + size]
    {
      hide Addressable, InZone, ByteAddr, ByteLen, SinByte, ObjectBytes;
      var cs := objects[sin / 0x100];
      assert cs[0] in cs && cs[1..] == [];
      OneChunkStart(g, objects, sin);
      OneRun(g, cs, size);
      RunBytes(g, data[..], cs, size);
    }

    lemma SectorOffset(sector: nat, offset: nat, s: nat)
      requires s > 0 && offset % s == 0
      ensures (sector + offset / s) * s == sector * s + offset
    {
      assert offset == offset / s * s;
    }
  }

  /** For every scanned map: after an object was saved, loading it gives the saved bytes, and every
      other object reads as before. */
  lemma SavedObject(g: Geo, vs: seq<ZoneView>, disc: seq<byte>, id: nat, buf: seq<byte>, other: nat, size: nat)
    requires ViewsOk(g, vs) && g.IdsPerZone() > 0 && id != other
    requires var s := Build(DiscUsed(g, vs, 0, |vs|), g.IdsPerZone());
             && OnDisc(g, disc, Chunks(s, id)) && OnDisc(g, disc, Chunks(s, other))
             && |buf| <= Capacity(g, Chunks(s, id))
    ensures var s := Build(DiscUsed(g, vs, 0, |vs|), g.IdsPerZone());
            var disc' := Written(g, disc, Chunks(s, id), buf);
            && ObjectBytes(g, disc', Chunks(s, id), |buf|) == buf
            && ObjectBytes(g, disc', Chunks(s, other), size) == ObjectBytes(g, disc, Chunks(s, other), size)
  {
    hide Build, DiscUsed, Chunks, Geo.Ok, Written, ObjectBytes, Capacity, OnDisc;
    var us := DiscUsed(g, vs, 0, |vs|);
    var s := Build(us, g.IdsPerZone());
    DiscUsedOrdered(g, vs, |vs|);
    StoreApart(g, us, |vs|, id, other);
    SaveThenLoad(g, disc, Chunks(s, id), buf);
    OtherObject(g, disc, Chunks(s, id), buf, Chunks(s, other), size);
  }
}
