/** kernel/filecore.c: the kernel finds an object by reading one map sector, that of the object's
    home zone, and scanning it for the id. */
module KernelLookup {
  import opened Arithmetic
  import opened Words
  import opened Bits
  import opened Geometry
  import opened MapScan
  import opened MapChain
  import opened MapObjects
  import opened ZoneClaim
  import opened DiscScan
  import opened MapBytes
  import opened DiscObjects

  /** The geometry both readers understand: the allocation area starts at bit 32 of the sector. */
  ghost predicate KernelGeo(g: Geo) {
    Addressable(g) && g.zoneSpare == 32
  }

  /** The bits of a sector, lowest bit of each byte first. */
  function SectorBits(buf: seq<byte>): (bits: seq<bool>)
    ensures |bits| == 8 * |buf|
  {
    seq(8 * |buf|, i requires 0 <= i < 8 * |buf| => BitOf(buf[i / 8], i % 8))
  }

  lemma SectorBit(buf: seq<byte>, i: nat)
    requires i < 8 * |buf|
    ensures SectorBits(buf)[i] == BitOf(buf[i / 8], i % 8)
  {
  }

  method AdfsReadBits(buf: seq<byte>, bitpos: nat, nbits: nat) returns (val: nat)
    requires bitpos + nbits <= 8 * |buf|
    ensures val == Field(SectorBits(buf), bitpos, nbits)
  {
    hide BitOf, SectorBits;
    ghost var bits := SectorBits(buf);
    val := 0;
    var i, weight := 0, 1;
    while i < nbits
      invariant 0 <= i <= nbits && weight == Pow2(i)
      invariant val == Field(bits, bitpos, i)
    {
      hide Field;
      var bp := bitpos + i;
      FieldSnoc(bits, bitpos, i);
      SectorBit(buf, bp);
      if BitOf(buf[bp / 8], bp % 8) {
        val := val + weight;
      }
      i, weight := i + 1, 2 * weight;
    }
  }

  lemma {:induction false} FieldShift(a: seq<bool>, b: seq<bool>, d: nat, p: nat, n: nat)
    requires d <= |a| && b == a[d..] && p + n <= |b|
    ensures Field(a, d + p, n) == Field(b, p, n)
    decreases n
  {
    if n > 0 {
      FieldShift(a, b, d, p + 1, n - 1);
    }
  }

  function Sector(g: Geo, map': seq<byte>, z: nat): (buf: seq<byte>)
    requires Loaded(g, map') && z < g.nzones
    ensures |buf| == g.SecSize()
  {
    ZoneBytes(g, map', z);
    map'[z * g.SecSize()..z * g.SecSize() + g.SecSize()]
  }

  /** Behind its first 32 bits a map sector holds the allocation bits of its zone. */
  lemma SectorView(g: Geo, map': seq<byte>, z: nat)
    requires Loaded(g, map') && z < g.nzones && g.zoneSpare == 32
    ensures |SectorBits(Sector(g, map', z))| == 32 + g.ZoneBits()
    ensures SectorBits(Sector(g, map', z))[32..] == ViewOf(g, map', z).bits
  {
    hide Geo.Ok, BitOf;
    ZoneBytes(g, map', z);
    var buf, bits := Sector(g, map', z), ViewOf(g, map', z).bits;
    forall i | 0 <= i < g.ZoneBits() ensures SectorBits(buf)[32 + i] == bits[i] {
      SectorBit(buf, 32 + i);
      ViewBit(g, map', z, i);
      assert (32 + i) / 8 == 4 + i / 8 && (32 + i) % 8 == i % 8;
      assert buf[4 + i / 8] == map'[ByteOf(g, map', z, i)];
    }
  }

  /** Index of the first fragment with this id field, free or used; the length of fs if none has it. */
  function FirstWithId(fs: seq<Frag>, id: nat): (k: nat)
    ensures k <= |fs|
    ensures k < |fs| ==> fs[k].id == id
    ensures forall i :: 0 <= i < k ==> fs[i].id != id
  {
    if fs == [] || fs[0].id == id then 0 else 1 + FirstWithId(fs[1..], id)
  }

  /** Skips the zero bits of a fragment's body and its terminator. */
  method SkipBody(zbuf: seq<byte>, spare: nat, p: nat, allocend: nat, ghost bits: seq<bool>) returns (q: nat)
    requires spare + allocend == 8 * |zbuf| && p < allocend == |bits| && bits == SectorBits(zbuf)[spare..]
    ensures q == SkipZeros(bits, p)
  {
    hide BitOf, SectorBits;
    q := p;
    var bit := false;
    while q < allocend && !bit
      invariant p <= q <= allocend
      invariant bit ==> p < q && bits[q - 1]
      invariant forall j :: p <= j < q && (bit ==> j < q - 1) ==> !bits[j]
    {
      var raw := spare + q;
      bit := BitOf(zbuf[raw / 8], raw % 8);
      SectorBit(zbuf, raw);
      q := q + 1;
    }
    SkipZerosIs(bits, p, q);
  }

  lemma {:induction false} FirstWithIdIs(fs: seq<Frag>, id: nat, k: nat)
    requires k <= |fs| && (forall i :: 0 <= i < k ==> fs[i].id != id) && (k < |fs| ==> fs[k].id == id)
    ensures FirstWithId(fs, id) == k
    decreases |fs|
  {
    if k > 0 {
      FirstWithIdIs(fs[1..], id, k - 1);
    }
  }

  /** Passing over fragment i of the scan. */
  lemma PassOver(bits: seq<bool>, idlen: nat, fs: seq<Frag>, i: nat, p: nat)
    requires p + idlen < |bits| && i <= |fs| && fs[i..] == Fragments(bits, p, idlen)
    ensures i < |fs| && fs[i].start == p && fs[i].id == Field(bits, p, idlen)
    ensures Ahead(bits, idlen, fs, i + 1, SkipZeros(bits, p + idlen))
  {
    hide Field, SkipZeros;
    assert fs[i..][0] == fs[i] && fs[i..][1..] == fs[i + 1..];
    assert Fragments(bits, p, idlen)[1..] == Fragments(bits, FragEnd(bits, p, idlen), idlen);
  }

  /** The fragments from i on are those from bit p on; none are left if no id fits behind p. */
  ghost predicate Ahead(bits: seq<bool>, idlen: nat, fs: seq<Frag>, i: nat, p: nat) {
    && i <= |fs| && p <= |bits|
    && if Room(bits, p, idlen) then fs[i..] == Fragments(bits, p, idlen) else i == |fs|
  }

  /** Behind the last fragment there is nothing to find. */
  lemma ScanDone(bits: seq<bool>, idlen: nat, fs: seq<Frag>, i: nat, p: nat)
    requires Ahead(bits, idlen, fs, i, p) && p + idlen >= |bits|
    ensures i == |fs|
  {
    assert Room(bits, p, idlen) ==> Fragments(bits, p, idlen) == [];
  }

  /** The scan of one map sector for an id: the first fragment that carries it. */
  method ScanSector(zbuf: seq<byte>, idlen: nat, first: nat, allocend: nat, id: nat, ghost bits: seq<bool>)
    returns (found: bool, start: nat)
    requires 32 + allocend == 8 * |zbuf| && bits == SectorBits(zbuf)[32..]
    requires first <= |bits| && Room(bits, first, idlen)
    ensures var fs := Fragments(bits, first, idlen);
            var k := FirstWithId(fs, id);
            && (found <==> k < |fs|) && (found ==> start == fs[k].start)
  {
    hide Field, SkipZeros, SectorBits, FragAt, Fragments, FirstWithId;
    ghost var fs := Fragments(bits, first, idlen);
    var allocbit := first;
    found, start := false, 0;
    ghost var i := 0;
    assert fs[0..] == fs;
    while allocbit + idlen < allocend
      invariant Ahead(bits, idlen, fs, i, allocbit)
      invariant forall j :: 0 <= j < i ==> fs[j].id != id
    {
      start := allocbit;
      var entryId := AdfsReadBits(zbuf, 32 + allocbit, idlen);
      FieldShift(SectorBits(zbuf), bits, 32, allocbit, idlen);
      PassOver(bits, idlen, fs, i, start);
      if entryId == id {
        FirstWithIdIs(fs, id, i);
        found := true;
        return;
      }
      allocbit := SkipBody(zbuf, 32, allocbit + idlen, allocend, bits);
      i := i + 1;
      if allocend - allocbit < idlen + 1 {
        break;
      }
    }
    ScanDone(bits, idlen, fs, i, allocbit);
    FirstWithIdIs(fs, id, i);
  }

  /** The kernel finds a fragment with the id of this IDA in the home zone. */
  ghost predicate KernelFinds(g: Geo, vs: seq<ZoneView>, ida: nat)
    requires ViewsOk(g, vs) && g.IdsPerZone() > 0
  {
    var id, z := ida / 0x100, HomeZone(ida / 0x100, g.IdsPerZone());
    z < g.nzones && FirstWithId(Frags(g, z, vs[z]), id) < |Frags(g, z, vs[z])|
  }

  /** The sector the kernel answers: that of the first such fragment. */
  ghost function KernelAnswer(g: Geo, vs: seq<ZoneView>, ida: nat, lbaBase: nat): int
    requires ViewsOk(g, vs) && g.IdsPerZone() > 0 && KernelFinds(g, vs, ida)
  {
    var id, z := ida / 0x100, HomeZone(ida / 0x100, g.IdsPerZone());
    var f := Frags(g, z, vs[z])[FirstWithId(Frags(g, z, vs[z]), id)];
    KernelSector(g, Chunk(z, f.start, f.len), ida % 0x100, lbaBase)
  }

  /** Sector address of an IDA from the map sector of its home zone; found is false when the home
      zone is not on the disc or holds no fragment with the id. */
  method FcIdaToDataLba(g: Geo, map': seq<byte>, ida: nat, lbaBase: nat) returns (found: bool, lba: nat)
    requires KernelGeo(g) && Loaded(g, map') && g.IdsPerZone() > 0
    ensures found <==> KernelFinds(g, ViewsOf(g, map'), ida)
    ensures found ==> lba == KernelAnswer(g, ViewsOf(g, map'), ida, lbaBase)
  {
    hide Geo.Ok, Loaded, Addressable, SectorBits, Fragments, BitOf, HomeZone, FirstWithId;
    var id, chainLfau := ida / 0x100, ida % 0x100 / 2;
    var homeZone := HomeZone(id, g.IdsPerZone());
    lba := 0;
    if homeZone >= g.nzones {
      return false, 0;
    }
    var zbuf := Sector(g, map', homeZone);
    ghost var v := ViewOf(g, map', homeZone);
    SectorView(g, map', homeZone);
    ViewRoom(g, homeZone, v);
    var start;
    found, start := ScanSector(zbuf, g.idlen, g.FirstBit(homeZone), g.ZoneBits(), id, v.bits);
    if found {
      var lfauno := (homeZone * g.ZoneBits() + start - DISC_RECORD_BITS + chainLfau) % WORD;
      lba := (lbaBase + lfauno * (g.Bpmb() / g.SecSize())) % WORD;
    }
  }

  // ----- The kernel's answer against the store of the whole disc

  /** No free run starts at bit p. */
  ghost predicate NoRunAt(free: seq<Run>, p: nat) {
    forall r :: r in free ==> r.start != p
  }

  /** If the first fragment with the id is no free run, it is the first used one with the id. */
  lemma {:induction false} FirstIsUsed(fs: seq<Frag>, off: nat, discEnd: nat, id: nat)
    requires id > 1
    ensures var used, k := UsedOf(fs, off, discEnd), FirstWithId(fs, id);
            var k' := FirstWithId(used, id);
            && (k == |fs| ==> k' == |used|)
            && (k < |fs| && NoRunAt(FreeOf(fs, off), fs[k].start) ==> k' < |used| && fs[k] == used[k'])
    decreases |fs|
  {
    if fs != [] {
      hide FirstWithId, UsedOf, FreeOf, NoRunAt;
      var off' := if fs[0].start == off then off + fs[0].id else off;
      var rest, k := UsedOf(fs[1..], off', discEnd), FirstWithId(fs, id);
      OneFragment(fs, off, discEnd);
      FirstOfCons(fs[0], fs[1..], id);
      FirstOfCons(fs[0], rest, id);
      assert fs == [fs[0]] + fs[1..];
      if fs[0].id != id {
        FirstIsUsed(fs[1..], off', discEnd, id);
        if k < |fs| {
          FreeStays(fs, off, fs[k].start);
        }
        if fs[0].start != off && !Stored(fs[0], discEnd) {
          assert UsedOf(fs, off, discEnd) == rest;
        }
      } else if fs[0].start == off {
        HeadRuns(fs, off);
      }
    }
  }

  /** What the chain makes of the first fragment. */
  lemma OneFragment(fs: seq<Frag>, off: nat, discEnd: nat)
    requires fs != []
    ensures fs[0].start == off ==>
              && FreeOf(fs, off) == [Run(fs[0].start, fs[0].len)] + FreeOf(fs[1..], off + fs[0].id)
              && UsedOf(fs, off, discEnd) == UsedOf(fs[1..], off + fs[0].id, discEnd)
    ensures fs[0].start != off ==>
              && FreeOf(fs, off) == FreeOf(fs[1..], off)
              && UsedOf(fs, off, discEnd) ==
                 (if Stored(fs[0], discEnd) then [fs[0]] else []) + UsedOf(fs[1..], off, discEnd)
  {
  }

  lemma FreeStays(fs: seq<Frag>, off: nat, p: nat)
    requires fs != []
    ensures NoRunAt(FreeOf(fs, off), p) ==> NoRunAt(FreeOf(fs[1..], if fs[0].start == off then off + fs[0].id else off), p)
  {
  }

  lemma HeadRuns(fs: seq<Frag>, off: nat)
    requires fs != [] && fs[0].start == off
    ensures !NoRunAt(FreeOf(fs, off), fs[0].start)
  {
    assert FreeOf(fs, off)[0] in FreeOf(fs, off);
  }

  /** No used fragment of a tiling starts where a free run does. */
  lemma {:induction false} UsedNotFree(fs: seq<Frag>, p: nat, end: nat, min: nat, off: nat, discEnd: nat)
    requires Tiles(fs, p, end, min) && min > 0
    ensures forall u :: u in UsedOf(fs, off, discEnd) ==> NoRunAt(FreeOf(fs, off), u.start)
    decreases |fs|
  {
    if fs != [] {
      hide UsedOf, FreeOf;
      var off' := if fs[0].start == off then off + fs[0].id else off;
      var rest, free := UsedOf(fs[1..], off', discEnd), FreeOf(fs[1..], off');
      OneFragment(fs, off, discEnd);
      TilesNonneg(fs[1..], fs[0].End(), end, min);
      UsedNotFree(fs[1..], fs[0].End(), end, min, off', discEnd);
      UsedBounds(fs[1..], fs[0].End(), end, min, off', discEnd);
      FreeBounds(fs[1..], fs[0].End(), end, min, off');
      forall u | u in UsedOf(fs, off, discEnd) ensures NoRunAt(FreeOf(fs, off), u.start) {
        assert u == fs[0] || u in rest;
        assert forall i :: 0 <= i < |rest| ==> fs[0].End() <= rest[i].start;
      }
    }
  }

  lemma FirstOfCons(f: Frag, fs: seq<Frag>, id: nat)
    ensures FirstWithId([f] + fs, id) == if f.id == id then 0 else 1 + FirstWithId(fs, id)
  {
    assert ([f] + fs)[1..] == fs;
  }

  lemma {:induction false} SelectTag(z: nat, used: seq<Frag>, id: nat)
    ensures var cs, k := Select(TagUsed(z, used), id), FirstWithId(used, id);
            && (cs == [] <==> k == |used|)
            && (k < |used| ==> cs[0] == Chunk(z, used[k].start, used[k].len))
            && (forall i :: 0 <= i < |cs| ==> cs[i].zone == z)
    decreases |used|
  {
    if used != [] {
      var n := |used| - 1;
      var q, x := used[..n], used[n];
      SelectTag(z, q, id);
      assert TagUsed(z, used)[..n] == TagUsed(z, q);
      var k := FirstWithId(q, id);
      assert forall i :: 0 <= i < n ==> used[i] == q[i];
      FirstWithIdIs(used, id, if k < n then k else if x.id == id then n else n + 1);
    }
  }

  lemma SelectZones(us: seq<Used>, id: nat, lo: nat, hi: nat)
    requires forall i :: 0 <= i < |us| ==> lo <= us[i].chunk.zone < hi
    ensures forall i :: 0 <= i < |Select(us, id)| ==> lo <= Select(us, id)[i].zone < hi
  {
    forall i | 0 <= i < |Select(us, id)| ensures lo <= Select(us, id)[i].zone < hi {
      SelectMember(us, id, Select(us, id)[i]);
    }
  }

  lemma {:induction false} UsedZones(g: Geo, vs: seq<ZoneView>, lo: nat, hi: nat)
    requires ViewsOk(g, vs) && lo <= hi <= |vs|
    ensures forall i :: 0 <= i < |DiscUsed(g, vs, lo, hi)| ==> lo <= DiscUsed(g, vs, lo, hi)[i].chunk.zone < hi
    decreases hi
  {
    hide ZoneUsed, Geo.Ok;
    if lo < hi {
      UsedZones(g, vs, lo, hi - 1);
    }
  }

  /** The chunks of an id, cut at zone z. */
  lemma SelectAround(g: Geo, vs: seq<ZoneView>, z: nat, id: nat) returns (a: seq<Chunk>, b: seq<Chunk>)
    requires ViewsOk(g, vs) && z < |vs|
    ensures Select(DiscUsed(g, vs, 0, |vs|), id) == a + Select(TagUsed(z, ZoneUsed(g, z, vs[z])), id) + b
    ensures forall i :: 0 <= i < |a| ==> a[i].zone < z
    ensures forall i :: 0 <= i < |b| ==> b[i].zone > z
  {
    hide DiscUsed, ZoneUsed, Select, Geo.Ok;
    ScanAround(g, vs, z);
    var p, m, q := DiscUsed(g, vs, 0, z), TagUsed(z, ZoneUsed(g, z, vs[z])), DiscUsed(g, vs, z + 1, |vs|);
    SelectAppend(p + m, q, id);
    SelectAppend(p, m, id);
    UsedZones(g, vs, 0, z);
    UsedZones(g, vs, z + 1, |vs|);
    SelectZones(p, id, 0, z);
    SelectZones(q, id, z + 1, |vs|);
    a, b := Select(p, id), Select(q, id);
  }

  /** The first fragment of the zone that carries the id is no free run. */
  ghost predicate Genuine(g: Geo, z: nat, v: ZoneView, id: nat)
    requires ViewOk(g, v)
  {
    var fs := Frags(g, z, v);
    var k := FirstWithId(fs, id);
    k < |fs| ==> NoRunAt(ZoneFree(g, z, v), fs[k].start)
  }

  /** The head of the chunk list that the scan of the whole disc builds is the first used fragment with
      the id in its home zone, if there is one. */
  lemma HomeHead(g: Geo, vs: seq<ZoneView>, id: nat)
    requires ViewsOk(g, vs) && g.IdsPerZone() > 0 && HomeZone(id, g.IdsPerZone()) < g.nzones
    ensures var s, z := Build(DiscUsed(g, vs, 0, |vs|), g.IdsPerZone()), HomeZone(id, g.IdsPerZone());
            var used := ZoneUsed(g, z, vs[z]);
            var k := FirstWithId(used, id);
            && (k < |used| <==> exists c :: c in Chunks(s, id) && c.zone == z)
            && (k < |used| ==> Chunks(s, id) != [] && Chunks(s, id)[0] == Chunk(z, used[k].start, used[k].len))
  {
    hide Build, DiscUsed, Select, HomeZone, Geo.Ok, Fragments, FirstWithId, UsedOf, FirstHome, InZone, Ascending;
    var us, z := DiscUsed(g, vs, 0, |vs|), HomeZone(id, g.IdsPerZone());
    var used := ZoneUsed(g, z, vs[z]);
    var cs := Select(us, id);
    var m := Select(TagUsed(z, used), id);
    SelectTag(z, used, id);
    var a, b := SelectAround(g, vs, z, id);
    DiscUsedOrdered(g, vs, |vs|);
    StoreList(g, us, |vs|, id);
    if m != [] {
      assert cs[|a|] == m[0];
      FirstHomeIs(cs, z, |a|);
      assert Rotate(cs, |a|)[0] == cs[|a|];
    }
  }

  /** A used fragment and a free run of a zone start at different bits. */
  lemma ZoneApart(g: Geo, z: nat, v: ZoneView, k: nat)
    requires ViewOk(g, v) && k < |ZoneUsed(g, z, v)|
    ensures NoRunAt(ZoneFree(g, z, v), ZoneUsed(g, z, v)[k].start)
  {
    hide Geo.Ok, Fragments, UsedOf, FreeOf, NoRunAt;
    ZoneFreeBounds(g, z, v);
    UsedNotFree(Frags(g, z, v), g.FirstBit(z), |v.bits|, g.idlen + 1, HeadOff(v.head), g.DiscEnd());
    assert ZoneUsed(g, z, v)[k] in ZoneUsed(g, z, v);
  }

  /** The fragment the kernel finds is the head of the chunk list that the scan of the whole disc
      builds, and the kernel fails exactly for ids without a chunk in their home zone: all this exactly
      when the fragment is no free run. */
  lemma FirstChunk(g: Geo, vs: seq<ZoneView>, id: nat)
    requires ViewsOk(g, vs) && g.IdsPerZone() > 0 && id > 1
    requires HomeZone(id, g.IdsPerZone()) < g.nzones
    ensures var s, z := Build(DiscUsed(g, vs, 0, |vs|), g.IdsPerZone()), HomeZone(id, g.IdsPerZone());
            var fs := Frags(g, z, vs[z]);
            var k := FirstWithId(fs, id);
            (&& (k < |fs| <==> exists c :: c in Chunks(s, id) && c.zone == z)
             && (k < |fs| ==> Chunks(s, id) != [] && Chunks(s, id)[0].zone == z && Chunks(s, id)[0].start == fs[k].start))
            <==> Genuine(g, z, vs[z], id)
    ensures var s, z := Build(DiscUsed(g, vs, 0, |vs|), g.IdsPerZone()), HomeZone(id, g.IdsPerZone());
            var fs := Frags(g, z, vs[z]);
            var k := FirstWithId(fs, id);
            Genuine(g, z, vs[z], id) && k < |fs| ==> Chunks(s, id) != [] && Chunks(s, id)[0] == Chunk(z, fs[k].start, fs[k].len)
  {
    hide Build, DiscUsed, HomeZone, Geo.Ok, Fragments, FirstWithId, UsedOf, FreeOf, NoRunAt;
    var z := HomeZone(id, g.IdsPerZone());
    var fs, used := Frags(g, z, vs[z]), ZoneUsed(g, z, vs[z]);
    FirstIsUsed(fs, HeadOff(vs[z].head), g.DiscEnd(), id);
    HomeHead(g, vs, id);
    if FirstWithId(used, id) < |used| {
      ZoneApart(g, z, vs[z], FirstWithId(used, id));
    }
  }

  /** The links held in the id fields of the free fragments. */
  function LinksOf(fs: seq<Frag>, off: nat): (r: seq<nat>) {
    if fs == [] then []
    else if fs[0].start == off then [fs[0].id] + LinksOf(fs[1..], off + fs[0].id)
    else LinksOf(fs[1..], off)
  }

  /** The id field of a free fragment is one of the links. */
  lemma {:induction false} LinkOfFree(fs: seq<Frag>, off: nat, i: nat)
    requires i < |fs| && OffAfter(fs[..i], off) == fs[i].start
    ensures fs[i].id in LinksOf(fs, off)
    decreases |fs|
  {
    if i > 0 {
      assert fs[..i][1..] == fs[1..][..i - 1];
      LinkOfFree(fs[1..], if fs[0].start == off then off + fs[0].id else off, i - 1);
    }
  }

  /** Free links that stay inside the zone cannot equal an id that is at least the zone's bit count. */
  lemma LinksInside(g: Geo, z: nat, v: ZoneView, id: nat)
    requires ViewOk(g, v) && id >= g.ZoneBits()
    requires forall l :: l in LinksOf(Frags(g, z, v), HeadOff(v.head)) ==> l < g.ZoneBits()
    ensures Genuine(g, z, v, id)
  {
    hide Geo.Ok, Fragments, FreeOf, LinksOf, FirstWithId, HeadOff, OffAfter;
    var fs, free := Frags(g, z, v), ZoneFree(g, z, v);
    var k := FirstWithId(fs, id);
    if k < |fs| {
      forall r | r in free ensures r.start != fs[k].start {
        var j :| 0 <= j < |free| && free[j] == r;
        var i := NthFree(fs, HeadOff(v.head), j);
        LinkOfFree(fs, HeadOff(v.head), i);
        ZoneFreeBounds(g, z, v);
        StartsDiffer(fs, g.FirstBit(z), |v.bits|, g.idlen + 1, i, k);
      }
    }
  }

  lemma StartsDiffer(fs: seq<Frag>, p: nat, end: nat, min: nat, i: nat, j: nat)
    requires Tiles(fs, p, end, min) && min > 0 && i < |fs| && j < |fs| && i != j
    ensures fs[i].start != fs[j].start
  {
    TilesOrdered(fs, p, end, min, if i < j then i else j, if i < j then j else i);
    TilesAt(fs, p, end, min, if i < j then i else j);
  }

  // ----- Sector addresses

  lemma ModShift(a: nat, x: nat, y: nat)
    ensures (a + x) % WORD == (a + y) % WORD <==> x % WORD == y % WORD
  {
  }

  lemma ModFactor(x: nat, p: nat)
    ensures x % WORD * p % WORD == x * p % WORD
  {
    var q, r := x / WORD, x % WORD;
    assert x * p == r * p + q * p * WORD;
    ModDrop(r * p, q * p, WORD);
  }

  /** Sectors per allocation unit. */
  lemma SectorsPerUnit(g: Geo)
    requires g.log2bpmb >= g.log2secsize
    ensures g.Bpmb() / g.SecSize() == Pow2(g.log2bpmb - g.log2secsize)
  {
    Pow2Split(g.log2bpmb, g.log2secsize);
    DivUnique(g.Bpmb(), g.SecSize(), Pow2(g.log2bpmb - g.log2secsize), 0);
  }

  /** Sector the kernel computes for a chunk and the low byte of the address. */
  function KernelSector(g: Geo, c: Chunk, low: nat, lbaBase: nat): int {
    (lbaBase + (LfauNo(g, c.zone, c.start) + low / 2) % WORD * (g.Bpmb() / g.SecSize())) % WORD
  }

  /** DiscReader's offset for the low byte of the address. */
  function Share(g: Geo, low: nat): nat {
    if low > 1 then
      MulMonotone(0, low - 1, Pow2(g.shareSize));
      (low - 1) * Pow2(g.shareSize)
    else 0
  }

  /** Sector DiscReader computes for the same chunk, counted from the same base. */
  function ReaderSector(g: Geo, c: Chunk, low: nat, lbaBase: nat): int {
    (lbaBase + (MapAddr(g, c.zone, c.start) + Share(g, low)) % WORD) % WORD
  }

  /** The kernel and DiscReader compute the same sector for a chunk exactly when they make the same
      of the low byte of the address; for low bytes 0 and 1 they always do. */
  lemma SameSector(g: Geo, c: Chunk, low: nat, lbaBase: nat)
    requires KernelGeo(g) && InZone(g, c) && low < 0x100
    ensures KernelSector(g, c, low, lbaBase) == ReaderSector(g, c, low, lbaBase) <==>
            low / 2 * Pow2(g.log2bpmb - g.log2secsize) % WORD == Share(g, low) % WORD
    ensures low <= 1 ==> KernelSector(g, c, low, lbaBase) == ReaderSector(g, c, low, lbaBase)
  {
    hide Geo.Ok, InZone, MapAddr, LfauNo, Pow2, Geo.Bpmb, Geo.SecSize, Share, Geo.ZoneBits;
    SectorsPerUnit(g);
    MapAddrSectors(g, c);
    var p := Pow2(g.log2bpmb - g.log2secsize);
    Agreement(lbaBase, LfauNo(g, c.zone, c.start), low / 2, p, Share(g, low));
    if low <= 1 {
      NoOffset(g, low, p);
    }
  }

  /** On a disc with 512-byte sectors and 1 KB allocation units the two readers differ for low byte 2. */
  lemma SectorsDiffer()
    ensures var g, c := Geo(9, 15, 10, 1, 32, 0, 0), Chunk(0, 480, 16);
            && KernelGeo(g) && InZone(g, c)
            && KernelSector(g, c, 2, 0) == 2 && ReaderSector(g, c, 2, 0) == 1
  {
    var g, c := Geo(9, 15, 10, 1, 32, 0, 0), Chunk(0, 480, 16);
    SmallPowers();
    assert g.SecSize() == 512 && g.Bpmb() == 1024 && g.ZoneBits() == 4064 && g.IdsPerZone() == 254;
    assert LfauNo(g, 0, 480) == 0 && MapAddr(g, 0, 480) == 0 && Share(g, 2) == 1;
  }

  lemma SmallPowers()
    ensures Pow2(0) == 1 && Pow2(1) == 2 && Pow2(9) == 512 && Pow2(10) == 1024 && Pow2(15) == 32768
  {
    assert Pow2(3) == 8 && Pow2(6) == 64;
    assert Pow2(12) == 4096;
  }

  lemma NoOffset(g: Geo, low: nat, p: nat)
    requires low <= 1
    ensures low / 2 * p % WORD == Share(g, low) % WORD
  {
    assert low / 2 == 0;
  }

  lemma Agreement(base: nat, n: nat, ch: nat, p: nat, share: nat)
    ensures (base + (n + ch) % WORD * p) % WORD == (base + (n * p + share) % WORD) % WORD
            <==> ch * p % WORD == share % WORD
  {
    var x, y := (n + ch) * p, n * p + share;
    ModFactor(n + ch, p);
    ModShift(base, (n + ch) % WORD * p, x);
    ModShift(base, y % WORD, y);
    assert y % WORD % WORD == y % WORD;
    assert x == n * p + ch * p;
    ModShift(n * p, ch * p, share);
    ModShift(base, x, y);
  }

  /** Different map bits have different sectors. */
  lemma SectorTells(g: Geo, c: Chunk, d: Chunk, low: nat, lbaBase: nat)
    requires KernelGeo(g) && InZone(g, c) && InZone(g, d) && low <= 1
    requires KernelSector(g, c, low, lbaBase) == (lbaBase + MapAddr(g, d.zone, d.start) % WORD) % WORD
    ensures c.zone == d.zone && c.start == d.start
  {
    hide Geo.Ok, MapAddr, LfauNo, Pow2, Geo.Bpmb, Geo.SecSize, Geo.ZoneBits, KernelSector;
    SameSector(g, c, low, lbaBase);
    var a, b := MapAddr(g, c.zone, c.start), MapAddr(g, d.zone, d.start);
    MapAddrSmall(g, c);
    MapAddrSmall(g, d);
    SmallMod(a);
    SmallMod(b);
    ModShift(lbaBase, a, b);
    assert a == b;
    MapAddrSectors(g, c);
    MapAddrSectors(g, d);
    SameFactor(LfauNo(g, c.zone, c.start), LfauNo(g, d.zone, d.start), Pow2(g.log2bpmb - g.log2secsize));
    UnitTells(g, c, d);
  }

  lemma SameFactor(m: nat, n: nat, p: nat)
    requires m * p == n * p && p > 0
    ensures m == n
  {
    if m < n {
      MulGap(m, n, p);
    } else if n < m {
      MulGap(n, m, p);
    }
  }

  lemma UnitTells(g: Geo, c: Chunk, d: Chunk)
    requires InZone(g, c) && InZone(g, d) && g.ZoneBits() >= 0 && LfauNo(g, c.zone, c.start) == LfauNo(g, d.zone, d.start)
    ensures c.zone == d.zone && c.start == d.start
  {
    hide Geo.ZoneBits;
    if c.zone < d.zone {
      MulGap(c.zone, d.zone, g.ZoneBits());
    } else if d.zone < c.zone {
      MulGap(d.zone, c.zone, g.ZoneBits());
    }
  }

  /** The lookup succeeds exactly when the whole-disc scan gives the object a chunk in its home zone,
      and then answers the sector that SinAddr finds in the store of that scan. */
  ghost predicate Refines(g: Geo, vs: seq<ZoneView>, ida: nat, lbaBase: nat)
    requires ViewsOk(g, vs) && g.IdsPerZone() > 0
  {
    var id, z := ida / 0x100, HomeZone(ida / 0x100, g.IdsPerZone());
    var s := Build(DiscUsed(g, vs, 0, |vs|), g.IdsPerZone());
    && (forall i :: i in s ==> s[i] != [])
    && (KernelFinds(g, vs, ida) <==> exists c :: c in Chunks(s, id) && c.zone == z)
    && (KernelFinds(g, vs, ida) ==> KernelAnswer(g, vs, ida, lbaBase) == (lbaBase + SinAddr(g, s, ida)) % WORD)
  }

  /** The fragment that the kernel takes for the object is no free run. */
  ghost predicate HomeGenuine(g: Geo, vs: seq<ZoneView>, id: nat)
    requires ViewsOk(g, vs) && g.IdsPerZone() > 0
  {
    HomeZone(id, g.IdsPerZone()) < g.nzones ==> Genuine(g, HomeZone(id, g.IdsPerZone()), vs[HomeZone(id, g.IdsPerZone())], id)
  }

  /** For every map and every object above 2, the kernel's one-sector lookup does what the scan of the
      whole disc does exactly when the first fragment that carries the id is no free run. */
  lemma LookupRefines(g: Geo, vs: seq<ZoneView>, ida: nat, lbaBase: nat)
    requires KernelGeo(g) && ViewsOk(g, vs) && g.IdsPerZone() > 0 && ida / 0x100 > 2 && ida % 0x100 <= 1
    ensures Refines(g, vs, ida, lbaBase) <==> HomeGenuine(g, vs, ida / 0x100)
  {
    hide Build, DiscUsed, HomeZone, Geo.Ok, Addressable, Frags, FirstWithId, InZone, Genuine, KernelAnswer, SinAddr;
    var us := DiscUsed(g, vs, 0, |vs|);
    var s, id, z := Build(us, g.IdsPerZone()), ida / 0x100, HomeZone(ida / 0x100, g.IdsPerZone());
    BuildNonEmpty(us, g.IdsPerZone());
    DiscUsedOrdered(g, vs, |vs|);
    if z < g.nzones {
      FirstChunk(g, vs, id);
      if KernelFinds(g, vs, ida) && Chunks(s, id) != [] {
        AnswerTells(g, vs, ida, lbaBase);
      }
    } else {
      NoChunkBeyond(g, us, |vs|, id, z);
    }
  }

  /** The kernel answers the sector that SinAddr finds exactly when the fragment it finds stands where
      the chunk list begins. */
  lemma AnswerTells(g: Geo, vs: seq<ZoneView>, ida: nat, lbaBase: nat)
    requires KernelGeo(g) && ViewsOk(g, vs) && g.IdsPerZone() > 0 && ida / 0x100 > 2 && ida % 0x100 <= 1
    requires KernelFinds(g, vs, ida)
    requires var s := Build(DiscUsed(g, vs, 0, |vs|), g.IdsPerZone());
             (forall i :: i in s ==> s[i] != []) && Chunks(s, ida / 0x100) != []
    ensures var id, z := ida / 0x100, HomeZone(ida / 0x100, g.IdsPerZone());
            var s := Build(DiscUsed(g, vs, 0, |vs|), g.IdsPerZone());
            var f := Frags(g, z, vs[z])[FirstWithId(Frags(g, z, vs[z]), id)];
            var c := Chunks(s, id)[0];
            KernelAnswer(g, vs, ida, lbaBase) == (lbaBase + SinAddr(g, s, ida)) % WORD <==> c.zone == z && c.start == f.start
  {
    hide Build, DiscUsed, HomeZone, Geo.Ok, Addressable, Frags, FirstWithId, InZone, MapAddr, KernelSector, LfauNo;
    var us, id, z := DiscUsed(g, vs, 0, |vs|), ida / 0x100, HomeZone(ida / 0x100, g.IdsPerZone());
    var k := FirstWithId(Frags(g, z, vs[z]), id);
    var f, c := Frags(g, z, vs[z])[k], Chunks(Build(us, g.IdsPerZone()), id)[0];
    var d := Chunk(z, f.start, f.len);
    DiscUsedOrdered(g, vs, |vs|);
    StoreApart(g, us, |vs|, id, id);
    assert c in Chunks(Build(us, g.IdsPerZone()), id);
    IdOfFragment(g, z, vs[z], k);
    FragInZone(g, z, vs[z], k);
    SameSector(g, d, ida % 0x100, lbaBase);
    if KernelSector(g, d, ida % 0x100, lbaBase) == (lbaBase + MapAddr(g, c.zone, c.start) % WORD) % WORD {
      SectorTells(g, d, c, ida % 0x100, lbaBase);
    }
  }

  lemma FragInZone(g: Geo, z: nat, v: ZoneView, k: nat)
    requires ViewOk(g, v) && z < g.nzones && k < |Frags(g, z, v)|
    ensures InZone(g, Chunk(z, Frags(g, z, v)[k].start, Frags(g, z, v)[k].len))
  {
    hide Geo.Ok, Fragments;
    ZoneFreeBounds(g, z, v);
    TilesAt(Frags(g, z, v), g.FirstBit(z), |v.bits|, g.idlen + 1, k);
  }

  // ----- An input on which the lookup goes wrong

  /** One zone: two free runs, the first with link 20, and an object with id 20. */
  function LinkedZone(): (v: ZoneView) {
    ZoneView(HeadFor(480), seq(4064, i => i == 482 || i == 484 || i == 499 || i == 519 || i == 522 || i == 524 || i == 4063))
  }

  function LinkedGeo(): (g: Geo) {
    Geo(9, 15, 10, 1, 32, 0, 0)
  }

  lemma {:induction false} OneTwenty(bits: seq<bool>, p: nat)
    requires p + 15 <= |bits| && forall i :: p <= i < p + 15 ==> (bits[i] <==> i == p + 2 || i == p + 4)
    ensures Field(bits, p, 15) == 20
  {
    FieldZero(bits, p + 5, 10);
    assert Field(bits, p + 4, 11) == 1;
    assert Field(bits, p + 3, 12) == 2;
    assert Field(bits, p + 2, 13) == 5;
    assert Field(bits, p + 1, 14) == 10;
  }

  lemma LinkedFrag(p: nat, e: nat, id: nat)
    requires (p == 480 && e == 500 && id == 20) || (p == 500 && e == 520 && id == 0) || (p == 520 && e == 4064 && id == 20)
    ensures var bits := LinkedZone().bits;
            FragAt(bits, p, 15) == Frag(p, e - p, id) && Terminated(bits, Frag(p, e - p, id), 15)
  {
    hide SkipZeros, Field;
    var bits := LinkedZone().bits;
    SkipZerosIs(bits, p + 15, e);
    if id == 20 {
      OneTwenty(bits, p);
    } else {
      FieldZero(bits, p, 15);
    }
  }

  lemma LinkedFrags()
    ensures ViewOk(LinkedGeo(), LinkedZone())
    ensures Frags(LinkedGeo(), 0, LinkedZone()) == [Frag(480, 20, 20), Frag(500, 20, 0), Frag(520, 3544, 20)]
    ensures ZoneClosed(LinkedGeo(), 0, LinkedZone())
  {
    hide Geo.Ok, FragAt, Terminated, Geo.ZoneBits;
    LinkedGeoOk();
    HeadOffOf(480);
    LinkedFrag(480, 500, 20);
    LinkedFrag(500, 520, 0);
    LinkedFrag(520, 4064, 20);
    var bits := LinkedZone().bits;
    assert Fragments(bits, 4064, 15) == [];
    assert Fragments(bits, 520, 15) == [Frag(520, 3544, 20)];
    assert Fragments(bits, 500, 15) == [Frag(500, 20, 0), Frag(520, 3544, 20)];
    assert Fragments(bits, 480, 15) == [Frag(480, 20, 20), Frag(500, 20, 0), Frag(520, 3544, 20)];
  }

  lemma LinkedLists()
    ensures ViewOk(LinkedGeo(), LinkedZone())
    ensures ZoneFree(LinkedGeo(), 0, LinkedZone()) == [Run(480, 20), Run(500, 20)]
    ensures ZoneUsed(LinkedGeo(), 0, LinkedZone()) == [Frag(520, 3544, 20)]
  {
    hide Geo.Ok, Fragments, Geo.ZoneBits, FreeOf, UsedOf;
    LinkedFrags();
    HeadOffOf(480);
    var e := LinkedGeo().DiscEnd();
    var a, b, c := Frag(480, 20, 20), Frag(500, 20, 0), Frag(520, 3544, 20);
    assert [a, b, c][1..] == [b, c] && [b, c][1..] == [c] && [c][1..] == [];
    OneFragment([a, b, c], 480, e);
    OneFragment([b, c], 500, e);
    OneFragment([c], 500, e);
    NoMore(500, e);
  }

  lemma NoMore(off: nat, discEnd: nat)
    ensures FreeOf([], off) == [] && UsedOf([], off, discEnd) == []
  {
  }

  lemma LinkedStore()
    ensures ViewsOk(LinkedGeo(), [LinkedZone()])
    ensures Build(DiscUsed(LinkedGeo(), [LinkedZone()], 0, 1), 254) == map[20 := [Chunk(0, 520, 3544)]]
  {
    hide Geo.Ok, ZoneUsed, Add, Build, LinkedZone, LinkedGeo;
    LinkedLists();
    LinkedViews();
    var u := Used(20, Chunk(0, 520, 3544));
    OneZone(LinkedGeo(), LinkedZone(), u);
    BuildOne(u);
  }

  lemma LinkedViews()
    ensures ViewsOk(LinkedGeo(), [LinkedZone()])
  {
    hide Geo.Ok, LinkedZone;
    LinkedGeoOk();
    LinkedLists();
  }

  lemma OneZone(g: Geo, v: ZoneView, u: Used)
    requires ViewOk(g, v) && ViewsOk(g, [v]) && u.chunk.zone == 0 && ZoneUsed(g, 0, v) == [Frag(u.chunk.start, u.chunk.len, u.id)]
    ensures DiscUsed(g, [v], 0, 1) == [u]
  {
    hide Geo.Ok, ZoneUsed;
    assert DiscUsed(g, [v], 0, 0) == [];
  }

  lemma BuildOne(u: Used)
    ensures Build([u], 254) == map[u.id := [u.chunk]]
  {
    assert [u][..0] == [];
    assert Build([], 254) == map[];
  }

  /** All fragments are terminated, so that the map is accepted; the kernel takes the first free run for
      object 20, and answers sector 0 instead of 80. */
  lemma LinkTaken()
    ensures var g, v, ida := LinkedGeo(), LinkedZone(), 20 * 0x100;
            && KernelGeo(g) && ViewsOk(g, [v]) && ZoneClosed(g, 0, v) && g.IdsPerZone() == 254
            && Frags(g, 0, v) == [Frag(480, 20, 20), Frag(500, 20, 0), Frag(520, 3544, 20)]
            && ZoneFree(g, 0, v) == [Run(480, 20), Run(500, 20)] && !HomeGenuine(g, [v], 20)
            && KernelFinds(g, [v], ida) && KernelAnswer(g, [v], ida, 0) == 0
            && var s := Build(DiscUsed(g, [v], 0, 1), 254);
            && s == map[20 := [Chunk(0, 520, 3544)]] && SinAddr(g, s, ida) == 80
  {
    hide Geo.Ok, Fragments, Frags, ZoneFree, ZoneUsed, Build, DiscUsed, Addressable, ZoneClosed, Geo.ZoneBits, Geo.IdsPerZone,
         Geo.SecSize, Geo.Bpmb;
    var g, v := LinkedGeo(), LinkedZone();
    LinkedGeoOk();
    LinkedFrags();
    LinkedLists();
    LinkedStore();
    assert FirstWithId(Frags(g, 0, v), 20) == 0;
    assert ZoneFree(g, 0, v)[0] in ZoneFree(g, 0, v);
  }

  lemma LinkedGeoOk()
    ensures var g := LinkedGeo();
            && KernelGeo(g) && g.ZoneBits() == 4064 && g.FirstBit(0) == 480 && g.IdsPerZone() == 254
            && g.Bpmb() == 1024 && g.SecSize() == 512 && Pow2(15) == 32768 && Pow2(1) == 2 && HomeZone(20, 254) == 0
  {
    SmallPowers();
  }

  lemma IdOfFragment(g: Geo, z: nat, v: ZoneView, k: nat)
    requires ViewOk(g, v) && k < |Frags(g, z, v)|
    ensures Frags(g, z, v)[k].id < Pow2(g.idlen)
  {
    hide Geo.Ok;
    ViewRoom(g, z, v);
    FragmentsAt(v.bits, g.FirstBit(z), g.idlen, k);
  }

  /** No chunk lies in a zone that the disc does not have. */
  lemma NoChunkBeyond(g: Geo, us: seq<Used>, hi: nat, id: nat, z: nat)
    requires g.IdsPerZone() > 0 && InDiscOrder(g, us, hi) && z >= hi
    ensures forall c :: c in Chunks(Build(us, g.IdsPerZone()), id) ==> c.zone != z
  {
    hide Build, Select, HomeZone, FirstHome, InZone, Ascending;
    StoreList(g, us, hi, id);
    SelectZones(us, id, 0, hi);
    forall c | c in Chunks(Build(us, g.IdsPerZone()), id) ensures c.zone != z {
      assert c in Select(us, id);
    }
  }
}
