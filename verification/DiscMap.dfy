/** discreader/Map.c: the map in memory, its scan into a free list and a store of objects, and the
    allocation of new objects, which edits bytes and lists together. */
module DiscMaps {
  import opened Arithmetic
  import opened Words
  import opened Bits
  import opened Geometry
  import opened MapScan
  import opened MapChain
  import opened MapObjects
  import opened ZoneClaim
  import opened DiscScan
  import opened FreeLists
  import opened MapBytes

  /** Ids that are files or directories. */
  ghost function ObjectIds(s: Store): set<nat> {
    set id | id in s && id > 1
  }

  lemma IdsPositive(g: Geo)
    requires g.Ok()
    ensures g.IdsPerZone() > 0
  {
    DivAtLeast(g.ZoneBits(), g.idlen + 1, 1);
  }

  /** What ReadMapContents accepts: only the last fragment of the disc may lack a terminator. */
  ghost predicate ZoneAccepted(g: Geo, z: nat, v: ZoneView)
    requires ViewOk(g, v)
  {
    forall f :: f in Frags(g, z, v) ==>
      Terminated(v.bits, f, g.idlen) || (z == g.nzones - 1 && f.End() == |v.bits|)
  }

  /** Every zone is accepted. */
  ghost predicate AllAccepted(g: Geo, vs: seq<ZoneView>)
    requires ViewsOk(g, vs)
  {
    forall z :: 0 <= z < g.nzones ==> ZoneAccepted(g, z, vs[z])
  }

  /** Only the last fragment of a zone can lack its terminator, so every last zone is accepted, and
      any other zone exactly when all its fragments are terminated. */
  lemma AcceptedMeans(g: Geo, z: nat, v: ZoneView)
    requires ViewOk(g, v) && z < g.nzones
    ensures ZoneAccepted(g, z, v) <==> z == g.nzones - 1 || ZoneClosed(g, z, v)
  {
    hide Geo.Ok, Fragments, Terminated;
    var fs := Frags(g, z, v);
    ViewRoom(g, z, v);
    forall i | 0 <= i < |fs| ensures fs[i].End() == |v.bits| || Terminated(v.bits, fs[i], g.idlen) {
      TerminatedOrLast(v.bits, g.FirstBit(z), g.idlen, i);
    }
  }

  /** A map that ReadMapContents accepts is accepted after MakeID's edit too. */
  lemma AcceptedStays(g: Geo, vs: seq<ZoneView>, z: nat, k: nat, n: nat, id: nat)
    requires ViewsOk(g, vs) && z < |vs| && k < |ZoneFree(g, z, vs[z])| && ClaimPre(g, z, vs[z], k, n)
    requires 1 < id < Pow2(g.idlen) && g.idlen < n
    requires var c := ZoneFree(g, z, vs[z])[k]; n == c.len || n + g.idlen < c.len
    ensures var vs' := vs[z := Claimed(g, vs[z], ZoneFree(g, z, vs[z]), k, n, id)];
            ViewsOk(g, vs') && (AllAccepted(g, vs) ==> AllAccepted(g, vs'))
  {
    hide Geo.Ok, ZoneAccepted, ZoneClosed, ZoneFree, ZoneUsed, Claimed;
    var v' := Claimed(g, vs[z], ZoneFree(g, z, vs[z]), k, n, id);
    var m := ClaimRescan(g, z, vs[z], k, n, id);
    AcceptedMeans(g, z, vs[z]);
    AcceptedMeans(g, z, v');
  }

  /** MakeID clears no id field for the second half of the last free run: it leaves a link of zero
      there exactly when the bits behind the cut were clear. */
  lemma LastLink(g: Geo, z: nat, v: ZoneView, k: nat, n: nat, id: nat)
    requires ViewOk(g, v) && k + 1 == |ZoneFree(g, z, v)| && ClaimPre(g, z, v, k, n)
    requires g.idlen < n && n + g.idlen < ZoneFree(g, z, v)[k].len
    ensures var c := ZoneFree(g, z, v)[k];
            var b := Claimed(g, v, ZoneFree(g, z, v), k, n, id).bits;
            && |b| == |v.bits| && c.start + n + g.idlen < |b|
            && Field(b, c.start + n, g.idlen) == Field(v.bits, c.start + n, g.idlen)
            && (Field(b, c.start + n, g.idlen) == 0 <==> ClearTo(v.bits, c.start, g.idlen, n))
  {
    hide Geo.Ok, ZoneFree, HeadOff, ClearTo, SetField, Field;
    var free := ZoneFree(g, z, v);
    var c := free[k];
    var b := Claimed(g, v, free, k, n, id).bits;
    ZoneFreeBounds(g, z, v);
    assert c in free;
    FieldLocal(v.bits, b, c.start + n, g.idlen);
    FieldZero(v.bits, c.start + n, g.idlen);
    ClearBehind(g, z, v, k, n);
  }

  /** In a free run that can be cut, only the bits behind the cut can be set. */
  lemma ClearBehind(g: Geo, z: nat, v: ZoneView, k: nat, n: nat)
    requires ViewOk(g, v) && k < |ZoneFree(g, z, v)|
    requires g.idlen < n && n + g.idlen < ZoneFree(g, z, v)[k].len
    ensures var s := ZoneFree(g, z, v)[k].start;
            && s + n + g.idlen <= |v.bits|
            && (ClearTo(v.bits, s, g.idlen, n) <==> forall i :: s + n <= i < s + n + g.idlen ==> !v.bits[i])
  {
    hide Geo.Ok, Fragments, FreeOf, HeadOff, SkipZeros, OffAfter;
    var fs := Frags(g, z, v);
    ViewRoom(g, z, v);
    var i := NthFree(fs, HeadOff(v.head), k);
    FragmentsAt(v.bits, g.FirstBit(z), g.idlen, i);
    ClearToCut(v.bits, fs[i].start, g.idlen, n);
  }

  /** On a map that ReadMapContents accepts, only a free run that reaches the end of the last zone can
      have other bits than zero behind a cut. */
  lemma AcceptedIsClear(g: Geo, z: nat, v: ZoneView, k: nat, n: nat)
    requires ViewOk(g, v) && z < g.nzones && ZoneAccepted(g, z, v) && k < |ZoneFree(g, z, v)|
    requires var c := ZoneFree(g, z, v)[k];
             n + g.idlen < c.len && (z < g.nzones - 1 || c.start + c.len < |v.bits|)
    ensures ClearTo(v.bits, ZoneFree(g, z, v)[k].start, g.idlen, n)
  {
    hide Geo.Ok, Fragments, FreeOf, HeadOff, SkipZeros, OffAfter;
    var fs := Frags(g, z, v);
    var i := NthFree(fs, HeadOff(v.head), k);
    assert fs[i] in fs;
  }

  /** One zone of 512-byte sectors whose only free run ends in fifteen bits that a set bit cuts off. */
  function ShortZone(): (v: ZoneView) {
    ZoneView(HeadFor(480), seq(4064, i => i == 4048))
  }

  function ShortGeo(): (g: Geo) {
    Geo(9, 15, 10, 1, 32, 0, 0)
  }

  /** The scan adds a rest too short for an id to the run before it. Taking all but sixteen bits of
      such a run leaves a link to bit 4049, where no fragment starts. */
  lemma ShortRest()
    ensures var g, v := ShortGeo(), ShortZone();
            && ViewOk(g, v) && ZoneAccepted(g, 0, v) && ZoneFree(g, 0, v) == [Run(480, 3584)]
            && TakenBits(g, 3584, 3568 * 1024) == 3568 && ClaimPre(g, 0, v, 0, 3568)
            && Field(Claimed(g, v, ZoneFree(g, 0, v), 0, 3568, 3).bits, 4048, g.idlen) == 1
  {
    hide Geo.Ok, ZoneFree, SetField, Claimed, ClaimPre, TakenBits, ZoneAccepted;
    var g, v := ShortGeo(), ShortZone();
    ShortScan();
    AcceptedMeans(g, 0, v);
    ClaimPreHolds(g, 0, v, 0, 3568);
    LastLink(g, 0, v, 0, 3568, 3);
    FieldZero(v.bits, 4049, 14);
  }

  lemma ShortScan()
    ensures var g, v := ShortGeo(), ShortZone();
            && ViewOk(g, v) && ZoneFree(g, 0, v) == [Run(480, 3584)]
            && TakenBits(g, 3584, 3568 * 1024) == 3568
  {
    hide Geo.Ok, Geo.ZoneBits, TakenBits, Field, SkipZeros;
    var g, v := ShortGeo(), ShortZone();
    ShortGeoOk();
    SkipZerosIs(v.bits, 495, 4049);
    assert Fragments(v.bits, 4064, 15) == [];
    assert Frags(g, 0, v) == [Frag(480, 3584, Field(v.bits, 480, 15))];
    HeadOffOf(480);
  }

  lemma ShortGeoOk()
    ensures var g := ShortGeo(); g.Ok() && g.ZoneBits() == 4064 && g.FirstBit(0) == 480
    ensures TakenBits(ShortGeo(), 3584, 3568 * 1024) == 3568
  {
    assert Pow2(5) == 32;
    assert Pow2(9) == 512;
    assert Pow2(10) == 1024;
    assert Pow2(15) == 32768;
  }

  /** Bits MakeID asks for: whole allocation units for size bytes, and at least an id and a terminator. */
  function WantedBits(g: Geo, size: nat): nat {
    var len := (size + g.Lfau() - 1) % WORD / g.Bpmb();
    if len < g.idlen + 1 then g.idlen + 1 else len
  }

  /** Bits MakeID takes of a free run: the rest must hold a minimal object, or it is taken as well. */
  function TakenBits(g: Geo, run: nat, size: nat): nat {
    if run >= g.Minimum() / g.Bpmb() + WantedBits(g, size) then WantedBits(g, size) else run
  }

  /** Chain arithmetic does not leave 32 bits. */
  lemma StartPlusId(g: Geo, f: Frag)
    requires g.Ok() && f.start < g.ZoneBits() && f.id < Pow2(g.idlen)
    ensures f.start + f.id < WORD
  {
    Pow2Monotone(g.idlen, 24);
    PowerOf24();
  }

  lemma PowerOf24()
    ensures Pow2(24) == 0x100_0000
  {
    assert Pow2(6) == 0x40;
    assert Pow2(12) == 0x1000;
    assert Pow2(18) == 0x4_0000;
  }

  /** What the end q of the zero bits makes of the fragment at p. */
  lemma FragAtIs(bits: seq<bool>, p: nat, idlen: nat, q: nat)
    requires p + idlen < |bits| && q == SkipZeros(bits, p + idlen)
    ensures var e := if q != |bits| && |bits| - q < idlen + 1 then |bits| else q;
            var f := FragAt(bits, p, idlen);
            && f == Frag(p, e - p, Field(bits, p, idlen))
            && (Terminated(bits, f, idlen) <==> e == q && bits[q - 1])
  {
    hide Field, SkipZeros;
  }

  /** What the chain makes of a single fragment. */
  lemma OneOnly(f: Frag, off: nat, discEnd: nat)
    ensures FreeOf([f], off) == if f.start == off then [Run(f.start, f.len)] else []
    ensures UsedOf([f], off, discEnd) == if f.start != off && Stored(f, discEnd) then [f] else []
    ensures OffAfter([f], off) == if f.start == off then off + f.id else off
  {
    assert [f][1..] == [];
  }

  lemma OneBit(bits: seq<bool>, p: nat)
    requires p < |bits|
    ensures SetField(bits, p, 1, 1) == bits[p := true]
  {
  }

  lemma Distribute(a: nat, b: nat, c: nat)
    ensures (a + b) * c == a * c + b * c
  {
  }

  lemma TakenEnough(g: Geo, vs: seq<ZoneView>, z: nat, kz: nat, size: nat)
    requires ViewsOk(g, vs) && z < |vs| && kz < |ZoneFree(g, z, vs[z])|
    ensures var len := ZoneFree(g, z, vs[z])[kz].len;
            var n := TakenBits(g, len, size);
            g.idlen < n && (n == len || n + g.idlen < len)
  {
    hide ZoneFree, Geo.Minimum;
    MinimumCoversId(g);
    ZoneFreeBounds(g, z, vs[z]);
    assert ZoneFree(g, z, vs[z])[kz] in ZoneFree(g, z, vs[z]);
  }

  lemma IdFits(g: Geo, z: nat, id: nat)
    requires g.Ok() && z < g.nzones && g.IdsPerZone() > 0
    requires z * g.IdsPerZone() <= id < (z + 1) * g.IdsPerZone()
    ensures HomeZone(id, g.IdsPerZone()) == z && id < Pow2(g.idlen)
  {
    HomeZoneTest(id, z, g.IdsPerZone());
    if z + 1 < g.nzones {
      MulGap(z + 1, g.nzones, g.IdsPerZone());
    }
  }

  class DiscMap {
    const g: Geo
    const bytes: array<byte>
    const list: FreeList
    ghost var freelist: seq<FreeInfo>   // what the linked list holds
    var objects: Store
    var countFree: nat
    var countObjects: nat
    var spaceFree: nat
    var spaceUsed: nat

    ghost predicate Valid()
      reads bytes
    {
      Loaded(g, bytes[..])
    }

    ghost function Views(): (vs: seq<ZoneView>)
      requires Valid()
      reads bytes
      ensures ViewsOk(g, vs)
    {
      ViewsOf(g, bytes[..])
    }

    /** The lists and counters stand for the free entries l and the AddID calls us. */
    ghost predicate Holds(l: seq<FreeInfo>, us: seq<Used>)
      requires g.IdsPerZone() > 0
      reads this
    {
      && freelist == l && objects == Build(us, g.IdsPerZone())
      && countFree == |l| && countObjects == |ObjectIds(objects)|
      && spaceFree == FreeBits(l) * g.Bpmb() && spaceUsed == UsedBits(us) * g.Bpmb()
    }

    /** The linked list holds the free entries. */
    ghost predicate Linked()
      reads `freelist, list, list.repr
    {
      list.Valid() && list.Contents() == freelist
    }

    /** The lists in memory are what scanning the bytes in memory gives. */
    ghost predicate Mirror()
      reads this, bytes, list, list.repr
    {
      && Valid() && g.IdsPerZone() > 0 && Linked()
      && Holds(DiscFree(g, Views(), 0, g.nzones), DiscUsed(g, Views(), 0, g.nzones))
    }

    /** The state before ReadMapContents: map bytes loaded, nothing scanned. */
    constructor (g: Geo, bytes: array<byte>)
      requires Loaded(g, bytes[..])
      ensures this.g == g && this.bytes == bytes && Valid() && Linked()
      ensures freelist == [] && objects == map[] && countFree == countObjects == spaceFree == spaceUsed == 0
    {
      this.g, this.bytes := g, bytes;
      list := new FreeList();
      freelist, objects := [], map[];
      countFree, countObjects, spaceFree, spaceUsed := 0, 0, 0, 0;
    }

    function GetBit(zone: nat, bitno: nat): (x: bool)
      requires Valid() && zone < g.nzones && bitno < g.ZoneBits()
      reads bytes
      ensures x == Views()[zone].bits[bitno]
    {
      ViewBit(g, bytes[..], zone, bitno);
      BitOf(bytes[ByteOf(g, bytes[..], zone, bitno)], bitno % 8)
    }

    method SetBit(zone: nat, bitno: nat, value: bool)
      requires Valid() && zone < g.nzones && bitno < g.ZoneBits()
      modifies bytes
      ensures Valid()
      ensures Views() == old(Views())[zone := old(Views())[zone].(bits := old(Views())[zone].bits[bitno := value])]
    {
      BitUpdate(g, bytes[..], zone, bitno, value);
      ghost var before := bytes[..];
      var n := ByteOf(g, bytes[..], zone, bitno);
      bytes[n] := PutBit(bytes[n], bitno % 8, value);
      assert bytes[..] == before[n := PutBit(before[n], bitno % 8, value)];
    }

    /** Stores the low len bits of value from bit start of the zone on. */
    method SetMapBits(zone: nat, start: nat, len: nat, value: nat)
      requires Valid() && zone < g.nzones && start + len <= g.ZoneBits()
      modifies bytes
      ensures Valid()
      ensures Views() == old(Views())[zone := old(Views())[zone].(bits := SetField(old(Views())[zone].bits, start, len, value))]
    {
      ghost var vs := Views();
      var i, p, v := 0, start, value;
      while i < len
        invariant 0 <= i <= len && p == start + i && Valid()
        invariant |Views()[zone].bits| == |vs[zone].bits| == g.ZoneBits()
        invariant Views() == vs[zone := vs[zone].(bits := Views()[zone].bits)]
        invariant SetField(Views()[zone].bits, p, len - i, v) == SetField(vs[zone].bits, start, len, value)
      {
        SetBit(zone, p, v % 2 == 1);
        i, p, v := i + 1, p + 1, v / 2;
      }
    }

    /** Stores the free pointer of a zone. */
    method SetHead(zone: nat, lo: byte, hi: byte)
      requires Valid() && zone < g.nzones
      modifies bytes
      ensures Valid()
      ensures Views() == old(Views())[zone := old(Views())[zone].(head := HeadWord(lo, hi))]
    {
      ghost var before := bytes[..];
      ZoneBytes(g, before, zone);
      var s := zone * g.SecSize();
      bytes[s + 1] := lo;
      bytes[s + 2] := hi;
      ghost var mid: seq<byte> := before[s + 1 := lo];
      assert bytes[..] == mid[s + 2 := hi];
      HeadUpdate(g, before, bytes[..], zone, lo, hi);
    }

    method AddFree(zone: nat, start: nat, len: nat)
      requires Linked()
      modifies `freelist, `countFree, `spaceFree, list, list.repr
      ensures Linked() && fresh(list.repr - old(list.repr))
      ensures freelist == old(freelist) + [FreeInfo(zone, start, len)]
      ensures countFree == old(countFree) + 1
      ensures spaceFree == old(spaceFree) + len * g.Bpmb()
    {
      hide FreeList.Valid, FreeList.Contents;
      list.Append(zone, start, len);
      freelist := freelist + [FreeInfo(zone, start, len)];
      countFree := countFree + 1;
      spaceFree := spaceFree + len * g.Bpmb();
    }

    /** Links c into the chunk list of an object: at the head if it is the first chunk of the natural
        start zone, otherwise behind the highest zone of the first rising stretch. */
    method PutChunk(l: seq<Chunk>, c: Chunk, id: nat) returns (r: seq<Chunk>)
      requires g.IdsPerZone() > 0 && l != []
      ensures r == Insert(l, c, HomeZone(id, g.IdsPerZone()))
    {
      HomeZoneTest(id, c.zone, g.IdsPerZone());
      var zoneid := c.zone * g.IdsPerZone();
      if zoneid <= id < zoneid + g.IdsPerZone() && l[0].zone != c.zone {
        return [c] + l;
      }
      var n := 1;
      assert l[0..] == l;
      while n < |l| && l[n].zone >= l[n - 1].zone
        invariant 1 <= n <= |l|
        invariant RunLength(l) == n - 1 + RunLength(l[n - 1..])
      {
        assert l[n - 1..][1..] == l[n..];
        n := n + 1;
      }
      r := l[..n] + [c] + l[n..];
    }

    method AddID(id: nat, zone: nat, start: nat, len: nat)
      requires g.IdsPerZone() > 0 && countObjects == |ObjectIds(objects)|
      requires forall i :: i in objects ==> objects[i] != []
      modifies `objects, `countObjects, `spaceUsed
      ensures objects == Add(old(objects), Used(id, Chunk(zone, start, len)), g.IdsPerZone())
      ensures countObjects == |ObjectIds(objects)|
      ensures forall i :: i in objects ==> objects[i] != []
      ensures spaceUsed == old(spaceUsed) + (if id > 1 then len * g.Bpmb() else 0)
    {
      var c := Chunk(zone, start, len);
      ghost var ids := ObjectIds(objects);
      if id !in objects {
        objects := objects[id := [c]];
        if id > 1 {
          countObjects := countObjects + 1;
          assert ObjectIds(objects) == ids + {id};
        } else {
          assert ObjectIds(objects) == ids;
        }
      } else {
        var l := PutChunk(objects[id], c, id);
        objects := objects[id := l];
        assert ObjectIds(objects) == ids;
      }
      if id > 1 {
        spaceUsed := spaceUsed + len * g.Bpmb();
      }
    }

    /** The lowest id of the zone's share that has no object, or 0. */
    method FindUnusedID(zone: nat) returns (id: nat)
      requires g.Ok() && zone < g.nzones
      ensures id != 0 ==> 3 <= id && zone * g.IdsPerZone() <= id < (zone + 1) * g.IdsPerZone() && id !in objects
      ensures var hi := if id == 0 then (zone + 1) * g.IdsPerZone() else id;
              forall i :: 3 <= i && zone * g.IdsPerZone() <= i < hi ==> i in objects
    {
      IdsPositive(g);
      var first := zone * g.IdsPerZone();
      var last := first + g.IdsPerZone();
      assert last == (zone + 1) * g.IdsPerZone();
      id := if first < 3 then 3 else first;
      ghost var from := id;
      while id < last
        invariant from <= id
        invariant forall i :: from <= i < id && i < last ==> i in objects
      {
        if id !in objects {
          return;
        }
        id := id + 1;
      }
      id := 0;
    }

    /** The file number in the idlen bits from p on. */
    method ReadID(zone: nat, p: nat) returns (id: nat)
      requires Valid() && zone < g.nzones && p + g.idlen <= g.ZoneBits()
      ensures id == Field(Views()[zone].bits, p, g.idlen)
    {
      hide Geo.Ok, BitOf, ViewsOf, Loaded, Valid, GetBit;
      ghost var bits := Views()[zone].bits;
      id := 0;
      var bitno, weight := 0, 1;
      while bitno < g.idlen
        invariant 0 <= bitno <= g.idlen && weight == Pow2(bitno)
        invariant id == Field(bits, p, bitno)
      {
        hide Field;
        FieldSnoc(bits, p, bitno);
        var bit := GetBit(zone, p + bitno);
        if bit {
          id := id + weight;
        }
        bitno, weight := bitno + 1, 2 * weight;
      }
    }

    /** Skips zero bits from p on; last is the bit the skip stopped at, q the one behind it. */
    method SkipBody(zone: nat, p: nat) returns (last: bool, q: nat)
      requires Valid() && zone < g.nzones && p < g.ZoneBits()
      ensures q == SkipZeros(Views()[zone].bits, p)
      ensures last == Views()[zone].bits[q - 1]
    {
      hide Geo.Ok, Geo.ZoneBits, BitOf, ViewsOf, Loaded, SkipZeros, Valid, GetBit;
      ghost var bits := Views()[zone].bits;
      last := GetBit(zone, p);
      q := p + 1;
      while !last && q < g.ZoneBits()
        invariant p < q <= g.ZoneBits() == |bits|
        invariant last == bits[q - 1]
        invariant forall i :: p <= i < q - 1 ==> !bits[i]
      {
        last := GetBit(zone, q);
        q := q + 1;
      }
      SkipZerosIs(bits, p, q);
    }

    /** One pass of the scan loop: the fragment at p, and whether its terminator is in place. */
    method ReadFrag(zone: nat, p: nat) returns (f: Frag, terminated: bool)
      requires Valid() && zone < g.nzones && p + g.idlen < g.ZoneBits()
      ensures f == FragAt(Views()[zone].bits, p, g.idlen)
      ensures terminated <==> Terminated(Views()[zone].bits, f, g.idlen)
    {
      hide Geo.Ok, BitOf, Field, SkipZeros, ViewsOf, Loaded;
      ghost var bits := Views()[zone].bits;
      var id := ReadID(zone, p);
      var last, e := SkipBody(zone, p + g.idlen);
      FragAtIs(bits, p, g.idlen, e);
      if e != g.ZoneBits() && g.ZoneBits() - e < g.idlen + 1 {
        e, last := g.ZoneBits(), false;
      }
      f, terminated := Frag(p, e - p, id), last;
    }

    /** Enters one fragment in the free list or in the store, and moves the chain on. */
    method Enter(zone: nat, f: Frag, off: nat, ghost l: seq<FreeInfo>, ghost us: seq<Used>) returns (freeoff: nat)
      requires g.IdsPerZone() > 0 && Holds(l, us) && f.start + f.id < WORD && Linked()
      modifies this, list, list.repr
      ensures Linked() && fresh(list.repr - old(list.repr))
      ensures Holds(l + TagFree(zone, FreeOf([f], off)), us + TagUsed(zone, UsedOf([f], off, g.DiscEnd())))
      ensures freeoff == OffAfter([f], off)
    {
      hide FreeOf, UsedOf, OffAfter, Build, FreeBits, UsedBits, ObjectIds, FreeList.Valid, FreeList.Contents, Linked;
      freeoff := off;
      OneOnly(f, off, g.DiscEnd());
      if f.start == off {
        HoldsFree(l, FreeInfo(zone, f.start, f.len));
        freeoff := (freeoff + f.id) % WORD;
        AddFree(zone, f.start, f.len);
        assert TagFree(zone, [Run(f.start, f.len)]) == [FreeInfo(zone, f.start, f.len)];
        assert us + TagUsed(zone, []) == us;
      } else if f.id > 1 || f.start != g.DiscEnd() {
        HoldsUsed(us, Used(f.id, Chunk(zone, f.start, f.len)));
        AddID(f.id, zone, f.start, f.len);
        assert TagUsed(zone, [f]) == [Used(f.id, Chunk(zone, f.start, f.len))];
        assert l + TagFree(zone, []) == l;
      } else {
        assert l + TagFree(zone, []) == l && us + TagUsed(zone, []) == us;
      }
    }

    /** Scans one zone. */
    method ScanZone(zone: nat, ghost l: seq<FreeInfo>, ghost us: seq<Used>) returns (ok: bool)
      requires Valid() && zone < g.nzones && g.IdsPerZone() > 0 && Holds(l, us) && Linked()
      modifies this, list, list.repr
      ensures Linked() && fresh(list.repr - old(list.repr))
      ensures Holds(l + TagFree(zone, ZoneFree(g, zone, Views()[zone])), us + TagUsed(zone, ZoneUsed(g, zone, Views()[zone])))
      ensures ok <==> ZoneAccepted(g, zone, Views()[zone])
    {
      hide Geo.Ok, FreeOf, UsedOf, Build, FreeBits, UsedBits, OffAfter, FragAt, HeadOff, BitOf, Terminated, Linked, FreeList.Valid, FreeList.Contents;
      ghost var v := Views()[zone];
      ghost var fs := Frags(g, zone, v);
      ghost var i := 0;
      var off0 := HeadOff(HeadOf(g, bytes[..], zone));
      var allocbit, freeoff := g.FirstBit(zone), off0;
      ok := true;
      ViewRoom(g, zone, v);
      ScanStart(zone, fs, off0, l, us);
      while allocbit < g.ZoneBits()
        invariant allocbit <= |v.bits| == g.ZoneBits() && Room(v.bits, allocbit, g.idlen) && v == Views()[zone]
        invariant 0 <= i <= |fs| && fs[i..] == Fragments(v.bits, allocbit, g.idlen)
        invariant freeoff == OffAfter(fs[..i], off0) && Linked() && fresh(list.repr - old(list.repr))
        invariant Holds(l + TagFree(zone, FreeOf(fs[..i], off0)), us + TagUsed(zone, UsedOf(fs[..i], off0, g.DiscEnd())))
        invariant ok <==> forall j :: 0 <= j < i ==> Terminated(v.bits, fs[j], g.idlen) || (zone == g.nzones - 1 && fs[j].End() == |v.bits|)
      {
        var f, terminated := ReadFrag(zone, allocbit);
        NextFrag(v.bits, allocbit, g.idlen, fs, i);
        allocbit := f.End();
        if !terminated && !(zone == g.nzones - 1 && allocbit == g.ZoneBits()) {
          ok := false;
        }
        StartPlusId(g, f);
        freeoff := Enter(zone, f, freeoff, l + TagFree(zone, FreeOf(fs[..i], off0)),
                         us + TagUsed(zone, UsedOf(fs[..i], off0, g.DiscEnd())));
        ScanStep(zone, fs, i, off0, l, us);
        i := i + 1;
      }
      assert fs[..i] == fs;
    }

    lemma NextFrag(bits: seq<bool>, p: nat, idlen: nat, fs: seq<Frag>, i: nat)
      requires p + idlen < |bits| && i <= |fs| && fs[i..] == Fragments(bits, p, idlen)
      ensures i < |fs| && fs[i] == FragAt(bits, p, idlen)
      ensures fs[i + 1..] == Fragments(bits, fs[i].End(), idlen)
      ensures fs[i].start == p && fs[i].id < Pow2(idlen) && fs[i].End() <= |bits| && Room(bits, fs[i].End(), idlen)
    {
      assert fs[i..][0] == fs[i] && fs[i..][1..] == fs[i + 1..];
    }

    lemma ScanStart(zone: nat, fs: seq<Frag>, off: nat, l: seq<FreeInfo>, us: seq<Used>)
      ensures OffAfter(fs[..0], off) == off
      ensures l + TagFree(zone, FreeOf(fs[..0], off)) == l
      ensures us + TagUsed(zone, UsedOf(fs[..0], off, g.DiscEnd())) == us
    {
    }

    lemma ScanStep(zone: nat, fs: seq<Frag>, i: nat, off: nat, l: seq<FreeInfo>, us: seq<Used>)
      requires i < |fs|
      ensures var m := OffAfter(fs[..i], off);
              && OffAfter(fs[..i + 1], off) == OffAfter([fs[i]], m)
              && l + TagFree(zone, FreeOf(fs[..i], off)) + TagFree(zone, FreeOf([fs[i]], m)) ==
                 l + TagFree(zone, FreeOf(fs[..i + 1], off))
              && us + TagUsed(zone, UsedOf(fs[..i], off, g.DiscEnd())) + TagUsed(zone, UsedOf([fs[i]], m, g.DiscEnd())) ==
                 us + TagUsed(zone, UsedOf(fs[..i + 1], off, g.DiscEnd()))
    {
      hide FreeOf, UsedOf, OffAfter;
      assert fs[..i + 1] == fs[..i] + [fs[i]];
      FreeOfAppend(fs[..i], [fs[i]], off);
      UsedOfAppend(fs[..i], [fs[i]], off, g.DiscEnd());
    }

    lemma HoldsFree(l: seq<FreeInfo>, x: FreeInfo)
      ensures FreeBits(l + [x]) * g.Bpmb() == FreeBits(l) * g.Bpmb() + x.len * g.Bpmb()
    {
      assert (l + [x])[..|l|] == l;
    }

    lemma HoldsUsed(us: seq<Used>, u: Used)
      requires g.IdsPerZone() > 0
      ensures Build(us + [u], g.IdsPerZone()) == Add(Build(us, g.IdsPerZone()), u, g.IdsPerZone())
      ensures UsedBits(us + [u]) * g.Bpmb() == UsedBits(us) * g.Bpmb() + (if u.id > 1 then u.chunk.len * g.Bpmb() else 0)
      ensures forall i :: i in Build(us, g.IdsPerZone()) ==> Build(us, g.IdsPerZone())[i] != []
    {
      hide Add, HomeZone;
      assert (us + [u])[..|us|] == us;
      Distribute(UsedBits(us), if u.id > 1 then u.chunk.len else 0, g.Bpmb());
      BuildNonEmpty(us, g.IdsPerZone());
    }

    lemma ScanNothing()
      requires Valid() && g.IdsPerZone() > 0 && freelist == [] && objects == map[]
      requires countFree == countObjects == spaceFree == spaceUsed == 0
      ensures Holds(DiscFree(g, Views(), 0, 0), DiscUsed(g, Views(), 0, 0))
    {
      assert ObjectIds(map[]) == {};
    }

    /** Reads the map: the free list, the store and the counters are those of the whole disc, and the
        answer is whether every fragment but the last of the disc is terminated. */
    method ReadMapContents() returns (ok: bool)
      requires Valid() && Linked() && freelist == [] && objects == map[]
      requires countFree == countObjects == spaceFree == spaceUsed == 0
      modifies this, list, list.repr
      ensures Mirror() && fresh(list.repr - old(list.repr))
      ensures ok <==> AllAccepted(g, Views())
    {
      hide Geo.Ok, ZoneFree, ZoneUsed, ZoneAccepted, ViewsOf, Holds, Linked, FreeList.Valid, FreeList.Contents;
      IdsPositive(g);
      ok := true;
      var zone := 0;
      ScanNothing();
      while zone < g.nzones
        invariant 0 <= zone <= g.nzones && Linked() && fresh(list.repr - old(list.repr))
        invariant Holds(DiscFree(g, Views(), 0, zone), DiscUsed(g, Views(), 0, zone))
        invariant ok <==> forall z :: 0 <= z < zone ==> ZoneAccepted(g, z, Views()[z])
      {
        var zoneOk := ScanZone(zone, DiscFree(g, Views(), 0, zone), DiscUsed(g, Views(), 0, zone));
        ok := ok && zoneOk;
        zone := zone + 1;
      }
    }

    /** Everything the allocation of n bits of entry k relies on and leads to. */
    lemma ClaimFacts(vs: seq<ZoneView>, k: nat, z: nat, kz: nat, n: nat, id: nat, size: nat)
      requires ViewsOk(g, vs) && z < |vs| && k == |DiscFree(g, vs, 0, z)| + kz && kz < |ZoneFree(g, z, vs[z])|
      requires n == TakenBits(g, ZoneFree(g, z, vs[z])[kz].len, size) && g.IdsPerZone() > 0
      requires 3 <= id && z * g.IdsPerZone() <= id < (z + 1) * g.IdsPerZone()
      requires id !in Build(DiscUsed(g, vs, 0, |vs|), g.IdsPerZone())
      ensures HomeZone(id, g.IdsPerZone()) == z && id < Pow2(g.idlen)
      ensures g.idlen < n <= ZoneFree(g, z, vs[z])[kz].len && g.idlen > 0 && FREECHAIN_ZERO + g.ZoneBits() < 0x8000
      ensures ClaimPre(g, z, vs[z], kz, n)
      ensures var l := DiscFree(g, vs, 0, |vs|);
              var c := ZoneFree(g, z, vs[z])[kz];
              var us := DiscUsed(g, vs, 0, |vs|);
              var vs' := vs[z := Claimed(g, vs[z], ZoneFree(g, z, vs[z]), kz, n, id)];
              && ViewsOk(g, vs') && k < |l| && l[k] == FreeInfo(z, c.start, c.len)
              && DiscFree(g, vs', 0, |vs|) == TakeFree(l, k, n)
              && Build(DiscUsed(g, vs', 0, |vs|), g.IdsPerZone()) ==
                 Build(us, g.IdsPerZone())[id := [Chunk(z, c.start, n)]]
              && FreeBits(l) * g.Bpmb() == FreeBits(TakeFree(l, k, n)) * g.Bpmb() + n * g.Bpmb()
              && UsedBits(DiscUsed(g, vs', 0, |vs|)) * g.Bpmb() == UsedBits(us) * g.Bpmb() + n * g.Bpmb()
    {
      hide ZoneFree, ZoneUsed, Build, FreeBits, UsedBits, DiscFree, DiscUsed, Claimed, WantedBits, Geo.Minimum;
      TakenEnough(g, vs, z, kz, size);
      IdFits(g, z, id);
      ClaimWritesThrough(g, vs, k, z, kz, n, id);
      TakeFreeBits(DiscFree(g, vs, 0, |vs|), k, n);
      Distribute(FreeBits(TakeFree(DiscFree(g, vs, 0, |vs|), k, n)), n, g.Bpmb());
      Distribute(UsedBits(DiscUsed(g, vs, 0, |vs|)), n, g.Bpmb());
    }

    /** The byte edits of MakeID: terminator and link of a split, the pointer to the claimed run in
        the zone header or in the run before it, and the id of the new object. */
    method EditZone(zone: nat, start: nat, len: nat, split: bool, more: bool, moreStart: nat,
                    prev: bool, prevStart: nat, id: nat, ghost free: seq<Run>, ghost k: nat)
      requires Valid() && zone < g.nzones
      requires free == ZoneFree(g, zone, Views()[zone]) && ClaimPre(g, zone, Views()[zone], k, len)
      requires start == free[k].start && (split <==> len < free[k].len)
      requires more <==> k + 1 < |free|
      requires more ==> moreStart == free[k + 1].start
      requires prev <==> k > 0
      requires prev ==> prevStart == free[k - 1].start
      requires g.idlen > 0 && FREECHAIN_ZERO + g.ZoneBits() < 0x8000
      modifies bytes
      ensures Valid()
      ensures Views() == old(Views())[zone := Claimed(g, old(Views())[zone], free, k, len, id)]
    {
      hide Geo.Ok, ZoneFree, ViewsOf, SetField;
      ghost var v := Views()[zone];
      ghost var vs := Views();
      assert |v.bits| == g.ZoneBits();
      assert free[k] in free && (more ==> free[k + 1] in free) && (prev ==> free[k - 1] in free);
      var next := if split then start + len else moreStart;
      if split {
        SetMapBits(zone, next - 1, 1, 1);
        OneBit(v.bits, next - 1);
        if more {
          SetMapBits(zone, next, g.idlen, moreStart - next);
        }
      }
      assert Views() == vs[zone := v.(bits := CutBits(g, v.bits, free, k, len))];
      if !prev {
        if split || more {
          var freeoff := FREECHAIN_ZERO + next;
          var lo, hi := freeoff % 0x100, 0x80 + freeoff / 0x100;
          SetHead(zone, lo, hi);
        } else {
          SetHead(zone, 0, 0x80);
        }
      } else {
        SetMapBits(zone, prevStart, g.idlen, if split || more then next - prevStart else 0);
      }
      SetMapBits(zone, start, g.idlen, id);
    }

    /** Takes the first len bits off entry k of the free list. */
    method TakeRun(node: Node, len: nat, ghost k: nat)
      requires Linked() && k < |freelist| && countFree == |freelist| && list.nodes[k] == node
      requires len <= node.len && len * g.Bpmb() <= spaceFree
      modifies `freelist, `countFree, `spaceFree, list, list.repr
      ensures Linked() && countFree == |freelist| && list.repr == old(list.repr)
      ensures k < |old(freelist)| && len <= old(freelist)[k].len && freelist == TakeFree(old(freelist), k, len)
      ensures spaceFree == old(spaceFree) - len * g.Bpmb()
    {
      hide FreeList.Valid, FreeList.Contents, Entries;
      list.At(k);
      if len == node.len {
        countFree := countFree - 1;
      }
      spaceFree := spaceFree - len * g.Bpmb();
      list.Take(node, len, k);
      freelist := TakeFree(freelist, k, len);
    }

    /** Creates an object from entry k of the free list. The lists and counters it leaves are those
        of a rescan of the bytes it leaves, and that rescan accepts the map if the last one did. */
    method MakeID(node: Node, size: nat, ghost k: nat) returns (id: nat)
      requires Mirror() && k < |freelist| && list.nodes[k] == node && size < WORD
      modifies this, bytes, list, list.repr
      ensures Mirror() && list.repr == old(list.repr)
      ensures id == 0 ==> bytes[..] == old(bytes[..]) && freelist == old(freelist) && objects == old(objects)
      ensures id != 0 ==>
                var f, n := old(freelist[k]), TakenBits(g, old(freelist[k].len), size);
                && g.idlen < n <= f.len
                && id !in old(objects) && 3 <= id && HomeZone(id, g.IdsPerZone()) == f.zone
                && objects == old(objects)[id := [Chunk(f.zone, f.start, n)]]
                && freelist == TakeFree(old(freelist), k, n)
      ensures spaceUsed + spaceFree == old(spaceUsed + spaceFree)
      ensures old(AllAccepted(g, Views())) ==> AllAccepted(g, Views())
    {
      hide Geo.Ok, ZoneFree, ZoneUsed, Build, FreeBits, UsedBits, ViewsOf, DiscFree, DiscUsed, HomeZone, Claimed,
           WantedBits, Geo.Minimum, Geo.ZoneBits, AllAccepted, ObjectIds, ClaimPre, TakeFree,
           FreeList.Valid, FreeList.Contents, Entries;
      ghost var vs := Views();
      ghost var z, kz := FreeLocate(g, vs, k);
      var f := FreeInfo(node.zone, node.start, node.len);
      list.At(k);
      id := FindUnusedID(f.zone);
      if id == 0 {
        return;
      }
      var prev, prevStart := list.PrevStart(node, k);
      var more, moreStart := list.NextStart(node, k);
      var split := f.len >= g.Minimum() / g.Bpmb() + WantedBits(g, size);
      var len := if split then WantedBits(g, size) else f.len;
      MinimumCoversId(g);
      ClaimFacts(vs, k, z, kz, len, id, size);
      TakenEnough(g, vs, z, kz, size);
      AcceptedStays(g, vs, z, kz, len, id);
      ghost var free := ZoneFree(g, z, vs[z]);
      BuildNonEmpty(DiscUsed(g, vs, 0, |vs|), g.IdsPerZone());
      TakeRun(node, len, k);
      EditZone(f.zone, f.start, len, split, more, moreStart, prev, prevStart, id, free, kz);
      AddID(id, f.zone, f.start, len);
    }
  }
}
