/** MakeID's effect on one zone, and the proof that scanning the edited zone again finds exactly the
    claimed fragment moved from the free list to the used list. */
module ZoneClaim {
  import opened Bits
  import opened Geometry
  import opened MapScan
  import opened MapChain

  /** What the map holds of one zone: the header word with the free pointer, and the allocation bits. */
  datatype ZoneView = ZoneView(head: nat, bits: seq<bool>)

  ghost predicate ViewOk(g: Geo, v: ZoneView) {
    g.Ok() && v.head < 0x1_0000 && |v.bits| == g.ZoneBits()
  }

  lemma ViewRoom(g: Geo, zone: nat, v: ZoneView)
    requires ViewOk(g, v)
    ensures g.FirstBit(zone) <= |v.bits| && Room(v.bits, g.FirstBit(zone), g.idlen)
    ensures |v.bits| <= Pow2(g.idlen) && |v.bits| < FREECHAIN_EMPTY
  {
  }

  function Frags(g: Geo, zone: nat, v: ZoneView): seq<Frag>
    requires ViewOk(g, v)
  {
    Fragments(v.bits, g.FirstBit(zone), g.idlen)
  }

  /** Every fragment of the zone is terminated. */
  ghost predicate ZoneClosed(g: Geo, zone: nat, v: ZoneView)
    requires ViewOk(g, v)
  {
    Closed(v.bits, g.FirstBit(zone), g.idlen)
  }

  /** The free runs that a scan of the zone finds, in scan order. */
  function ZoneFree(g: Geo, zone: nat, v: ZoneView): seq<Run>
    requires ViewOk(g, v)
  {
    FreeOf(Frags(g, zone, v), HeadOff(v.head))
  }

  /** The used fragments that a scan of the zone stores, in scan order. */
  function ZoneUsed(g: Geo, zone: nat, v: ZoneView): seq<Frag>
    requires ViewOk(g, v)
  {
    UsedOf(Frags(g, zone, v), HeadOff(v.head), g.DiscEnd())
  }

  /** Header word for a zone whose first free bit is start. */
  function HeadFor(start: nat): nat { 0x8000 + FREECHAIN_ZERO + start }

  const HEAD_EMPTY: nat := 0x8000

  lemma HeadOffOf(start: nat)
    requires FREECHAIN_ZERO + start < 0x8000
    ensures HeadFor(start) < 0x1_0000 && HeadOff(HeadFor(start)) == start
    ensures HeadOff(HEAD_EMPTY) == FREECHAIN_EMPTY
  {
  }

  /** The bits after the split: a terminator behind the first n bits, and in the second half the
      distance to the next free run of the zone. */
  function CutBits(g: Geo, bits: seq<bool>, free: seq<Run>, k: nat, n: nat): (b: seq<bool>)
    requires k < |free| && 0 < n <= free[k].len
    requires n < free[k].len ==> free[k].start + n + g.idlen < |bits|
    requires k + 1 < |free| ==> free[k].start + n <= free[k + 1].start
    ensures |b| == |bits|
  {
    if n == free[k].len then bits
    else
      var b := bits[free[k].start + n - 1 := true];
      if k + 1 < |free| then
        SetField(b, free[k].start + n, g.idlen, free[k + 1].start - (free[k].start + n))
      else b
  }

  /** What Claimed asks for: room for n bits in the k-th run, and for an id in all of them. */
  ghost predicate Claimable(g: Geo, v: ZoneView, free: seq<Run>, k: nat, n: nat) {
    && k < |free| && 0 < n <= free[k].len
    && (forall r :: r in free ==> r.start + g.idlen < |v.bits|)
    && (n < free[k].len ==> free[k].start + n + g.idlen < |v.bits|)
    && (k > 0 ==> free[k - 1].start < free[k].start)
    && (k + 1 < |free| ==> free[k].start + n <= free[k + 1].start)
  }

  /** The zone after its k-th free run was claimed for id: the first n bits are split off, or all of
      the run is taken when n is its length. */
  function Claimed(g: Geo, v: ZoneView, free: seq<Run>, k: nat, n: nat, id: nat): (v': ZoneView)
    requires Claimable(g, v, free, k, n)
  {
    var start := free[k].start;
    var split := n < free[k].len;
    var more := k + 1 < |free|;
    var b := CutBits(g, v.bits, free, k, n);
    var next := if split then start + n else if more then free[k + 1].start else 0;
    if k == 0 then
      ZoneView(if split || more then HeadFor(next) else HEAD_EMPTY, SetField(b, start, g.idlen, id))
    else
      var b' := SetField(b, free[k - 1].start, g.idlen,
                         if split || more then next - free[k - 1].start else 0);
      ZoneView(v.head, SetField(b', start, g.idlen, id))
  }

  // ----- Where free runs lie

  lemma {:induction false} FreeBounds(fs: seq<Frag>, p: nat, end: nat, min: nat, off: nat)
    requires Tiles(fs, p, end, min)
    ensures forall r :: r in FreeOf(fs, off) ==> p <= r.start && r.start + r.len <= end && r.len >= min
    decreases |fs|
  {
    if fs != [] {
      TilesAt(fs, p, end, min, 0);
      FreeBounds(fs[1..], fs[0].End(), end, min, if fs[0].start == off then off + fs[0].id else off);
    }
  }

  lemma FreeOrdered(fs: seq<Frag>, p: nat, end: nat, min: nat, off: nat, k: nat)
    requires Tiles(fs, p, end, min) && k + 1 < |FreeOf(fs, off)|
    ensures FreeOf(fs, off)[k].start + FreeOf(fs, off)[k].len <= FreeOf(fs, off)[k + 1].start
  {
    var free := FreeOf(fs, off);
    var i := NthFree(fs, off, k);
    TilesAt(fs, p, end, min, i);
    FreeBounds(fs[i + 1..], fs[i].End(), end, min, fs[i].start + fs[i].id);
    assert free[k + 1] == free[k + 1..][0];
    assert free[k + 1] in FreeOf(fs[i + 1..], fs[i].start + fs[i].id);
  }

  /** Free runs of a zone lie inside its allocation area, in order, each with room for an id. */
  lemma ZoneFreeBounds(g: Geo, zone: nat, v: ZoneView)
    requires ViewOk(g, v)
    ensures Tiles(Frags(g, zone, v), g.FirstBit(zone), |v.bits|, g.idlen + 1)
    ensures forall r :: r in ZoneFree(g, zone, v) ==> r.start + r.len <= |v.bits| && r.len >= g.idlen + 1
    ensures forall k :: 0 <= k && k + 1 < |ZoneFree(g, zone, v)| ==>
                          ZoneFree(g, zone, v)[k].start + ZoneFree(g, zone, v)[k].len <= ZoneFree(g, zone, v)[k + 1].start
  {
    var fs := Frags(g, zone, v);
    FragmentsTile(v.bits, g.FirstBit(zone), g.idlen);
    FreeBounds(fs, g.FirstBit(zone), |v.bits|, g.idlen + 1, HeadOff(v.head));
    forall k | 0 <= k && k + 1 < |ZoneFree(g, zone, v)|
      ensures ZoneFree(g, zone, v)[k].start + ZoneFree(g, zone, v)[k].len <= ZoneFree(g, zone, v)[k + 1].start
    {
      FreeOrdered(fs, g.FirstBit(zone), |v.bits|, g.idlen + 1, HeadOff(v.head), k);
    }
  }

  /** No fragment of a tiling starts before it or behind it. */
  lemma {:induction false} NoneOutside(fs: seq<Frag>, p: nat, end: nat, min: nat, h: nat)
    requires Tiles(fs, p, end, min) && (h < p || h >= end) && min > 0
    ensures NoneAt(fs, h)
    decreases |fs|
  {
    if fs != [] {
      TilesNonneg(fs[1..], fs[0].End(), end, min);
      NoneOutside(fs[1..], fs[0].End(), end, min, h);
      assert fs == [fs[0]] + fs[1..];
    }
  }

  /** The first part of a tiling is a tiling. */
  lemma {:induction false} TilesTake(fs: seq<Frag>, p: nat, end: nat, min: nat, i: nat)
    requires Tiles(fs, p, end, min) && i < |fs|
    ensures Tiles(fs[..i], p, fs[i].start, min)
    decreases |fs|
  {
    if i > 0 {
      TilesTake(fs[1..], fs[0].End(), end, min, i - 1);
      assert fs[1..][..i - 1] == fs[..i][1..];
    }
  }

  // ----- The fragments of the edited zone

  /** Cut fragment i behind n bits and store link in the second half. */
  lemma CutAndLink(bits: seq<bool>, p: nat, idlen: nat, i: nat, n: nat, link: nat)
    requires p <= |bits| && Room(bits, p, idlen) && i < |Fragments(bits, p, idlen)|
    requires var f := Fragments(bits, p, idlen)[i];
             idlen < n && n + idlen < f.len && f.End() <= |bits|
    requires link < Pow2(idlen)
    ensures var fs := Fragments(bits, p, idlen);
            var f := fs[i];
            var cut := bits[f.start + n - 1 := true];
            && Fragments(cut, p, idlen) ==
               fs[..i] + [f.(len := n)] + ([Frag(f.start + n, f.len - n, Field(bits, f.start + n, idlen))] + fs[i + 1..])
            && Fragments(SetField(cut, f.start + n, idlen, link), p, idlen) ==
               fs[..i] + [f.(len := n)] + ([Frag(f.start + n, f.len - n, link)] + fs[i + 1..])
            && (Closed(bits, p, idlen) ==>
                Closed(cut, p, idlen) && Closed(SetField(cut, f.start + n, idlen, link), p, idlen))
  {
    hide Fragments, SetField, Field, Closed;
    var fs := Fragments(bits, p, idlen);
    var f := fs[i];
    var cut := bits[f.start + n - 1 := true];
    SplitFrag(bits, p, idlen, i, n);
    var fc := Fragments(cut, p, idlen);
    var h, h' := Frag(f.start + n, f.len - n, Field(bits, f.start + n, idlen)), Frag(f.start + n, f.len - n, link);
    assert fc == fs[..i] + [f.(len := n), h] + fs[i + 1..];
    RewriteId(cut, p, idlen, i + 1, link);
    assert fc[i + 1] == h;
    assert fc[i + 1 := h'] == fs[..i] + [f.(len := n)] + ([h'] + fs[i + 1..]);
    assert fc == fs[..i] + [f.(len := n)] + ([h] + fs[i + 1..]);
  }

  /** Store id in the fragment behind a, and link in fragment j of a. */
  lemma RelinkAndName(bits: seq<bool>, p: nat, idlen: nat, a: seq<Frag>, u: Frag, t: seq<Frag>,
                      j: nat, link: nat, id: nat)
    requires p <= |bits| && Room(bits, p, idlen)
    requires Fragments(bits, p, idlen) == a + [u] + t && j < |a|
    requires link < Pow2(idlen) && id < Pow2(idlen)
    ensures a[j].start + idlen < |bits| && u.start + idlen < |bits|
    ensures Fragments(SetField(SetField(bits, a[j].start, idlen, link), u.start, idlen, id), p, idlen) ==
            a[j := a[j].(id := link)] + [u.(id := id)] + t
    ensures Closed(bits, p, idlen) ==>
              Closed(SetField(SetField(bits, a[j].start, idlen, link), u.start, idlen, id), p, idlen)
  {
    hide Fragments, SetField, Closed;
    var fs := a + [u] + t;
    RewriteId(bits, p, idlen, j, link);
    var bits' := SetField(bits, a[j].start, idlen, link);
    var fs' := a[j := a[j].(id := link)] + [u] + t;
    assert fs[j := fs[j].(id := link)] == fs';
    RewriteId(bits', p, idlen, |a|, id);
    assert fs'[|a| := u.(id := id)] == a[j := a[j].(id := link)] + [u.(id := id)] + t;
  }

  lemma NameOnly(bits: seq<bool>, p: nat, idlen: nat, a: seq<Frag>, u: Frag, t: seq<Frag>, id: nat)
    requires p <= |bits| && Room(bits, p, idlen)
    requires Fragments(bits, p, idlen) == a + [u] + t
    requires id < Pow2(idlen)
    ensures u.start + idlen < |bits|
    ensures Fragments(SetField(bits, u.start, idlen, id), p, idlen) == a + [u.(id := id)] + t
    ensures Closed(bits, p, idlen) ==> Closed(SetField(bits, u.start, idlen, id), p, idlen)
  {
    hide Fragments, SetField, Closed;
    RewriteId(bits, p, idlen, |a|, id);
    assert (a + [u] + t)[|a| := u.(id := id)] == a + [u.(id := id)] + t;
  }

  // ----- The lists of the edited zone

  /** What the chain finds behind a split: the second half, then what it found before. A second half
      that leads nowhere may carry any link if no fragment follows it. */
  lemma RestOfSplit(t: seq<Frag>, off: nat, r: Run, link: nat, p: nat, end: nat, min: nat, discEnd: nat)
    requires Tiles(t, p, end, min) && min > 0 && r.start < p
    requires FreeOf(t, off) != [] ==> r.start + link == FreeOf(t, off)[0].start
    requires FreeOf(t, off) == [] ==> link == 0 || p == end
    ensures var rest := [Frag(r.start, r.len, link)] + t;
            && FreeOf(rest, r.start) == [r] + FreeOf(t, off)
            && UsedOf(rest, r.start, discEnd) == UsedOf(t, off, discEnd)
  {
    var rest := [Frag(r.start, r.len, link)] + t;
    assert rest[1..] == t;
    if p == end {
      NothingAtEnd(t, p, min);
    }
    NoneOutside(t, p, end, min, r.start);
    SameTail(t, off, r.start + link, discEnd);
  }

  lemma NothingAtEnd(t: seq<Frag>, p: nat, min: nat)
    requires Tiles(t, p, p, min) && min > 0
    ensures t == []
  {
    if t != [] {
      TilesAt(t, p, p, min, 0);
    }
  }

  /** Where the chain continues behind the claimed bits; h0 when there is nothing more in the zone. */
  function NextFree(free: seq<Run>, k: nat, n: nat, h0: nat): nat
    requires k < |free|
  {
    if n < free[k].len then free[k].start + n
    else if k + 1 < |free| then free[k + 1].start
    else h0
  }

  /** The fragments after the cut, and what the chain finds behind the claimed bits. */
  lemma CutLists(g: Geo, zone: nat, v: ZoneView, k: nat, n: nat, i: nat, h0: nat) returns (rest: seq<Frag>)
    requires ViewOk(g, v) && ClaimPre(g, zone, v, k, n) && g.idlen < n
    requires var c := ZoneFree(g, zone, v)[k];
             n == c.len || n + g.idlen < c.len
    requires var fs := Frags(g, zone, v);
             && i < |fs| && ZoneFree(g, zone, v)[k] == Run(fs[i].start, fs[i].len)
             && FreeOf(fs[i + 1..], fs[i].start + fs[i].id) == ZoneFree(g, zone, v)[k + 1..]
             && (h0 < fs[i].start || h0 >= |v.bits|)
    ensures var fs, free := Frags(g, zone, v), ZoneFree(g, zone, v);
            var c, h := fs[i], NextFree(free, k, n, h0);
            && Fragments(CutBits(g, v.bits, free, k, n), g.FirstBit(zone), g.idlen) ==
               fs[..i] + [c.(len := n)] + rest
            && (ZoneClosed(g, zone, v) ==> Closed(CutBits(g, v.bits, free, k, n), g.FirstBit(zone), g.idlen))
            && FreeOf(rest, h) ==
               (if n < c.len then [Run(c.start + n, c.len - n)] else []) + free[k + 1..]
            && UsedOf(rest, h, g.DiscEnd()) == UsedOf(fs[i + 1..], c.start + c.id, g.DiscEnd())
  {
    hide Fragments, SetField, HeadOff, Geo.Ok, Tiles, FreeOf, UsedOf, Closed;
    ViewRoom(g, zone, v);
    var fs, free, p := Frags(g, zone, v), ZoneFree(g, zone, v), g.FirstBit(zone);
    var c, t, off := fs[i], fs[i + 1..], fs[i].start + fs[i].id;
    ZoneFreeBounds(g, zone, v);
    TilesAt(fs, p, |v.bits|, g.idlen + 1, i);
    assert free[k] in free;
    if n == c.len {
      rest := t;
      assert fs == fs[..i] + [c] + t && c.(len := n) == c;
      NoneOutside(t, c.End(), |v.bits|, g.idlen + 1, h0);
      assert free[k + 1..] != [] ==> free[k + 1..][0] == free[k + 1];
      SameTail(t, off, NextFree(free, k, n, h0), g.DiscEnd());
    } else {
      rest := CutListsSplit(g, zone, v, k, n, i);
    }
  }

  /** The bits behind a cut are zero as a number, or no fragment follows. */
  lemma FieldBehind(bits: seq<bool>, p: nat, idlen: nat, i: nat, n: nat)
    requires p <= |bits| && Room(bits, p, idlen) && i < |Fragments(bits, p, idlen)|
    requires var f := Fragments(bits, p, idlen)[i];
             idlen < n && n + idlen < f.len && f.End() <= |bits|
    ensures var f := Fragments(bits, p, idlen)[i];
            Field(bits, f.start + n, idlen) == 0 || f.End() == |bits|
  {
    hide Fragments, SkipZeros, Field;
    FragmentsAt(bits, p, idlen, i);
    var s := Fragments(bits, p, idlen)[i].start;
    ClearToCut(bits, s, idlen, n);
    if FragEnd(bits, s, idlen) < |bits| {
      FieldZero(bits, s + n, idlen);
    }
  }

  /** The fragments after a split, and what the second half leads to. */
  lemma CutFrags(g: Geo, zone: nat, v: ZoneView, k: nat, n: nat, i: nat) returns (link: nat)
    requires ViewOk(g, v) && ClaimPre(g, zone, v, k, n) && g.idlen < n
    requires n + g.idlen < ZoneFree(g, zone, v)[k].len
    requires var fs := Frags(g, zone, v);
             i < |fs| && ZoneFree(g, zone, v)[k] == Run(fs[i].start, fs[i].len)
    ensures var fs, free := Frags(g, zone, v), ZoneFree(g, zone, v);
            && Fragments(CutBits(g, v.bits, free, k, n), g.FirstBit(zone), g.idlen) ==
               fs[..i] + [fs[i].(len := n)] + ([Frag(fs[i].start + n, fs[i].len - n, link)] + fs[i + 1..])
            && (ZoneClosed(g, zone, v) ==> Closed(CutBits(g, v.bits, free, k, n), g.FirstBit(zone), g.idlen))
            && (k + 1 < |free| ==> fs[i].start + n + link == free[k + 1].start)
            && (k + 1 >= |free| ==> link == 0 || fs[i].End() == |v.bits|)
  {
    hide Fragments, SetField, HeadOff, Geo.Ok, Tiles, FreeOf, UsedOf, Closed;
    ViewRoom(g, zone, v);
    var fs, free, p := Frags(g, zone, v), ZoneFree(g, zone, v), g.FirstBit(zone);
    var s := fs[i].start + n;
    ZoneFreeBounds(g, zone, v);
    TilesAt(fs, p, |v.bits|, g.idlen + 1, i);
    if k + 1 < |free| {
      assert free[k + 1] in free;
      link := free[k + 1].start - s;
      CutAndLink(v.bits, p, g.idlen, i, n, link);
    } else {
      link := Field(v.bits, s, g.idlen);
      FieldBehind(v.bits, p, g.idlen, i, n);
      CutAndLink(v.bits, p, g.idlen, i, n, 0);
    }
  }

  lemma CutListsSplit(g: Geo, zone: nat, v: ZoneView, k: nat, n: nat, i: nat) returns (rest: seq<Frag>)
    requires ViewOk(g, v) && ClaimPre(g, zone, v, k, n) && g.idlen < n
    requires n + g.idlen < ZoneFree(g, zone, v)[k].len
    requires var fs := Frags(g, zone, v);
             && i < |fs| && ZoneFree(g, zone, v)[k] == Run(fs[i].start, fs[i].len)
             && FreeOf(fs[i + 1..], fs[i].start + fs[i].id) == ZoneFree(g, zone, v)[k + 1..]
    ensures var fs, free := Frags(g, zone, v), ZoneFree(g, zone, v);
            var c, h := fs[i], fs[i].start + n;
            && Fragments(CutBits(g, v.bits, free, k, n), g.FirstBit(zone), g.idlen) ==
               fs[..i] + [c.(len := n)] + rest
            && (ZoneClosed(g, zone, v) ==> Closed(CutBits(g, v.bits, free, k, n), g.FirstBit(zone), g.idlen))
            && FreeOf(rest, h) == [Run(c.start + n, c.len - n)] + free[k + 1..]
            && UsedOf(rest, h, g.DiscEnd()) == UsedOf(fs[i + 1..], c.start + c.id, g.DiscEnd())
  {
    hide Fragments, SetField, HeadOff, Geo.Ok, Tiles, FreeOf, UsedOf, Closed, CutBits, ZoneClosed;
    var fs, free, p := Frags(g, zone, v), ZoneFree(g, zone, v), g.FirstBit(zone);
    var c, t, off := fs[i], fs[i + 1..], fs[i].start + fs[i].id;
    var link := CutFrags(g, zone, v, k, n, i);
    ZoneFreeBounds(g, zone, v);
    TilesAt(fs, p, |v.bits|, g.idlen + 1, i);
    if k + 1 < |free| {
      assert free[k + 1..][0] == free[k + 1];
    } else {
      assert free[k + 1..] == [];
    }
    rest := [Frag(c.start + n, c.len - n, link)] + t;
    RestOfSplit(t, off, Run(c.start + n, c.len - n), link, c.End(), |v.bits|, g.idlen + 1, g.DiscEnd());
  }

  /** Rescanning a zone after MakeID's edit finds the free list without the claimed bits and the
      used list with the new fragment put in at its place m; nothing else has moved, and a zone whose
      fragments are all terminated stays one. */
  lemma ClaimRescan(g: Geo, zone: nat, v: ZoneView, k: nat, n: nat, id: nat) returns (m: nat)
    requires ViewOk(g, v) && k < |ZoneFree(g, zone, v)|
    requires 1 < id < Pow2(g.idlen) && g.idlen < n
    requires var c := ZoneFree(g, zone, v)[k];
             n == c.len || n + g.idlen < c.len
    ensures ClaimPre(g, zone, v, k, n) && ClaimPost(g, zone, v, k, n, id, m)
  {
    hide Fragments, SetField, FreeOf, UsedOf, HeadOff, Geo.Ok, OffAfter, Claimed, ZoneClosed;
    var fs, free, off, e := Frags(g, zone, v), ZoneFree(g, zone, v), HeadOff(v.head), g.DiscEnd();
    ClaimPreHolds(g, zone, v, k, n);
    var i, a', rest, h := 0, fs, fs, 0;
    if k == 0 {
      i := NthFree(fs, off, 0);
      rest, h := PartsOfFirst(g, zone, v, n, id, i);
      a' := fs[..i];
    } else {
      var j;
      j, i := PrevAndThis(fs, off, k);
      a', rest, h := PartsOfLater(g, zone, v, k, n, id, j, i);
    }
    var a, c, t := fs[..i], fs[i], fs[i + 1..];
    assert fs == a + [c] + t;
    Reassemble(a, c, t, off, a', Frag(c.start, n, id), rest, HeadOff(Claimed(g, v, free, k, n, id).head), h, e);
    m := Conclude(g, zone, v, k, n, id, UsedOf(a, off, e), FreeOf(rest, h), UsedOf(rest, h, e));
  }

  /** The k-th free run of the zone can be claimed. */
  ghost predicate ClaimPre(g: Geo, zone: nat, v: ZoneView, k: nat, n: nat)
    requires ViewOk(g, v)
  {
    Claimable(g, v, ZoneFree(g, zone, v), k, n)
  }

  /** The edited zone scans as the old one, with the claimed bits gone from the free runs and the new
      fragment added as the m-th used one; terminators stay in place. */
  ghost predicate ClaimPost(g: Geo, zone: nat, v: ZoneView, k: nat, n: nat, id: nat, m: nat)
    requires ViewOk(g, v) && ClaimPre(g, zone, v, k, n)
  {
    var free, used := ZoneFree(g, zone, v), ZoneUsed(g, zone, v);
    var c := free[k];
    var v' := Claimed(g, v, free, k, n, id);
    && ViewOk(g, v')
    && ZoneFree(g, zone, v') ==
       free[..k] + (if n < c.len then [Run(c.start + n, c.len - n)] else []) + free[k + 1..]
    && m <= |used|
    && ZoneUsed(g, zone, v') == used[..m] + [Frag(c.start, n, id)] + used[m..]
    && (ZoneClosed(g, zone, v) ==> ZoneClosed(g, zone, v'))
  }

  /** The header MakeID writes makes the next scan start the chain at the next free run. */
  lemma NextIsHead(g: Geo, v: ZoneView, free: seq<Run>, n: nat)
    requires ViewOk(g, v) && Claimable(g, v, free, 0, n)
    ensures var head := Claimed(g, v, free, 0, n, 0).head;
            var h := NextFree(free, 0, n, FREECHAIN_EMPTY);
            && head < 0x1_0000 && HeadOff(head) == h
            && (h == FREECHAIN_EMPTY || free[0].start < h < |v.bits|)
  {
    hide SetField, HeadOff;
    assert free[0] in free;
    if 1 < |free| {
      assert free[1] in free;
    }
    var h := NextFree(free, 0, n, FREECHAIN_EMPTY);
    HeadOffOf(if h < |v.bits| then h else 0);
  }

  /** The fragments of two neighbours of the free list. */
  lemma PrevAndThis(fs: seq<Frag>, off: nat, k: nat) returns (j: nat, i: nat)
    requires 0 < k < |FreeOf(fs, off)|
    ensures j < i < |fs|
    ensures FreeOf(fs, off)[k - 1] == Run(fs[j].start, fs[j].len)
    ensures FreeOf(fs, off)[k] == Run(fs[i].start, fs[i].len)
    ensures OffAfter(fs[..i][..j], off) == fs[j].start && OffAfter(fs[..i], off) == fs[i].start
    ensures FreeOf(fs[..i][j + 1..], fs[j].start + fs[j].id) == []
    ensures FreeOf(fs[..i], off) == FreeOf(fs, off)[..k]
    ensures FreeOf(fs[i + 1..], fs[i].start + fs[i].id) == FreeOf(fs, off)[k + 1..]
  {
    hide FreeOf, OffAfter;
    var free := FreeOf(fs, off);
    j := NthFree(fs, off, k - 1);
    var b, off' := fs[j + 1..], fs[j].start + fs[j].id;
    var i' := NthFree(b, off', 0);
    i := j + 1 + i';
    assert fs[..i][..j] == fs[..j] && fs[..i][j + 1..] == b[..i'];
    assert fs[i + 1..] == b[i' + 1..] && free[k + 1..] == free[k..][1..];
    assert fs[..i] == fs[..j] + ([fs[j]] + b[..i']);
    FreeOfAppend(fs[..j], [fs[j]] + b[..i'], off);
    FreeOfCons(fs[j], b[..i']);
    assert free[..k] == free[..k - 1] + [free[k - 1]];
  }

  lemma ClaimPreHolds(g: Geo, zone: nat, v: ZoneView, k: nat, n: nat)
    requires ViewOk(g, v) && k < |ZoneFree(g, zone, v)| && g.idlen < n
    requires var c := ZoneFree(g, zone, v)[k]; n == c.len || n + g.idlen < c.len
    ensures ClaimPre(g, zone, v, k, n)
  {
    hide Fragments, FreeOf;
    ZoneFreeBounds(g, zone, v);
    var free := ZoneFree(g, zone, v);
    assert free[k] in free;
    if k > 0 {
      assert free[k - 1] in free;
      var k' := k - 1;
      assert free[k'].start + free[k'].len <= free[k' + 1].start;
    }
  }

  /** The claim's preconditions, and i is the fragment of the k-th free run. */
  ghost predicate ClaimAt(g: Geo, zone: nat, v: ZoneView, k: nat, n: nat, id: nat, i: nat)
    requires ViewOk(g, v)
  {
    var fs, free := Frags(g, zone, v), ZoneFree(g, zone, v);
    && ClaimPre(g, zone, v, k, n)
    && 1 < id < Pow2(g.idlen) && g.idlen < n
    && (n == free[k].len || n + g.idlen < free[k].len)
    && i < |fs| && free[k] == Run(fs[i].start, fs[i].len)
    && OffAfter(fs[..i], HeadOff(v.head)) == fs[i].start
    && FreeOf(fs[..i], HeadOff(v.head)) == free[..k]
    && FreeOf(fs[i + 1..], fs[i].start + fs[i].id) == free[k + 1..]
  }

  /** The edited zone is the head a' of its fragments, the new fragment, and a rest in which the
      chain finds from h on what it found behind the claimed run before. */
  ghost predicate ClaimParts(g: Geo, zone: nat, v: ZoneView, k: nat, n: nat, id: nat, i: nat,
                             a': seq<Frag>, rest: seq<Frag>, h: nat)
    requires ViewOk(g, v) && ClaimAt(g, zone, v, k, n, id, i)
  {
    var fs, free := Frags(g, zone, v), ZoneFree(g, zone, v);
    var a, c, off, e := fs[..i], fs[i], HeadOff(v.head), g.DiscEnd();
    var v' := Claimed(g, v, free, k, n, id);
    && ViewOk(g, v')
    && Frags(g, zone, v') == a' + [Frag(c.start, n, id)] + rest
    && FreeOf(a', HeadOff(v'.head)) == FreeOf(a, off)
    && UsedOf(a', HeadOff(v'.head), e) == UsedOf(a, off, e)
    && OffAfter(a', HeadOff(v'.head)) == h && h != c.start
    && FreeOf(rest, h) == (if n < c.len then [Run(c.start + n, c.len - n)] else []) + free[k + 1..]
    && UsedOf(rest, h, e) == UsedOf(fs[i + 1..], c.start + c.id, e)
    && (ZoneClosed(g, zone, v) ==> ZoneClosed(g, zone, v'))
  }

  lemma PartsOfFirst(g: Geo, zone: nat, v: ZoneView, n: nat, id: nat, i: nat) returns (rest: seq<Frag>, h: nat)
    requires ViewOk(g, v) && ClaimAt(g, zone, v, 0, n, id, i)
    ensures ClaimParts(g, zone, v, 0, n, id, i, Frags(g, zone, v)[..i], rest, h)
  {
    hide Fragments, SetField, FreeOf, UsedOf, HeadOff, Geo.Ok, Tiles, OffAfter, NoneAt, CutBits, Closed, NextFree;
    ViewRoom(g, zone, v);
    var fs, free, p := Frags(g, zone, v), ZoneFree(g, zone, v), g.FirstBit(zone);
    var a, c := fs[..i], fs[i];
    h := FirstHead(g, zone, v, n, id, i);
    rest := CutLists(g, zone, v, 0, n, i, FREECHAIN_EMPTY);
    NameOnly(CutBits(g, v.bits, free, 0, n), p, g.idlen, a, c.(len := n), rest, id);
    NextIsHead(g, v, free, n);
    HeadOfZone(a, HeadOff(v.head), h, g.DiscEnd());
  }

  /** The zone pointer moves behind the claimed run, past everything in front of it. */
  lemma FirstHead(g: Geo, zone: nat, v: ZoneView, n: nat, id: nat, i: nat) returns (h: nat)
    requires ViewOk(g, v) && ClaimAt(g, zone, v, 0, n, id, i)
    ensures var fs := Frags(g, zone, v);
            && h == NextFree(ZoneFree(g, zone, v), 0, n, FREECHAIN_EMPTY)
            && h != fs[i].start && NoneAt(fs[..i], h)
            && fs[i].start < |v.bits|
  {
    hide Fragments, SetField, FreeOf, UsedOf, HeadOff, Geo.Ok, Tiles, OffAfter, NoneAt, CutBits;
    ViewRoom(g, zone, v);
    var fs, free, p := Frags(g, zone, v), ZoneFree(g, zone, v), g.FirstBit(zone);
    ZoneFreeBounds(g, zone, v);
    TilesAt(fs, p, |v.bits|, g.idlen + 1, i);
    TilesTake(fs, p, |v.bits|, g.idlen + 1, i);
    NextIsHead(g, v, free, n);
    h := NextFree(free, 0, n, FREECHAIN_EMPTY);
    NoneOutside(fs[..i], p, fs[i].start, g.idlen + 1, h);
  }

  lemma PartsOfLater(g: Geo, zone: nat, v: ZoneView, k: nat, n: nat, id: nat, j: nat, i: nat)
    returns (a': seq<Frag>, rest: seq<Frag>, h: nat)
    requires ViewOk(g, v) && 0 < k && ClaimAt(g, zone, v, k, n, id, i)
    requires var fs := Frags(g, zone, v);
             && j < i && ZoneFree(g, zone, v)[k - 1].start == fs[j].start
             && OffAfter(fs[..i][..j], HeadOff(v.head)) == fs[j].start
             && FreeOf(fs[..i][j + 1..], fs[j].start + fs[j].id) == []
    ensures ClaimParts(g, zone, v, k, n, id, i, a', rest, h)
  {
    hide Fragments, SetField, FreeOf, UsedOf, HeadOff, Geo.Ok, Tiles, OffAfter, NoneAt, CutBits, Closed;
    ViewRoom(g, zone, v);
    var fs, free, p := Frags(g, zone, v), ZoneFree(g, zone, v), g.FirstBit(zone);
    var a, c := fs[..i], fs[i];
    h := NextFree(free, k, n, a[j].start);
    var link := LaterLink(g, zone, v, k, n, id, j, i);
    a' := a[j := a[j].(id := link)];
    rest := CutLists(g, zone, v, k, n, i, a[j].start);
    RelinkAndName(CutBits(g, v.bits, free, k, n), p, g.idlen, a, c.(len := n), rest, j, link, id);
    HeadOfPrev(a, j, HeadOff(v.head), link, g.DiscEnd());
  }

  /** The link from the free run before the claimed one fits in an id field and skips what lies between. */
  lemma LaterLink(g: Geo, zone: nat, v: ZoneView, k: nat, n: nat, id: nat, j: nat, i: nat) returns (link: nat)
    requires ViewOk(g, v) && 0 < k && ClaimAt(g, zone, v, k, n, id, i) && j < i
    ensures var fs := Frags(g, zone, v);
            && fs[j].start + link == NextFree(ZoneFree(g, zone, v), k, n, fs[j].start)
            && link < Pow2(g.idlen)
            && fs[j].start < fs[i].start && fs[j].start + link != fs[i].start
            && NoneAt(fs[..i][j + 1..], fs[j].start + link)
  {
    hide Fragments, FreeOf, UsedOf, HeadOff, Geo.Ok, Tiles, OffAfter, NoneAt;
    ViewRoom(g, zone, v);
    var fs, free, p := Frags(g, zone, v), ZoneFree(g, zone, v), g.FirstBit(zone);
    var a, c := fs[..i], fs[i];
    ZoneFreeBounds(g, zone, v);
    TilesAt(fs, p, |v.bits|, g.idlen + 1, i);
    TilesTake(fs, p, |v.bits|, g.idlen + 1, i);
    TilesAt(a, p, c.start, g.idlen + 1, j);
    assert k + 1 < |free| ==> free[k + 1] in free;
    var h := NextFree(free, k, n, a[j].start);
    link := h - a[j].start;
    NoneOutside(a[j + 1..], a[j].End(), c.start, g.idlen + 1, h);
  }

  /** From the lists of the parts to the lists of the zone. */
  lemma Conclude(g: Geo, zone: nat, v: ZoneView, k: nat, n: nat, id: nat,
                 usedHead: seq<Frag>, freeTail: seq<Run>, usedTail: seq<Frag>) returns (m: nat)
    requires ViewOk(g, v) && ClaimPre(g, zone, v, k, n)
    requires var free, used := ZoneFree(g, zone, v), ZoneUsed(g, zone, v);
             var c := free[k];
             var v' := Claimed(g, v, free, k, n, id);
             && ViewOk(g, v')
             && used == usedHead + usedTail
             && freeTail == (if n < c.len then [Run(c.start + n, c.len - n)] else []) + free[k + 1..]
             && ZoneFree(g, zone, v') == free[..k] + freeTail
             && ZoneUsed(g, zone, v') == usedHead + [Frag(c.start, n, id)] + usedTail
             && (ZoneClosed(g, zone, v) ==> ZoneClosed(g, zone, v'))
    ensures ClaimPost(g, zone, v, k, n, id, m)
  {
    hide Fragments, SetField, FreeOf, UsedOf, HeadOff, Geo.Ok, ZoneFree, ZoneUsed, Claimed, ZoneClosed;
    m := |usedHead|;
    assert (usedHead + usedTail)[..m] == usedHead && (usedHead + usedTail)[m..] == usedTail;
  }
}
