/** The scan of all zones of a disc, and MakeID's effect on its lists. */
module DiscScan {
  import opened Bits
  import opened Geometry
  import opened MapScan
  import opened MapChain
  import opened MapObjects
  import opened ZoneClaim

  datatype FreeInfo = FreeInfo(zone: nat, start: nat, len: nat)

  ghost predicate ViewsOk(g: Geo, vs: seq<ZoneView>) {
    g.Ok() && |vs| == g.nzones && forall z :: 0 <= z < |vs| ==> ViewOk(g, vs[z])
  }

  function TagFree(zone: nat, rs: seq<Run>): (l: seq<FreeInfo>)
    ensures |l| == |rs|
    ensures forall i :: 0 <= i < |l| ==> l[i] == FreeInfo(zone, rs[i].start, rs[i].len)
  {
    seq(|rs|, i requires 0 <= i < |rs| => FreeInfo(zone, rs[i].start, rs[i].len))
  }

  function TagUsed(zone: nat, fs: seq<Frag>): (l: seq<Used>)
    ensures |l| == |fs|
    ensures forall i :: 0 <= i < |l| ==> l[i] == Used(fs[i].id, Chunk(zone, fs[i].start, fs[i].len))
  {
    seq(|fs|, i requires 0 <= i < |fs| => Used(fs[i].id, Chunk(zone, fs[i].start, fs[i].len)))
  }

  /** The free list after zones lo up to hi were scanned. */
  function DiscFree(g: Geo, vs: seq<ZoneView>, lo: nat, hi: nat): (l: seq<FreeInfo>)
    requires ViewsOk(g, vs) && lo <= hi <= |vs|
    decreases hi
  {
    if lo == hi then [] else DiscFree(g, vs, lo, hi - 1) + TagFree(hi - 1, ZoneFree(g, hi - 1, vs[hi - 1]))
  }

  /** The calls of AddID while zones lo up to hi are scanned. */
  function DiscUsed(g: Geo, vs: seq<ZoneView>, lo: nat, hi: nat): (l: seq<Used>)
    requires ViewsOk(g, vs) && lo <= hi <= |vs|
    decreases hi
  {
    if lo == hi then [] else DiscUsed(g, vs, lo, hi - 1) + TagUsed(hi - 1, ZoneUsed(g, hi - 1, vs[hi - 1]))
  }

  lemma {:induction false} ScanSplit(g: Geo, vs: seq<ZoneView>, lo: nat, mid: nat, hi: nat)
    requires ViewsOk(g, vs) && lo <= mid <= hi <= |vs|
    ensures DiscFree(g, vs, lo, hi) == DiscFree(g, vs, lo, mid) + DiscFree(g, vs, mid, hi)
    ensures DiscUsed(g, vs, lo, hi) == DiscUsed(g, vs, lo, mid) + DiscUsed(g, vs, mid, hi)
    decreases hi
  {
    hide ZoneFree, ZoneUsed, Geo.Ok;
    if mid < hi {
      ScanSplit(g, vs, lo, mid, hi - 1);
    }
  }

  lemma {:induction false} ScanLocal(g: Geo, vs: seq<ZoneView>, vs': seq<ZoneView>, lo: nat, hi: nat)
    requires ViewsOk(g, vs) && ViewsOk(g, vs') && lo <= hi <= |vs|
    requires forall z :: lo <= z < hi ==> vs[z] == vs'[z]
    ensures DiscFree(g, vs', lo, hi) == DiscFree(g, vs, lo, hi)
    ensures DiscUsed(g, vs', lo, hi) == DiscUsed(g, vs, lo, hi)
    decreases hi
  {
    hide ZoneFree, ZoneUsed, Geo.Ok;
    if lo < hi {
      ScanLocal(g, vs, vs', lo, hi - 1);
    }
  }

  /** Cutting the lists of the disc at zone z. */
  lemma ScanAround(g: Geo, vs: seq<ZoneView>, z: nat)
    requires ViewsOk(g, vs) && z < |vs|
    ensures DiscFree(g, vs, 0, |vs|) ==
            DiscFree(g, vs, 0, z) + TagFree(z, ZoneFree(g, z, vs[z])) + DiscFree(g, vs, z + 1, |vs|)
    ensures DiscUsed(g, vs, 0, |vs|) ==
            DiscUsed(g, vs, 0, z) + TagUsed(z, ZoneUsed(g, z, vs[z])) + DiscUsed(g, vs, z + 1, |vs|)
  {
    hide ZoneFree, ZoneUsed, Geo.Ok;
    ScanSplit(g, vs, 0, z + 1, |vs|);
  }

  lemma {:induction false} FreeZones(g: Geo, vs: seq<ZoneView>, lo: nat, hi: nat)
    requires ViewsOk(g, vs) && lo <= hi <= |vs|
    ensures forall i :: 0 <= i < |DiscFree(g, vs, lo, hi)| ==> lo <= DiscFree(g, vs, lo, hi)[i].zone < hi
    decreases hi
  {
    hide ZoneFree, Geo.Ok;
    if lo < hi {
      FreeZones(g, vs, lo, hi - 1);
    }
  }

  /** Entry k of the free list is run number k - |free runs of earlier zones| of its own zone, and
      its neighbours in the list are its neighbours in the zone exactly when they carry its zone. */
  lemma FreeLocate(g: Geo, vs: seq<ZoneView>, k: nat) returns (z: nat, kz: nat)
    requires ViewsOk(g, vs) && k < |DiscFree(g, vs, 0, |vs|)|
    ensures var l := DiscFree(g, vs, 0, |vs|);
            && z == l[k].zone && z < |vs| && k == |DiscFree(g, vs, 0, z)| + kz
            && kz < |ZoneFree(g, z, vs[z])|
            && l[k] == FreeInfo(z, ZoneFree(g, z, vs[z])[kz].start, ZoneFree(g, z, vs[z])[kz].len)
            && (k > 0 && l[k - 1].zone == z <==> kz > 0)
            && (kz > 0 ==> l[k - 1].start == ZoneFree(g, z, vs[z])[kz - 1].start)
            && (k + 1 < |l| && l[k + 1].zone == z <==> kz + 1 < |ZoneFree(g, z, vs[z])|)
            && (kz + 1 < |ZoneFree(g, z, vs[z])| ==> l[k + 1].start == ZoneFree(g, z, vs[z])[kz + 1].start)
  {
    hide ZoneFree, ZoneUsed, Geo.Ok, DiscFree, DiscUsed;
    var l := DiscFree(g, vs, 0, |vs|);
    FreeZones(g, vs, 0, |vs|);
    z := l[k].zone;
    ScanAround(g, vs, z);
    FreeZones(g, vs, 0, z);
    FreeZones(g, vs, z + 1, |vs|);
    var a, m, b := DiscFree(g, vs, 0, z), TagFree(z, ZoneFree(g, z, vs[z])), DiscFree(g, vs, z + 1, |vs|);
    assert |a| <= k < |a| + |m|;
    kz := k - |a|;
  }

  // ----- Space accounting, in map bits

  function FreeBits(l: seq<FreeInfo>): (n: nat)
    decreases |l|
  {
    if l == [] then 0 else FreeBits(l[..|l| - 1]) + l[|l| - 1].len
  }

  /** Space of the objects; ids 0 and 1 are not objects. */
  function UsedBits(us: seq<Used>): (n: nat)
    decreases |us|
  {
    if us == [] then 0
    else UsedBits(us[..|us| - 1]) + (if us[|us| - 1].id > 1 then us[|us| - 1].chunk.len else 0)
  }

  lemma {:induction false} FreeBitsAppend(a: seq<FreeInfo>, b: seq<FreeInfo>)
    ensures FreeBits(a + b) == FreeBits(a) + FreeBits(b)
    decreases |b|
  {
    if b == [] {
      assert a + b == a;
    } else {
      assert (a + b)[..|a + b| - 1] == a + b[..|b| - 1];
      FreeBitsAppend(a, b[..|b| - 1]);
    }
  }

  lemma {:induction false} UsedBitsAppend(a: seq<Used>, b: seq<Used>)
    ensures UsedBits(a + b) == UsedBits(a) + UsedBits(b)
    decreases |b|
  {
    if b == [] {
      assert a + b == a;
    } else {
      assert (a + b)[..|a + b| - 1] == a + b[..|b| - 1];
      UsedBitsAppend(a, b[..|b| - 1]);
    }
  }

  // ----- Write-through

  /** The free list with the first n bits of entry k taken away. */
  function TakeFree(l: seq<FreeInfo>, k: nat, n: nat): (r: seq<FreeInfo>)
    requires k < |l| && n <= l[k].len
  {
    if n < l[k].len then l[k := FreeInfo(l[k].zone, l[k].start + n, l[k].len - n)]
    else l[..k] + l[k + 1..]
  }

  lemma FreeBitsAround(a: seq<FreeInfo>, x: FreeInfo, b: seq<FreeInfo>)
    ensures FreeBits(a + [x] + b) == FreeBits(a + b) + x.len
  {
    FreeBitsAppend(a, b);
    FreeBitsAppend(a, [x]);
    FreeBitsAppend(a + [x], b);
    assert [x][..0] == [];
  }

  lemma TakeFreeBits(l: seq<FreeInfo>, k: nat, n: nat)
    requires k < |l| && n <= l[k].len
    ensures FreeBits(TakeFree(l, k, n)) + n == FreeBits(l)
  {
    hide FreeBits;
    var a, b := l[..k], l[k + 1..];
    assert l == a + [l[k]] + b;
    FreeBitsAround(a, l[k], b);
    if n < l[k].len {
      var x := FreeInfo(l[k].zone, l[k].start + n, l[k].len - n);
      assert l[k := x] == a + [x] + b;
      FreeBitsAround(a, x, b);
    }
  }

  /** The disc after zone z was replaced: a rescan differs in that zone's part only. */
  lemma ReplaceZone(g: Geo, vs: seq<ZoneView>, z: nat, v': ZoneView)
    requires ViewsOk(g, vs) && z < |vs| && ViewOk(g, v')
    ensures ViewsOk(g, vs[z := v'])
    ensures DiscFree(g, vs[z := v'], 0, |vs|) ==
            DiscFree(g, vs, 0, z) + TagFree(z, ZoneFree(g, z, v')) + DiscFree(g, vs, z + 1, |vs|)
    ensures DiscUsed(g, vs[z := v'], 0, |vs|) ==
            DiscUsed(g, vs, 0, z) + TagUsed(z, ZoneUsed(g, z, v')) + DiscUsed(g, vs, z + 1, |vs|)
  {
    hide ZoneFree, ZoneUsed, Geo.Ok, DiscFree, DiscUsed;
    var vs' := vs[z := v'];
    ScanAround(g, vs', z);
    ScanLocal(g, vs, vs', 0, z);
    ScanLocal(g, vs, vs', z + 1, |vs|);
  }

  /** The lists that MakeID leaves in memory are the lists a rescan of its map would build. */
  lemma ClaimWritesThrough(g: Geo, vs: seq<ZoneView>, k: nat, z: nat, kz: nat, n: nat, id: nat)
    requires ViewsOk(g, vs) && z < |vs| && k == |DiscFree(g, vs, 0, z)| + kz
    requires kz < |ZoneFree(g, z, vs[z])|
    requires 1 < id < Pow2(g.idlen) && g.idlen < n && g.IdsPerZone() > 0
    requires id !in Build(DiscUsed(g, vs, 0, |vs|), g.IdsPerZone())
    requires var c := ZoneFree(g, z, vs[z])[kz];
             n == c.len || n + g.idlen < c.len
    ensures ClaimPre(g, z, vs[z], kz, n)
    ensures var l := DiscFree(g, vs, 0, |vs|);
            var c := ZoneFree(g, z, vs[z])[kz];
            var us := DiscUsed(g, vs, 0, |vs|);
            var vs' := vs[z := Claimed(g, vs[z], ZoneFree(g, z, vs[z]), kz, n, id)];
            && ViewsOk(g, vs') && k < |l| && l[k] == FreeInfo(z, c.start, c.len)
            && DiscFree(g, vs', 0, |vs|) == TakeFree(l, k, n)
            && Build(DiscUsed(g, vs', 0, |vs|), g.IdsPerZone()) ==
               Build(us, g.IdsPerZone())[id := [Chunk(z, c.start, n)]]
            && UsedBits(DiscUsed(g, vs', 0, |vs|)) == UsedBits(us) + n
  {
    hide ZoneFree, ZoneUsed, Geo.Ok, DiscFree, DiscUsed, Claimed, Build, Fragments, UsedBits, TakeFree, ZoneClosed;
    var free, used := ZoneFree(g, z, vs[z]), ZoneUsed(g, z, vs[z]);
    var m := ClaimRescan(g, z, vs[z], kz, n, id);
    var v' := Claimed(g, vs[z], free, kz, n, id);
    ScanAround(g, vs, z);
    ReplaceZone(g, vs, z, v');
    var x := Frag(free[kz].start, n, id);
    FreeParts(DiscFree(g, vs, 0, z), z, free, DiscFree(g, vs, z + 1, |vs|), kz, n);
    UsedParts(DiscUsed(g, vs, 0, z), z, used, DiscUsed(g, vs, z + 1, |vs|), m, x, g.IdsPerZone());
  }

  lemma FreeParts(a: seq<FreeInfo>, z: nat, free: seq<Run>, b: seq<FreeInfo>, kz: nat, n: nat)
    requires kz < |free| && n <= free[kz].len
    ensures var c := free[kz];
            var free' := free[..kz] + (if n < c.len then [Run(c.start + n, c.len - n)] else []) + free[kz + 1..];
            && (a + TagFree(z, free) + b)[|a| + kz] == FreeInfo(z, c.start, c.len)
            && a + TagFree(z, free') + b == TakeFree(a + TagFree(z, free) + b, |a| + kz, n)
  {
    var c := free[kz];
    var free' := free[..kz] + (if n < c.len then [Run(c.start + n, c.len - n)] else []) + free[kz + 1..];
    var l, r := a + TagFree(z, free) + b, a + TagFree(z, free') + b;
    var t := TakeFree(l, |a| + kz, n);
    assert |r| == |t|;
    forall i | 0 <= i < |r| ensures r[i] == t[i] {
    }
  }

  lemma UsedParts(a: seq<Used>, z: nat, used: seq<Frag>, b: seq<Used>, m: nat, x: Frag, idsPz: nat)
    requires m <= |used| && x.id > 1 && idsPz > 0
    requires x.id !in Build(a + TagUsed(z, used) + b, idsPz)
    ensures var us := a + TagUsed(z, used) + b;
            var us' := a + TagUsed(z, used[..m] + [x] + used[m..]) + b;
            && Build(us', idsPz) == Build(us, idsPz)[x.id := [Chunk(z, x.start, x.len)]]
            && UsedBits(us') == UsedBits(us) + x.len
  {
    hide Build, UsedBits;
    var us := a + TagUsed(z, used) + b;
    var us' := a + TagUsed(z, used[..m] + [x] + used[m..]) + b;
    var p, q := a + TagUsed(z, used[..m]), TagUsed(z, used[m..]) + b;
    var u := Used(x.id, Chunk(z, x.start, x.len));
    assert us == p + q;
    assert us' == p + [u] + q;
    BuildFresh(p, u, q, idsPz);
    UsedBitsAppend(p, q);
    UsedBitsAppend(p, [u]);
    UsedBitsAppend(p + [u], q);
    UsedBitsOne(u);
  }

  lemma UsedBitsOne(u: Used)
    requires u.id > 1
    ensures UsedBits([u]) == u.chunk.len
  {
    assert [u][..0] == [];
  }
}
