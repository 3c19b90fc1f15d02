/** The free chain that is threaded through the fragments of a zone: which fragments of a scan are
    free, which are used, and what claiming a free one does to both lists. */
module MapChain {
  import opened MapScan

  /** A stretch of free space. */
  datatype Run = Run(start: nat, len: nat)

  /** The free fragments of fs when the chain stands at bit off: a fragment that starts where the
      chain points is free, and its id field is the distance to the next free fragment. */
  function FreeOf(fs: seq<Frag>, off: nat): (r: seq<Run>) {
    if fs == [] then []
    else if fs[0].start == off then [Run(fs[0].start, fs[0].len)] + FreeOf(fs[1..], off + fs[0].id)
    else FreeOf(fs[1..], off)
  }

  /** Where the chain stands after fs. */
  function OffAfter(fs: seq<Frag>, off: nat): (r: nat) {
    if fs == [] then off
    else OffAfter(fs[1..], if fs[0].start == off then off + fs[0].id else off)
  }

  /** A used fragment is entered in the store unless it is the marker at the end of the disc. */
  predicate Stored(f: Frag, discEnd: nat) {
    f.id > 1 || f.start != discEnd
  }

  function Keep(fs: seq<Frag>, discEnd: nat): (r: seq<Frag>) {
    if fs == [] then []
    else (if Stored(fs[0], discEnd) then [fs[0]] else []) + Keep(fs[1..], discEnd)
  }

  /** The used fragments of fs when the chain stands at off. */
  function UsedOf(fs: seq<Frag>, off: nat, discEnd: nat): (r: seq<Frag>) {
    if fs == [] then []
    else if fs[0].start == off then UsedOf(fs[1..], off + fs[0].id, discEnd)
    else (if Stored(fs[0], discEnd) then [fs[0]] else []) + UsedOf(fs[1..], off, discEnd)
  }

  ghost predicate NoneAt(fs: seq<Frag>, off: nat) {
    forall f :: f in fs ==> f.start != off
  }

  // ----- Algebra of the chain

  lemma {:induction false} FreeOfAppend(a: seq<Frag>, b: seq<Frag>, off: nat)
    ensures FreeOf(a + b, off) == FreeOf(a, off) + FreeOf(b, OffAfter(a, off))
    ensures OffAfter(a + b, off) == OffAfter(b, OffAfter(a, off))
    decreases |a|
  {
    if a == [] {
      assert a + b == b;
    } else {
      assert (a + b)[1..] == a[1..] + b;
      FreeOfAppend(a[1..], b, if a[0].start == off then off + a[0].id else off);
    }
  }

  lemma {:induction false} UsedOfAppend(a: seq<Frag>, b: seq<Frag>, off: nat, discEnd: nat)
    ensures UsedOf(a + b, off, discEnd) ==
            UsedOf(a, off, discEnd) + UsedOf(b, OffAfter(a, off), discEnd)
    decreases |a|
  {
    if a == [] {
      assert a + b == b;
    } else {
      assert (a + b)[1..] == a[1..] + b;
      UsedOfAppend(a[1..], b, if a[0].start == off then off + a[0].id else off, discEnd);
    }
  }

  /** A free fragment in front leads the chain on into the rest. */
  lemma FreeOfCons(f: Frag, b: seq<Frag>)
    ensures FreeOf([f] + b, f.start) == [Run(f.start, f.len)] + FreeOf(b, f.start + f.id)
    ensures OffAfter([f] + b, f.start) == OffAfter(b, f.start + f.id)
  {
    assert ([f] + b)[1..] == b;
  }

  lemma UsedOfCons(f: Frag, b: seq<Frag>, discEnd: nat)
    ensures UsedOf([f] + b, f.start, discEnd) == UsedOf(b, f.start + f.id, discEnd)
  {
    assert ([f] + b)[1..] == b;
  }

  /** A chain that points at none of the fragments leaves all of them used. */
  lemma {:induction false} NoneFree(fs: seq<Frag>, off: nat, discEnd: nat)
    requires NoneAt(fs, off)
    ensures FreeOf(fs, off) == [] && OffAfter(fs, off) == off
    ensures UsedOf(fs, off, discEnd) == Keep(fs, discEnd)
    decreases |fs|
  {
    if fs != [] {
      assert fs[0] in fs;
      assert NoneAt(fs[1..], off);
      NoneFree(fs[1..], off, discEnd);
    }
  }

  /** The chain points at its first free fragment, or at no fragment at all. */
  lemma {:induction false} ChainHead(fs: seq<Frag>, off: nat)
    ensures FreeOf(fs, off) != [] ==> FreeOf(fs, off)[0].start == off
    ensures FreeOf(fs, off) == [] ==> NoneAt(fs, off)
    decreases |fs|
  {
    if fs != [] && fs[0].start != off {
      ChainHead(fs[1..], off);
      forall f | f in fs ensures FreeOf(fs, off) == [] ==> f.start != off {
        if f != fs[0] {
          assert f in fs[1..];
        }
      }
    }
  }

  /** The k-th free run is a fragment of the list, and cuts the lists where it stands. */
  lemma {:induction false} NthFree(fs: seq<Frag>, off: nat, k: nat) returns (i: nat)
    requires k < |FreeOf(fs, off)|
    ensures i < |fs| && FreeOf(fs, off)[k] == Run(fs[i].start, fs[i].len)
    ensures FreeOf(fs[..i], off) == FreeOf(fs, off)[..k]
    ensures OffAfter(fs[..i], off) == fs[i].start
    ensures FreeOf(fs[i + 1..], fs[i].start + fs[i].id) == FreeOf(fs, off)[k + 1..]
    decreases |fs|
  {
    if fs[0].start == off && k == 0 {
      i := 0;
    } else {
      var hit := fs[0].start == off;
      var off' := if hit then off + fs[0].id else off;
      i := NthFree(fs[1..], off', if hit then k - 1 else k);
      assert fs[1..][..i] == fs[..i + 1][1..];
      assert fs[1..][i + 1..] == fs[i + 2..];
      i := i + 1;
    }
  }

  // ----- Claiming a free fragment

  /** The head of the lists when the first free fragment of the zone is claimed: the zone pointer moves on to h. */
  lemma HeadOfZone(a: seq<Frag>, off: nat, h: nat, discEnd: nat)
    requires FreeOf(a, off) == [] && NoneAt(a, h)
    ensures FreeOf(a, h) == [] && OffAfter(a, h) == h
    ensures UsedOf(a, h, discEnd) == UsedOf(a, off, discEnd)
  {
    ChainHead(a, off);
    NoneFree(a, off, discEnd);
    NoneFree(a, h, discEnd);
  }

  /** The head of the lists when a later free fragment is claimed: fragment j, the free one before
      it, now leads on to h. */
  lemma HeadOfPrev(a: seq<Frag>, j: nat, off: nat, link: nat, discEnd: nat)
    requires j < |a| && OffAfter(a[..j], off) == a[j].start
    requires FreeOf(a[j + 1..], a[j].start + a[j].id) == []
    requires NoneAt(a[j + 1..], a[j].start + link)
    ensures var a' := a[j := a[j].(id := link)];
            && FreeOf(a', off) == FreeOf(a, off)
            && OffAfter(a', off) == a[j].start + link
            && UsedOf(a', off, discEnd) == UsedOf(a, off, discEnd)
  {
    hide FreeOf, OffAfter, UsedOf, NoneAt;
    var q, b := a[..j], a[j + 1..];
    var f := a[j];
    var f' := f.(id := link);
    var s := f.start;
    assert a == q + ([f] + b) && a[j := f'] == q + ([f'] + b);
    ChainHead(b, s + f.id);
    NoneFree(b, s + f.id, discEnd);
    NoneFree(b, s + link, discEnd);
    FreeOfAppend(q, [f] + b, off);
    FreeOfAppend(q, [f'] + b, off);
    UsedOfAppend(q, [f] + b, off, discEnd);
    UsedOfAppend(q, [f'] + b, off, discEnd);
    FreeOfCons(f, b);
    FreeOfCons(f', b);
    UsedOfCons(f, b, discEnd);
    UsedOfCons(f', b, discEnd);
  }

  /** The chain from h on finds in fs what it found from off on: h is the first free fragment found
      from off, or nothing is found from either. */
  lemma SameTail(fs: seq<Frag>, off: nat, h: nat, discEnd: nat)
    requires FreeOf(fs, off) != [] ==> h == FreeOf(fs, off)[0].start
    requires FreeOf(fs, off) == [] ==> NoneAt(fs, h)
    ensures FreeOf(fs, h) == FreeOf(fs, off)
    ensures UsedOf(fs, h, discEnd) == UsedOf(fs, off, discEnd)
  {
    ChainHead(fs, off);
    if FreeOf(fs, off) == [] {
      NoneFree(fs, off, discEnd);
      NoneFree(fs, h, discEnd);
    }
  }

  /** Replacing the head a, the claimed fragment c (free before) and its replacement mid:
      the lists of the whole zone follow from the lists of the parts. */
  lemma Reassemble(a: seq<Frag>, c: Frag, t: seq<Frag>, off: nat,
                   a': seq<Frag>, u: Frag, rest: seq<Frag>, off': nat, h: nat, discEnd: nat)
    requires OffAfter(a, off) == c.start
    requires FreeOf(a', off') == FreeOf(a, off) && UsedOf(a', off', discEnd) == UsedOf(a, off, discEnd)
    requires OffAfter(a', off') == h && u.start != h && u.id > 1
    ensures FreeOf(a + [c] + t, off) ==
            FreeOf(a, off) + [Run(c.start, c.len)] + FreeOf(t, c.start + c.id)
    ensures UsedOf(a + [c] + t, off, discEnd) ==
            UsedOf(a, off, discEnd) + UsedOf(t, c.start + c.id, discEnd)
    ensures FreeOf(a' + [u] + rest, off') == FreeOf(a, off) + FreeOf(rest, h)
    ensures UsedOf(a' + [u] + rest, off', discEnd) ==
            UsedOf(a, off, discEnd) + [u] + UsedOf(rest, h, discEnd)
  {
    assert a + [c] + t == a + ([c] + t) && ([c] + t)[1..] == t;
    FreeOfAppend(a, [c] + t, off);
    UsedOfAppend(a, [c] + t, off, discEnd);
    assert a' + [u] + rest == a' + ([u] + rest) && ([u] + rest)[1..] == rest;
    FreeOfAppend(a', [u] + rest, off');
    UsedOfAppend(a', [u] + rest, off', discEnd);
  }

  // ----- Conservation

  function FragLen(fs: seq<Frag>): (n: nat) {
    if fs == [] then 0 else fs[0].len + FragLen(fs[1..])
  }

  function RunLen(rs: seq<Run>): (n: nat) {
    if rs == [] then 0 else rs[0].len + RunLen(rs[1..])
  }

  /** Length of the fragments that are neither free nor stored: the marker at the end of the disc. */
  function MarkerLen(fs: seq<Frag>, off: nat, discEnd: nat): (n: nat) {
    if fs == [] then 0
    else if fs[0].start == off then MarkerLen(fs[1..], off + fs[0].id, discEnd)
    else (if Stored(fs[0], discEnd) then 0 else fs[0].len) + MarkerLen(fs[1..], off, discEnd)
  }

  /** Every bit of the allocation area is free, used or in the end marker, and in one of them only. */
  lemma {:induction false} Conservation(fs: seq<Frag>, p: nat, end: nat, min: nat, off: nat, discEnd: nat)
    requires Tiles(fs, p, end, min)
    ensures RunLen(FreeOf(fs, off)) + FragLen(UsedOf(fs, off, discEnd)) + MarkerLen(fs, off, discEnd) == end - p
    decreases |fs|
  {
    if fs != [] {
      var off' := if fs[0].start == off then off + fs[0].id else off;
      Conservation(fs[1..], fs[0].End(), end, min, off', discEnd);
      var free, used := FreeOf(fs[1..], off'), UsedOf(fs[1..], off', discEnd);
      assert ([Run(fs[0].start, fs[0].len)] + free)[1..] == free;
      assert ([fs[0]] + used)[1..] == used && [] + used == used;
    }
  }
}
