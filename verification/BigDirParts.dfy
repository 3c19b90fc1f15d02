/** A big directory cut at one entry: the pieces that the editor moves, and where they stand. */
module BigDirParts {
  import opened BigDirLayout
  import opened Regions
  import opened Words

  const EXTENSION: nat := 2048
  const MAX_SIZE: nat := 4096 * 1024

  /** What an edit leaves alone: the header up to the size, parent and own name, the last eight bytes. */
  datatype Shell = Shell(lead: seq<byte>, title: seq<byte>, tail: seq<byte>) {
    ghost predicate Ok() {
      && |lead| == 12 && |tail| == 8
      && U32(lead, 8) <= 255 && |title| == 4 + Whole(U32(lead, 8) + 1)
    }

    ghost function First(): nat {
      24 + |title|
    }
  }

  ghost predicate SizeOk(size: nat) {
    EXTENSION <= size <= MAX_SIZE && size % EXTENSION == 0
  }

  ghost function HeapAt(sh: Shell, n: nat): nat {
    sh.First() + 28 * n
  }

  ghost function BackupsAt(size: nat, n: nat): int {
    size - 8 - 4 * n
  }

  /** All three tables fit, the name heap below the backups. */
  ghost predicate Fits(size: nat, sh: Shell, es: seq<DirEntry>) {
    HeapAt(sh, |es|) + |Names(es)| <= BackupsAt(size, |es|)
  }

  /** The bytes are a directory of this size holding these entries. */
  ghost predicate Image(f: seq<byte>, size: nat, sh: Shell, es: seq<DirEntry>) {
    && SizeOk(size) && sh.Ok() && AllOk(es) && Fits(size, sh, es)
    && At(f, 0, sh.lead)
    && At(f, 12, Enc32(size))
    && At(f, 16, Enc32(|es|))
    && At(f, 20, Enc32(|Names(es)|))
    && At(f, 24, sh.title)
    && At(f, sh.First(), Entries(es, 0))
    && At(f, HeapAt(sh, |es|), Names(es))
    && At(f, BackupsAt(size, |es|), Sins(es))
    && At(f, size - 8, sh.tail)
  }

  /** The bytes determine the entries. */
  lemma ImageUnique(f: seq<byte>, size: nat, sh: Shell, es: seq<DirEntry>, size': nat, sh': Shell, es': seq<DirEntry>)
    requires Image(f, size, sh, es) && Image(f, size', sh', es')
    ensures size == size' && sh == sh' && es == es'
  {
    hide At, Entries, Names, Sins, DirEntry.Ok;
    AtWord(f, 12, size);
    AtWord(f, 12, size');
    AtWord(f, 16, |es|);
    AtWord(f, 16, |es'|);
    AtWord(f, 20, |Names(es)|);
    AtWord(f, 20, |Names(es')|);
    AtSame(f, 0, sh.lead, sh'.lead);
    AtSame(f, 24, sh.title, sh'.title);
    AtSame(f, size - 8, sh.tail, sh'.tail);
    AtSame(f, sh.First(), Entries(es, 0), Entries(es', 0));
    AtSame(f, HeapAt(sh, |es|), Names(es), Names(es'));
    TablesInjective(es, es', 0);
  }

  // ----- Every list that fits has an image

  /** The tables one behind the other, the free space in front of the backups filled with zeros. */
  ghost function Bytes(size: nat, sh: Shell, es: seq<DirEntry>): (f: seq<byte>)
    requires SizeOk(size) && sh.Ok() && AllOk(es) && Fits(size, sh, es)
    ensures |f| == size
  {
    sh.lead + (Enc32(size) + (Enc32(|es|) + (Enc32(|Names(es)|) + (sh.title + (Entries(es, 0) + (Names(es)
    + (Zeros(BackupsAt(size, |es|) - HeapAt(sh, |es|) - |Names(es)|) + (Sins(es) + sh.tail))))))))
  }

  lemma BytesImage(size: nat, sh: Shell, es: seq<DirEntry>)
    requires SizeOk(size) && sh.Ok() && AllOk(es) && Fits(size, sh, es)
    ensures Image(Bytes(size, sh, es), size, sh, es)
  {
    hide At, Enc32, Entries, Names, Sins, AllOk, Zeros;
    var f := Bytes(size, sh, es);
    var z := Zeros(BackupsAt(size, |es|) - HeapAt(sh, |es|) - |Names(es)|);
    var p9 := Sins(es) + sh.tail;
    var p8 := z + p9;
    var p7 := Names(es) + p8;
    var p6 := Entries(es, 0) + p7;
    var p5 := sh.title + p6;
    var p4 := Enc32(|Names(es)|) + p5;
    var p3 := Enc32(|es|) + p4;
    var p2 := Enc32(size) + p3;
    WholeAt(f);
    AtJoin(f, 0, sh.lead, p2);
    AtJoin(f, 12, Enc32(size), p3);
    AtJoin(f, 16, Enc32(|es|), p4);
    AtJoin(f, 20, Enc32(|Names(es)|), p5);
    AtJoin(f, 24, sh.title, p6);
    AtJoin(f, sh.First(), Entries(es, 0), p7);
    AtJoin(f, HeapAt(sh, |es|), Names(es), p8);
    AtJoin(f, HeapAt(sh, |es|) + |Names(es)|, z, p9);
    AtJoin(f, BackupsAt(size, |es|), Sins(es), sh.tail);
  }

  lemma WholeAt(f: seq<byte>)
    ensures At(f, 0, f)
  {
  }

  // ----- Pieces

  datatype Part = Part(at: nat, bytes: seq<byte>) {
    ghost predicate In(f: seq<byte>) {
      At(f, at, bytes)
    }

    ghost function End(): nat {
      at + |bytes|
    }

    /** No byte of the part lies in the n bytes from q on. */
    ghost predicate Clear(q: nat, n: nat) {
      bytes == [] || End() <= q || q + n <= at
    }
  }

  const NOWHERE := Part(0, [])

  datatype Parts = Parts(lead: Part, size: Part, count: Part, names: Part, title: Part,
                         e1: Part, e2: Part, n1: Part, n2: Part, s1: Part, s2: Part, tail: Part) {
    ghost predicate In(f: seq<byte>) {
      && lead.In(f) && size.In(f) && count.In(f) && names.In(f) && title.In(f)
      && e1.In(f) && e2.In(f) && n1.In(f) && n2.In(f) && s1.In(f) && s2.In(f) && tail.In(f)
    }

    ghost predicate Clear(q: nat, n: nat) {
      && lead.Clear(q, n) && size.Clear(q, n) && count.Clear(q, n) && names.Clear(q, n) && title.Clear(q, n)
      && e1.Clear(q, n) && e2.Clear(q, n) && n1.Clear(q, n) && n2.Clear(q, n)
      && s1.Clear(q, n) && s2.Clear(q, n) && tail.Clear(q, n)
    }

    /** The parts stand one behind the other. */
    ghost predicate Ordered() {
      && lead.End() <= 12
      && size.at == 12 && size.End() == 16 && count.at == 16 && count.End() == 20 && names.at == 20 && names.End() == 24
      && 24 <= title.at && title.End() <= e1.at && e1.End() <= e2.at && e2.End() <= n1.at
      && n1.End() <= n2.at && n2.End() <= s1.at && s1.End() <= s2.at && s2.End() <= tail.at
    }

    ghost predicate Sits(f: seq<byte>) {
      Ordered() && In(f)
    }
  }

  lemma PartKept(f: seq<byte>, p: Part, q: nat, x: seq<byte>)
    requires p.In(f) && q + |x| <= |f| && p.Clear(q, |x|)
    ensures p.In(Patch(f, q, x))
  {
    if p.bytes != [] {
      AtKept(f, q, x, p.at, p.bytes);
    }
  }

  lemma Kept(f: seq<byte>, v: Parts, q: nat, x: seq<byte>)
    requires v.In(f) && q + |x| <= |f| && v.Clear(q, |x|)
    ensures v.In(Patch(f, q, x))
  {
    hide Part.In, Part.Clear;
    PartKept(f, v.lead, q, x);
    PartKept(f, v.size, q, x);
    PartKept(f, v.count, q, x);
    PartKept(f, v.names, q, x);
    PartKept(f, v.title, q, x);
    PartKept(f, v.e1, q, x);
    PartKept(f, v.e2, q, x);
    PartKept(f, v.n1, q, x);
    PartKept(f, v.n2, q, x);
    PartKept(f, v.s1, q, x);
    PartKept(f, v.s2, q, x);
    PartKept(f, v.tail, q, x);
  }

  lemma NothingAt(f: seq<byte>)
    ensures At(f, 0, [])
  {
  }

  /** A write into a gap leaves every part in place. */
  lemma GapWrite(f: seq<byte>, v: Parts, q: nat, x: seq<byte>)
    requires v.Sits(f)
    requires || (v.e1.End() <= q && q + |x| <= v.e2.at)
             || (v.e2.End() <= q && q + |x| <= v.n1.at)
             || (v.n1.End() <= q && q + |x| <= v.n2.at)
             || (v.s1.End() <= q && q + |x| <= v.s2.at)
    ensures q + |x| <= |f| && v.Sits(Patch(f, q, x))
  {
    assert |f| >= v.tail.at;
    Kept(f, v, q, x);
  }

  // ----- A part is written anew between its neighbours; the old copy of it no longer matters

  lemma PutSize(f: seq<byte>, v: Parts, x: seq<byte>)
    requires v.Sits(f) && |x| == 4
    ensures 24 <= |f| && v.(size := Part(12, x)).Sits(Patch(f, 12, x))
  {
    Kept(f, v.(size := NOWHERE), 12, x);
    AtWritten(f, 12, x);
  }

  lemma PutCount(f: seq<byte>, v: Parts, x: seq<byte>)
    requires v.Sits(f) && |x| == 4
    ensures 24 <= |f| && v.(count := Part(16, x)).Sits(Patch(f, 16, x))
  {
    Kept(f, v.(count := NOWHERE), 16, x);
    AtWritten(f, 16, x);
  }

  lemma PutNamesSize(f: seq<byte>, v: Parts, x: seq<byte>)
    requires v.Sits(f) && |x| == 4
    ensures 24 <= |f| && v.(names := Part(20, x)).Sits(Patch(f, 20, x))
  {
    Kept(f, v.(names := NOWHERE), 20, x);
    AtWritten(f, 20, x);
  }

  lemma PutE2(f: seq<byte>, v: Parts, q: nat, x: seq<byte>)
    requires v.Sits(f) && v.e1.End() <= q && q + |x| <= v.n1.at
    ensures q + |x| <= |f| && v.(e2 := Part(q, x)).Sits(Patch(f, q, x))
  {
    assert |f| >= v.tail.at;
    Kept(f, v.(e2 := NOWHERE), q, x);
    AtWritten(f, q, x);
  }

  lemma PutN2(f: seq<byte>, v: Parts, q: nat, x: seq<byte>)
    requires v.Sits(f) && v.n1.End() <= q && q + |x| <= v.s1.at
    ensures q + |x| <= |f| && v.(n2 := Part(q, x)).Sits(Patch(f, q, x))
  {
    assert |f| >= v.tail.at;
    Kept(f, v.(n2 := NOWHERE), q, x);
    AtWritten(f, q, x);
  }

  lemma PutS1(f: seq<byte>, v: Parts, q: nat, x: seq<byte>)
    requires v.Sits(f) && v.n2.End() <= q && q + |x| <= v.s2.at
    ensures q + |x| <= |f| && v.(s1 := Part(q, x)).Sits(Patch(f, q, x))
  {
    assert |f| >= v.tail.at;
    Kept(f, v.(s1 := NOWHERE), q, x);
    AtWritten(f, q, x);
  }

  /** Both halves of the name heap move together. */
  lemma PutNames(f: seq<byte>, v: Parts, q: nat)
    requires v.Sits(f) && v.n2.at == v.n1.End()
    requires v.e2.End() <= q && q + |v.n1.bytes| + |v.n2.bytes| <= v.s1.at
    ensures v.n2.End() <= |f| && q + |v.n1.bytes| + |v.n2.bytes| <= |f|
    ensures v.(n1 := v.n1.(at := q), n2 := v.n2.(at := q + |v.n1.bytes|))
             .Sits(Patch(f, q, f[v.n1.at..v.n2.End()]))
  {
    hide Patch, At;
    AtTaken(f, v.tail.at, v.tail.bytes);
    var x := v.n1.bytes + v.n2.bytes;
    AtJoin(f, v.n1.at, v.n1.bytes, v.n2.bytes);
    AtTaken(f, v.n1.at, x);
    NothingAt(f);
    Kept(f, v.(n1 := NOWHERE, n2 := NOWHERE), q, x);
    AtWritten(f, q, x);
    AtJoin(Patch(f, q, x), q, v.n1.bytes, v.n2.bytes);
  }

  /** The backup addresses and the last eight bytes move together. */
  lemma PutEnd(f: seq<byte>, v: Parts, q: nat)
    requires v.Sits(f) && v.s2.at == v.s1.End() && v.tail.at == v.s2.End()
    requires v.n2.End() <= q && q + (v.tail.End() - v.s1.at) <= |f|
    ensures v.tail.End() <= |f|
    ensures v.(s1 := v.s1.(at := q), s2 := v.s2.(at := q + |v.s1.bytes|), tail := v.tail.(at := q + |v.s1.bytes| + |v.s2.bytes|))
             .Sits(Patch(f, q, f[v.s1.at..v.tail.End()]))
  {
    hide Patch, At;
    var x := v.s1.bytes + v.s2.bytes + v.tail.bytes;
    AtJoinThree(f, v.s1.at, v.s1.bytes, v.s2.bytes, v.tail.bytes);
    AtTaken(f, v.s1.at, x);
    NothingAt(f);
    Kept(f, v.(s1 := NOWHERE, s2 := NOWHERE, tail := NOWHERE), q, x);
    AtWritten(f, q, x);
    AtJoinThree(Patch(f, q, x), q, v.s1.bytes, v.s2.bytes, v.tail.bytes);
  }

  // ----- A directory cut into a, mid and b

  datatype Cut = Cut(size: nat, sh: Shell, a: seq<DirEntry>, mid: seq<DirEntry>, b: seq<DirEntry>) {
    ghost function List(): (es: seq<DirEntry>)
      ensures |es| == N()
    {
      a + mid + b
    }

    ghost function N(): nat {
      |a| + |mid| + |b|
    }

    /** Where the name of the first entry of b stands in the name heap. */
    ghost function Pt(): nat {
      |Names(a)| + |Names(mid)|
    }

    ghost function NamesSize(): nat {
      |Names(a)| + |Names(mid)| + |Names(b)|
    }

    ghost function Heap(): nat {
      HeapAt(sh, N())
    }

    ghost function Backups(): int {
      BackupsAt(size, N())
    }

    ghost predicate Ok() {
      && SizeOk(size) && sh.Ok() && AllOk(a) && AllOk(mid) && AllOk(b)
      && Heap() + NamesSize() <= Backups()
    }

    /** The pieces of a and b; the pieces of mid are left out. */
    ghost function View(): (v: Parts)
      requires Ok()
    {
      Parts(Part(0, sh.lead), Part(12, Enc32(size)), Part(16, Enc32(N())), Part(20, Enc32(NamesSize())), Part(24, sh.title),
            Part(sh.First(), Entries(a, 0)), Part(sh.First() + 28 * (|a| + |mid|), Entries(b, Pt())),
            Part(Heap(), Names(a)), Part(Heap() + Pt(), Names(b)),
            Part(Backups(), Sins(a)), Part(Backups() + 4 * (|a| + |mid|), Sins(b)),
            Part(size - 8, sh.tail))
    }

    ghost predicate MidIn(f: seq<byte>)
      requires Ok()
    {
      && At(f, sh.First() + 28 * |a|, Entries(mid, |Names(a)|))
      && At(f, Heap() + |Names(a)|, Names(mid))
      && At(f, Backups() + 4 * |a|, Sins(mid))
    }
  }

  lemma AtJoinThree(f: seq<byte>, p: nat, a: seq<byte>, b: seq<byte>, c: seq<byte>)
    ensures At(f, p, a + b + c) <==> At(f, p, a) && At(f, p + |a|, b) && At(f, p + |a| + |b|, c)
  {
    hide At;
    AtJoin(f, p, a + b, c);
    AtJoin(f, p, a, b);
  }

  lemma CutOk(c: Cut)
    ensures Names(c.List()) == Names(c.a) + Names(c.mid) + Names(c.b)
    ensures |Names(c.List())| == c.NamesSize()
    ensures AllOk(c.List()) <==> AllOk(c.a) && AllOk(c.mid) && AllOk(c.b)
    ensures c.Ok() <==> SizeOk(c.size) && c.sh.Ok() && AllOk(c.List()) && Fits(c.size, c.sh, c.List())
  {
    hide AllOk, Names, SizeOk, Shell.Ok;
    AllOkAppend(c.a, c.mid);
    AllOkAppend(c.a + c.mid, c.b);
    NamesAppend(c.a + c.mid, c.b);
    NamesAppend(c.a, c.mid);
  }

  lemma EntriesCut(f: seq<byte>, c: Cut)
    requires c.Ok()
    ensures AllOk(c.List()) && |Names(c.List())| == c.NamesSize()
    ensures At(f, c.sh.First(), Entries(c.List(), 0))
       <==> && At(f, c.sh.First(), Entries(c.a, 0))
            && At(f, c.sh.First() + 28 * |c.a|, Entries(c.mid, |Names(c.a)|))
            && At(f, c.sh.First() + 28 * (|c.a| + |c.mid|), Entries(c.b, c.Pt()))
  {
    hide At, AllOk, Names, Entries, Shell.First, Shell.Ok;
    CutOk(c);
    AllOkAppend(c.a, c.mid);
    NamesAppend(c.a, c.mid);
    EntriesAppend(c.a, c.mid, 0);
    EntriesAppend(c.a + c.mid, c.b, 0);
    AtJoinThree(f, c.sh.First(), Entries(c.a, 0), Entries(c.mid, |Names(c.a)|), Entries(c.b, c.Pt()));
  }

  lemma NamesCut(f: seq<byte>, at: nat, c: Cut)
    ensures At(f, at, Names(c.List()))
       <==> && At(f, at, Names(c.a))
            && At(f, at + |Names(c.a)|, Names(c.mid))
            && At(f, at + c.Pt(), Names(c.b))
  {
    hide At, Names, AllOk;
    CutOk(c);
    AtJoinThree(f, at, Names(c.a), Names(c.mid), Names(c.b));
  }

  lemma SinsCut(f: seq<byte>, at: nat, c: Cut)
    requires c.Ok()
    ensures AllOk(c.List())
    ensures At(f, at, Sins(c.List()))
       <==> && At(f, at, Sins(c.a))
            && At(f, at + 4 * |c.a|, Sins(c.mid))
            && At(f, at + 4 * (|c.a| + |c.mid|), Sins(c.b))
  {
    hide At, AllOk, Sins, Names, Shell.Ok;
    CutOk(c);
    AllOkAppend(c.a, c.mid);
    SinsAppend(c.a, c.mid);
    SinsAppend(c.a + c.mid, c.b);
    AtJoinThree(f, at, Sins(c.a), Sins(c.mid), Sins(c.b));
  }

  /** A directory image is exactly the pieces of any cut of its list. */
  lemma ImageCut(f: seq<byte>, c: Cut)
    ensures Image(f, c.size, c.sh, c.List()) <==> c.Ok() && c.View().In(f) && c.MidIn(f)
  {
    hide At, AllOk, Names, Entries, Sins, Shell.Ok, Shell.First, Enc32, SizeOk, Cut.List, Cut.Ok, Cut.Pt, Cut.N;
    CutOk(c);
    if c.Ok() {
      EntriesCut(f, c);
      NamesCut(f, c.Heap(), c);
      SinsCut(f, c.Backups(), c);
    }
  }

  // ----- Correcting name pointers

  /** The name pointers of k entries from offset on, each corrected. */
  function Bump(f: seq<byte>, offset: nat, k: nat, adjust: int): (r: seq<byte>)
    requires offset + 28 * k <= |f|
    ensures |r| == |f|
    ensures forall i :: 0 <= i < |f| && (i < offset || offset + 28 * k <= i) ==> r[i] == f[i]
    decreases k
  {
    if k == 0 then f
    else Bump(Patch(f, offset + 24, Enc32((U32(f, offset + 24) + adjust) % WORD)), offset + 28, k - 1, adjust)
  }

  lemma BumpOne(f: seq<byte>, offset: nat, k: nat, adjust: int, pt': nat)
    requires k > 0 && offset + 28 * k <= |f| && pt' < WORD && U32(f, offset + 24) + adjust == pt'
    ensures Bump(f, offset, k, adjust) == Bump(Patch(f, offset + 24, Enc32(pt')), offset + 28, k - 1, adjust)
  {
    assert pt' % WORD == pt';
  }

  /** Corrected pointers say that the names stand elsewhere in the heap, and nothing else changes. */
  lemma {:induction false} BumpEntries(f: seq<byte>, offset: nat, es: seq<DirEntry>, pt: nat, adjust: int, pt': nat)
    requires AllOk(es) && pt + |Names(es)| < WORD && pt' == pt + adjust && pt' + |Names(es)| < WORD
    requires At(f, offset, Entries(es, pt))
    ensures offset + 28 * |es| <= |f|
    ensures Bump(f, offset, |es|, adjust) == Patch(f, offset, Entries(es, pt'))
    decreases |es|
  {
    hide At, DirEntry.Ok, Names, Fields, DirEntry.Slot, Entries, Enc32, U32, AllOk, Patch, Bump;
    AtTaken(f, offset, Entries(es, pt));
    if es == [] {
      NoEntries(es, pt');
      NoBump(f, offset, adjust);
    } else {
      var x, r := es[0], es[1..];
      var q, q' := pt + |x.Slot()|, pt' + |x.Slot()|;
      EntriesCons(es, pt);
      EntriesCons(es, pt');
      AtJoin(f, offset, Entry(x, pt), Entries(r, q));
      WordsOfEntry(f, offset, x, pt);
      BumpOne(f, offset, |es|, adjust, pt');
      AtKept(f, offset + 24, Enc32(pt'), offset + 28, Entries(r, q));
      BumpEntries(Patch(f, offset + 24, Enc32(pt')), offset + 28, r, q, adjust, q');
      AtJoin(f, offset, Fields(x), Enc32(pt));
      AtTaken(f, offset, Fields(x));
      PatchTwice(f, offset, Fields(x), Enc32(pt'), Entries(r, q'));
    }
  }

  lemma NoBump(f: seq<byte>, offset: nat, adjust: int)
    requires offset <= |f|
    ensures Bump(f, offset, 0, adjust) == Patch(f, offset, [])
  {
    assert Patch(f, offset, []) == f;
  }

  lemma PatchTwice(f: seq<byte>, p: nat, a: seq<byte>, b: seq<byte>, c: seq<byte>)
    requires p + |a| + |b| + |c| <= |f| && f[p..p + |a|] == a
    ensures Patch(Patch(f, p + |a|, b), p + |a| + |b|, c) == Patch(f, p, a + b + c)
  {
    var l, r := Patch(Patch(f, p + |a|, b), p + |a| + |b|, c), Patch(f, p, a + b + c);
    forall i | 0 <= i < |f|
      ensures l[i] == r[i]
    {
      if p <= i < p + |a| {
        assert f[p..p + |a|][i - p] == a[i - p];
      }
    }
  }

  /** AdjustNameHeap stays inside the buffer. */
  ghost predicate AdjustOk(f: seq<byte>, offset: nat, pt: nat, heap: nat, names: nat, k: nat, adjust: int) {
    && 24 <= |f| && offset + 28 * k <= |f|
    && 0 <= Whole(names) + adjust < WORD
    && (k > 0 ==> pt <= names && heap + names <= |f| && 0 <= heap + pt + adjust && heap + names + adjust <= |f|)
  }

  /** What AdjustNameHeap makes of the bytes. */
  ghost function Adjusted(f: seq<byte>, offset: nat, pt: nat, heap: nat, names: nat, k: nat, adjust: int): (r: seq<byte>)
    requires AdjustOk(f, offset, pt, heap, names, k, adjust)
    ensures |r| == |f|
  {
    var g := if k > 0 then Patch(f, heap + pt + adjust, f[heap + pt..heap + pt + (names - pt)]) else f;
    Bump(Patch(g, 20, Enc32(Whole(names) + adjust)), offset, k, adjust)
  }
}
