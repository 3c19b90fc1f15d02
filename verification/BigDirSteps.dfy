/** What each memory move of AddEntry and RemoveEntry makes of the pieces of a cut directory. */
module BigDirSteps {
  import opened BigDirLayout
  import opened BigDirParts
  import opened Regions
  import opened Words

  lemma EmptyAt(f: seq<byte>, q: nat)
    requires q <= |f|
    ensures At(f, q, [])
  {
  }

  lemma MoveN2(f: seq<byte>, v: Parts, b: seq<DirEntry>, q: nat)
    requires v.Sits(f) && v.n2.bytes == Names(b) && v.n1.End() <= q && q + |Names(b)| <= v.s1.at
    ensures v.n2.End() <= |f| && q + |Names(b)| <= |f|
    ensures v.(n2 := Part(q, Names(b))).Sits(if |b| > 0 then Patch(f, q, f[v.n2.at..v.n2.End()]) else f)
  {
    hide Patch, At;
    AtTaken(f, v.n2.at, Names(b));
    AtTaken(f, v.tail.at, v.tail.bytes);
    if |b| > 0 {
      PutN2(f, v, q, Names(b));
    } else {
      assert Names(b) == [] && At(f, q, []) by { EmptyAt(f, q); }
    }
  }

  /** AdjustNameHeap on the pieces: b's names move, b's pointers and the heap size are corrected. */
  lemma AdjustParts(f: seq<byte>, v: Parts, b: seq<DirEntry>, pt: nat, adjust: int, heap: nat, names: nat, pt': nat)
    requires v.Sits(f) && AllOk(b) && pt + |Names(b)| == names < WORD && names % 4 == 0
    requires pt' == pt + adjust && pt' + |Names(b)| < WORD
    requires v.e2.bytes == Entries(b, pt) && v.n2 == Part(heap + pt, Names(b))
    requires v.n1.End() <= heap + pt' && heap + pt' + |Names(b)| <= v.s1.at
    ensures AdjustOk(f, v.e2.at, pt, heap, names, |b|, adjust)
    ensures v.(names := Part(20, Enc32(pt' + |Names(b)|)), n2 := Part(heap + pt', Names(b)), e2 := Part(v.e2.at, Entries(b, pt')))
             .Sits(Adjusted(f, v.e2.at, pt, heap, names, |b|, adjust))
  {
    hide At, Names, Entries, AllOk, Bump, Enc32, Patch;
    AtTaken(f, v.e2.at, v.e2.bytes);
    var q := heap + pt';
    MoveN2(f, v, b, q);
    var g := if |b| > 0 then Patch(f, q, f[v.n2.at..v.n2.End()]) else f;
    var v1, w := v.(n2 := Part(q, Names(b))), Enc32(pt' + |Names(b)|);
    PutNamesSize(g, v1, w);
    var h, v2 := Patch(g, 20, w), v1.(names := Part(20, w));
    BumpEntries(h, v.e2.at, b, pt, adjust, pt');
    PutE2(h, v2, v.e2.at, Entries(b, pt'));
    assert Whole(names) == names;
  }

  lemma ViewSits(f: seq<byte>, c: Cut)
    requires c.Ok() && c.View().In(f)
    ensures c.View().Sits(f) && c.size <= |f|
  {
    hide Names, Entries, Sins, AllOk, Enc32, At;
    AtTaken(f, c.size - 8, c.sh.tail);
  }

  // ----- AddEntry: a gap for x opens in each table

  /** There is room for one more entry with a name slot of k bytes. */
  ghost predicate Room(c: Cut, k: nat) {
    c.Heap() + 28 + c.NamesSize() + k <= c.Backups() - 4
  }

  /** The names have moved up by one entry. */
  ghost function Raised(c: Cut): (v: Parts)
    requires c.Ok()
  {
    c.View().(n1 := Part(c.Heap() + 28, Names(c.a)), n2 := Part(c.Heap() + 28 + c.Pt(), Names(c.b)))
  }

  lemma RaiseNames(f: seq<byte>, c: Cut, k: nat, dst: nat, src: nat, n: nat)
    requires c.Ok() && c.mid == [] && Room(c, k) && c.View().In(f)
    requires dst == c.Heap() + 28 && src == c.Heap() && n == c.NamesSize()
    ensures dst + n <= |f| && src + n <= |f|
    ensures Raised(c).Sits(Patch(f, dst, f[src..src + n]))
  {
    hide Names, Entries, Sins, AllOk, Enc32, At, Patch;
    ViewSits(f, c);
    assert Names(c.mid) == [] by { NoNames(c.mid); }
    PutNames(f, c.View(), c.Heap() + 28);
  }

  lemma NoNames(es: seq<DirEntry>)
    requires es == []
    ensures Names(es) == []
  {
  }

  /** The new last entry's name pointer is written early, into the gap. */
  lemma EarlyPointer(f: seq<byte>, c: Cut, w: seq<byte>)
    requires c.Ok() && c.mid == [] && c.b == [] && |w| == 4 && Raised(c).Sits(f)
    ensures c.Heap() + 28 <= |f| && Raised(c).Sits(Patch(f, c.Heap() + 24, w))
  {
    hide Names, Entries, Sins, AllOk, Enc32, At, Patch;
    AtTaken(f, c.Heap() + 28, Names(c.a));
    GapWrite(f, Raised(c), c.Heap() + 24, w);
  }

  lemma LowerBackups(f: seq<byte>, c: Cut, k: nat, dst: nat, src: nat, n: nat)
    requires c.Ok() && c.mid == [] && Room(c, k) && Raised(c).Sits(f)
    requires dst == c.Backups() - 4 && src == c.Backups() && n == 4 * |c.a|
    ensures dst + n <= |f| && src + n <= |f|
    ensures Raised(c).(s1 := Part(c.Backups() - 4, Sins(c.a)))
             .Sits(Patch(f, dst, f[src..src + n]))
  {
    hide Names, Entries, Sins, AllOk, Enc32, At, Patch;
    assert Names(c.mid) == [] by { NoNames(c.mid); }
    AtTaken(f, c.size - 8, c.sh.tail);
    AtTaken(f, c.Backups(), Sins(c.a));
    PutS1(f, Raised(c), c.Backups() - 4, Sins(c.a));
  }

  /** The whole tables are still there to search. */
  lemma RaisedTables(f: seq<byte>, c: Cut)
    requires c.Ok() && c.mid == [] && Raised(c).Sits(f)
    ensures AllOk(c.List()) && |Names(c.List())| == c.NamesSize() < WORD
    ensures At(f, c.sh.First(), Entries(c.List(), 0)) && At(f, c.Heap() + 28, Names(c.List()))
  {
    hide Enc32, AllOk, Shell.Ok, Shell.First, DirEntry.Ok, Entry, DirEntry.Slot, At, Cut.List;
    CutOk(c);
    EntriesCut(f, c);
    NamesCut(f, c.Heap() + 28, c);
    AtTaken(f, c.sh.First(), Entries(c.a, 0));
    AtTaken(f, c.Heap() + 28, Names(c.a));
    EmptyAt(f, c.sh.First() + 28 * |c.a|);
    EmptyAt(f, c.Heap() + 28 + |Names(c.a)|);
  }

  /** The name pointer that AdjustNameHeap reads. */
  lemma PointerOf(f: seq<byte>, at: nat, b: seq<DirEntry>, pt: nat)
    requires AllOk(b) && b != [] && pt + |Names(b)| < WORD && At(f, at, Entries(b, pt))
    ensures at + 28 <= |f| && U32(f, at + 24) == pt
  {
    hide At, Entries, Names, U32, DirEntry.Ok, Entry, DirEntry.Slot;
    EntriesCons(b, pt);
    AtJoin(f, at, Entry(b[0], pt), Entries(b[1..], pt + |b[0].Slot()|));
    WordsOfEntry(f, at, b[0], pt);
  }

  /** With no entries behind the cut the pointer does not matter. */
  lemma AdjustedAtEnd(f: seq<byte>, offset: nat, pt: nat, pt': nat, heap: nat, names: nat, adjust: int)
    requires AdjustOk(f, offset, pt, heap, names, 0, adjust)
    ensures AdjustOk(f, offset, pt', heap, names, 0, adjust)
    ensures Adjusted(f, offset, pt, heap, names, 0, adjust) == Adjusted(f, offset, pt', heap, names, 0, adjust)
  {
  }

  /** Where the new name goes: behind the names of a, which is the end of the heap when b is empty. */
  lemma PlaceOfName(c: Cut)
    requires c.Ok() && c.mid == []
    ensures c.Pt() == |Names(c.a)| && (c.b == [] ==> Whole(c.NamesSize()) == c.Pt())
  {
    hide DirEntry.Ok, DirEntry.Slot, Shell.Ok, SizeOk;
    NamesWhole(c.a);
  }

  /** AdjustNameHeap finds the pointer of the first entry of b, or needs none. */
  lemma PointerRead(f: seq<byte>, c: Cut, slot: nat, at: nat, pt: nat, heap: nat, names: nat)
    requires c.Ok() && c.mid == [] && Room(c, slot)
    requires Raised(c).(s1 := Part(c.Backups() - 4, Sins(c.a))).Sits(f)
    requires at == c.sh.First() + 28 * |c.a| && pt == c.Pt() && heap == c.Heap() + 28 && names == c.NamesSize()
    requires AdjustOk(f, at, pt, heap, names, |c.b|, slot)
    ensures at + 28 <= |f|
    ensures var p := U32(f, at + 24);
            && AdjustOk(f, at, p, heap, names, |c.b|, slot)
            && Adjusted(f, at, p, heap, names, |c.b|, slot) == Adjusted(f, at, pt, heap, names, |c.b|, slot)
  {
    hide At, Entries, Names, Sins, U32, Enc32, AllOk, Shell.Ok, Adjusted, AdjustOk;
    AtTaken(f, heap, Names(c.a));
    if c.b == [] {
      AdjustedAtEnd(f, at, pt, U32(f, at + 24), heap, names, slot);
    } else {
      PointerOf(f, at, c.b, pt);
    }
  }

  /** The cut with the new entry in the middle. */
  ghost function With(c: Cut, x: DirEntry): Cut {
    c.(mid := [x])
  }

  lemma WithOk(c: Cut, x: DirEntry)
    requires c.Ok() && c.mid == [] && x.Ok() && Room(c, |x.Slot()|)
    ensures With(c, x).Ok()
    ensures With(c, x).N() == c.N() + 1 && With(c, x).Heap() == c.Heap() + 28 && With(c, x).Backups() == c.Backups() - 4
    ensures c.Pt() == |Names(c.a)| && With(c, x).Pt() == c.Pt() + |x.Slot()|
    ensures c.NamesSize() == c.Pt() + |Names(c.b)| && With(c, x).NamesSize() == c.NamesSize() + |x.Slot()|
    ensures c.NamesSize() % 4 == 0 && With(c, x).NamesSize() % 4 == 0 && c.size < WORD
    ensures Names(With(c, x).mid) == x.Slot()
  {
    hide Entries, Sins, Enc32, DirEntry.Ok, DirEntry.Slot, Shell.Ok;
    assert Names([x]) == x.Slot() + Names([x][1..]);
    NamesWhole(c.a);
    NamesWhole(c.b);
    NamesWhole([x]);
  }

  /** The pieces while AddEntry works: gaps among the backups and the names, none yet among the entries. */
  ghost function Spread(c: Cut, x: DirEntry): (v: Parts)
    requires c.Ok() && With(c, x).Ok()
  {
    With(c, x).View().(count := c.View().count, e2 := Part(c.sh.First() + 28 * |c.a|, Entries(c.b, With(c, x).Pt())))
  }

  lemma CountFits(c: Cut)
    requires c.Ok()
    ensures c.N() < WORD
  {
  }

  /** AdjustNameHeap opens the gap in the name heap. */
  lemma SpreadNames(f: seq<byte>, c: Cut, x: DirEntry, slot: nat, at: nat, pt: nat, heap: nat, names: nat)
    requires c.Ok() && c.mid == [] && x.Ok() && slot == |x.Slot()| && Room(c, slot) && With(c, x).Ok()
    requires Raised(c).(s1 := Part(c.Backups() - 4, Sins(c.a))).Sits(f)
    requires at == c.sh.First() + 28 * |c.a| && pt == c.Pt() && heap == c.Heap() + 28 && names == c.NamesSize()
    ensures AdjustOk(f, at, pt, heap, names, |c.b|, slot)
    ensures Spread(c, x).Sits(Adjusted(f, at, pt, heap, names, |c.b|, slot))
  {
    hide Entries, Sins, Enc32, DirEntry.Ok, DirEntry.Slot, Shell.Ok, Names, AllOk, Adjusted, AdjustOk,
         Cut.N, Cut.Pt, Cut.Heap, Cut.NamesSize, Cut.Backups, Part.In;
    WithOk(c, x);
    var v := Raised(c).(s1 := Part(c.Backups() - 4, Sins(c.a)));
    AdjustParts(f, v, c.b, pt, slot, heap, names, With(c, x).Pt());
  }

  lemma SpreadEntries(f: seq<byte>, c: Cut, x: DirEntry, dst: nat, src: nat, n: nat)
    requires c.Ok() && c.mid == [] && x.Ok() && Room(c, |x.Slot()|) && With(c, x).Ok()
    requires Spread(c, x).Sits(f)
    requires dst == c.sh.First() + 28 * |c.a| + 28 && src == c.sh.First() + 28 * |c.a| && n == 28 * |c.b|
    ensures dst + n <= |f| && src + n <= |f|
    ensures With(c, x).View().(count := c.View().count)
             .Sits(Patch(f, dst, f[src..src + n]))
  {
    hide Entries, Sins, Enc32, DirEntry.Ok, DirEntry.Slot, Shell.Ok, Names, AllOk, Patch, Cut.Pt, Cut.NamesSize, Cut.Backups, At;
    var d, q := With(c, x), c.sh.First() + 28 * |c.a|;
    var v := Spread(c, x);
    AtTaken(f, q, v.e2.bytes);
    PutE2(f, v, q + 28, v.e2.bytes);
  }

  lemma CountUp(f: seq<byte>, c: Cut, x: DirEntry)
    requires c.Ok() && c.mid == [] && x.Ok() && Room(c, |x.Slot()|) && With(c, x).Ok()
    requires With(c, x).View().(count := c.View().count).Sits(f)
    ensures 24 <= |f| && With(c, x).View().Sits(Patch(f, 16, Enc32(c.N() + 1)))
  {
    hide Entries, Sins, Enc32, DirEntry.Ok, DirEntry.Slot, Shell.Ok, Names, AllOk, Patch, Cut.Pt, Cut.NamesSize, Cut.Backups, At;
    PutCount(f, With(c, x).View().(count := c.View().count), Enc32(c.N() + 1));
  }

  /** The new entry's pieces are written into the gaps: its name, its entry, its backup address. */
  lemma FillGaps(f: seq<byte>, d: Cut, x: DirEntry)
    requires d.Ok() && d.mid == [x] && d.View().Sits(f) && Names(d.mid) == x.Slot()
    ensures x.Ok() && d.size <= |f| && |Names(d.a)| < WORD
    ensures d.Heap() + |Names(d.a)| + |x.Slot()| <= d.size && 0 <= d.Backups()
    ensures var g := Patch(Patch(Patch(f, d.Heap() + |Names(d.a)|, x.Slot()),
                                 d.sh.First() + 28 * |d.a|, Entry(x, |Names(d.a)|)),
                           d.Backups() + 4 * |d.a|, Enc32(x.sin));
            d.View().In(g) && d.MidIn(g)
  {
    hide Entries, Sins, Enc32, DirEntry.Slot, Shell.Ok, Names, AllOk, Patch, Entry, At, DirEntry.Ok;
    var h, e, s := d.Heap() + |Names(d.a)|, d.sh.First() + 28 * |d.a|, d.Backups() + 4 * |d.a|;
    var v := d.View();
    ViewSits(f, d);
    SingleTables(x, d);
    var f1 := Patch(f, h, x.Slot());
    GapWrite(f, v, h, x.Slot());
    AtWritten(f, h, x.Slot());
    var f2 := Patch(f1, e, Entry(x, |Names(d.a)|));
    GapWrite(f1, v, e, Entry(x, |Names(d.a)|));
    AtKept(f1, e, Entry(x, |Names(d.a)|), h, x.Slot());
    AtWritten(f1, e, Entry(x, |Names(d.a)|));
    GapWrite(f2, v, s, Enc32(x.sin));
    AtKept(f2, s, Enc32(x.sin), h, x.Slot());
    AtKept(f2, s, Enc32(x.sin), e, Entry(x, |Names(d.a)|));
    AtWritten(f2, s, Enc32(x.sin));
  }

  lemma SingleTables(x: DirEntry, d: Cut)
    requires d.Ok() && d.mid == [x] && Names(d.mid) == x.Slot()
    ensures x.Ok() && x.sin < WORD && Sins(d.mid) == Enc32(x.sin)
    ensures Entries(d.mid, |Names(d.a)|) == Entry(x, |Names(d.a)|)
  {
    hide Entry, DirEntry.Slot, Enc32, Shell.Ok;
    assert d.mid[0].Ok();
    assert d.mid[1..] == [];
  }

  // ----- RemoveEntry: the gap left by x closes

  ghost function Without(d: Cut): Cut {
    d.(mid := [])
  }

  lemma WithoutOk(d: Cut, x: DirEntry)
    requires d.Ok() && d.mid == [x]
    ensures Without(d).Ok() && With(Without(d), x) == d && x.Ok() && Room(Without(d), |x.Slot()|)
  {
    hide Entries, Sins, Enc32, DirEntry.Ok, DirEntry.Slot, Shell.Ok;
    assert d.mid[0].Ok();
    assert Names([x]) == x.Slot() + Names([x][1..]);
  }

  /** The pieces while RemoveEntry works: the name heap is shut, the entries still spread. */
  ghost function Shut(d: Cut): (v: Parts)
    requires d.Ok() && Without(d).Ok()
  {
    d.View().(names := Without(d).View().names, n2 := Part(d.Heap() + Without(d).Pt(), Names(d.b)),
              e2 := Part(d.sh.First() + 28 * (|d.a| + 1), Entries(d.b, Without(d).Pt())))
  }

  lemma ShutNames(f: seq<byte>, d: Cut, x: DirEntry)
    requires d.Ok() && d.mid == [x] && Without(d).Ok() && d.View().In(f)
    ensures AdjustOk(f, d.sh.First() + 28 * (|d.a| + 1), d.Pt(), d.Heap(), d.NamesSize(), |d.b|, -|x.Slot()|)
    ensures Shut(d).Sits(Adjusted(f, d.sh.First() + 28 * (|d.a| + 1), d.Pt(), d.Heap(), d.NamesSize(), |d.b|, -|x.Slot()|))
  {
    hide Entries, Sins, Enc32, DirEntry.Ok, DirEntry.Slot, Shell.Ok, Names, AllOk, Adjusted, AdjustOk,
         Cut.N, Cut.Pt, Cut.Heap, Cut.NamesSize, Cut.Backups, Part.In;
    var c := Without(d);
    WithoutOk(d, x);
    WithOk(c, x);
    ViewSits(f, d);
    AdjustParts(f, d.View(), d.b, d.Pt(), -|x.Slot()|, d.Heap(), d.NamesSize(), c.Pt());
  }

  lemma CountDown(f: seq<byte>, d: Cut, x: DirEntry)
    requires d.Ok() && d.mid == [x] && Without(d).Ok() && Shut(d).Sits(f)
    ensures 24 <= |f| && Shut(d).(count := Without(d).View().count).Sits(Patch(f, 16, Enc32(d.N() - 1)))
  {
    hide Entries, Sins, Enc32, Shell.Ok, Names, AllOk, Patch, Cut.Pt, Cut.NamesSize, At;
    PutCount(f, Shut(d), Enc32(d.N() - 1));
  }

  lemma ShutEntries(f: seq<byte>, d: Cut, x: DirEntry, dst: nat, src: nat, n: nat)
    requires d.Ok() && d.mid == [x] && Without(d).Ok() && Shut(d).(count := Without(d).View().count).Sits(f)
    requires dst == d.sh.First() + 28 * |d.a| && src == d.sh.First() + 28 * (|d.a| + 1) && n == 28 * |d.b|
    ensures dst + n <= |f| && src + n <= |f|
    ensures Shut(d).(count := Without(d).View().count, e2 := Without(d).View().e2)
             .Sits(Patch(f, dst, f[src..src + n]))
  {
    hide Entries, Sins, Enc32, Shell.Ok, Names, AllOk, Patch, Cut.Pt, Cut.NamesSize, At;
    var v := Shut(d).(count := Without(d).View().count);
    AtTaken(f, v.e2.at, v.e2.bytes);
    PutE2(f, v, d.sh.First() + 28 * |d.a|, v.e2.bytes);
  }

  lemma DropNames(f: seq<byte>, d: Cut, x: DirEntry, dst: int, src: nat, n: nat)
    requires d.Ok() && d.mid == [x] && Without(d).Ok()
    requires Shut(d).(count := Without(d).View().count, e2 := Without(d).View().e2).Sits(f)
    requires dst == d.Heap() - 28 && src == d.Heap() && n == Without(d).NamesSize()
    ensures 0 <= dst && dst + n <= |f| && src + n <= |f|
    ensures Without(d).View().(s1 := d.View().s1)
             .Sits(Patch(f, dst, f[src..src + n]))
  {
    hide Entries, Sins, Enc32, Shell.Ok, Names, AllOk, Patch, At;
    var v := Shut(d).(count := Without(d).View().count, e2 := Without(d).View().e2);
    assert Names(Without(d).mid) == [] by { NoNames(Without(d).mid); }
    PutNames(f, v, d.Heap() - 28);
  }

  lemma RaiseBackups(f: seq<byte>, d: Cut, x: DirEntry, dst: nat, src: nat, n: nat)
    requires d.Ok() && d.mid == [x] && Without(d).Ok() && Without(d).View().(s1 := d.View().s1).Sits(f)
    requires dst == d.Backups() + 4 && src == d.Backups() && n == 4 * |d.a|
    ensures dst + n <= |f| && src + n <= |f|
    ensures Without(d).View().Sits(Patch(f, dst, f[src..src + n]))
  {
    hide Entries, Sins, Enc32, Names, AllOk, Patch, At, Cut.Pt, Cut.NamesSize;
    var v := Without(d).View().(s1 := d.View().s1);
    AtTaken(f, d.size - 8, d.sh.tail);
    AtTaken(f, d.Backups(), Sins(d.a));
    assert v.n2.End() <= v.s1.at;
    PutS1(f, v, d.Backups() + 4, Sins(d.a));
  }

  lemma NothingBetween(f: seq<byte>, c: Cut)
    requires c.Ok() && c.mid == [] && c.View().Sits(f)
    ensures c.MidIn(f)
  {
    hide Enc32, AllOk, Shell.Ok;
    EmptyAt(f, c.sh.First() + 28 * |c.a|);
    EmptyAt(f, c.Heap() + |Names(c.a)|);
    EmptyAt(f, c.Backups() + 4 * |c.a|);
  }

  /** Even for the last entry AdjustNameHeap reads a word inside the directory. */
  lemma ReadInside(size: nat, sh: Shell, es: seq<DirEntry>)
    requires SizeOk(size) && sh.Ok() && AllOk(es) && Fits(size, sh, es)
    ensures HeapAt(sh, |es|) + 28 <= size
  {
    hide Names, AllOk;
    NamesWhole(es);
  }

  lemma PointerReadShut(f: seq<byte>, d: Cut, k: int)
    requires d.Ok() && d.View().In(f)
    requires AdjustOk(f, d.sh.First() + 28 * (|d.a| + |d.mid|), d.Pt(), d.Heap(), d.NamesSize(), |d.b|, k)
    ensures d.sh.First() + 28 * (|d.a| + |d.mid|) + 28 <= |f|
    ensures var p := U32(f, d.sh.First() + 28 * (|d.a| + |d.mid|) + 24);
            && AdjustOk(f, d.sh.First() + 28 * (|d.a| + |d.mid|), p, d.Heap(), d.NamesSize(), |d.b|, k)
            && Adjusted(f, d.sh.First() + 28 * (|d.a| + |d.mid|), p, d.Heap(), d.NamesSize(), |d.b|, k)
               == Adjusted(f, d.sh.First() + 28 * (|d.a| + |d.mid|), d.Pt(), d.Heap(), d.NamesSize(), |d.b|, k)
  {
    hide At, Entries, Names, Sins, U32, Enc32, AllOk, Shell.Ok, Adjusted, AdjustOk;
    var at := d.sh.First() + 28 * (|d.a| + |d.mid|);
    ViewSits(f, d);
    if d.b == [] {
      CutOk(d);
      ReadInside(d.size, d.sh, d.List());
      AdjustedAtEnd(f, at, d.Pt(), U32(f, at + 24), d.Heap(), d.NamesSize(), k);
    } else {
      PointerOf(f, at, d.b, d.Pt());
    }
  }

  // ----- Another size: the end of the directory moves

  lemma Resize(f: seq<byte>, size: nat, sh: Shell, es: seq<DirEntry>, size': nat)
    requires Image(f, size, sh, es) && SizeOk(size') && size' <= |f| && Fits(size', sh, es)
    ensures size <= |f| && 0 <= BackupsAt(size, |es|) && 0 <= BackupsAt(size', |es|) && size' < WORD
    ensures Image(Patch(Patch(f, BackupsAt(size', |es|), f[BackupsAt(size, |es|)..size]), 12, Enc32(size')), size', sh, es)
  {
    hide Image, Entries, Sins, Enc32, Names, AllOk, Patch, At, Shell.Ok, Part.In, SizeOk;
    var c := Cut(size, sh, es, [], []);
    assert c.List() == es;
    ImageCut(f, c);
    var c' := c.(size := size');
    CutOk(c');
    CutOk(c);
    ViewSits(f, c);
    EndTogether(c);
    EndTogether(c');
    var q := c'.Backups();
    PutEnd(f, c.View(), q);
    var g := Patch(f, q, f[c.Backups()..size]);
    var v := c.View().(s1 := c'.View().s1, s2 := c'.View().s2, tail := c'.View().tail);
    assert v.Sits(g);
    PutSize(g, v, Enc32(size'));
    var h := Patch(g, 12, Enc32(size'));
    assert c'.View().Sits(h);
    NothingBetween(h, c');
    ImageCut(h, c');
  }

  lemma EndTogether(c: Cut)
    requires c.Ok() && c.mid == [] && c.b == []
    ensures c.View().s2.at == c.View().s1.End() && c.View().tail.at == c.View().s2.End() && c.View().tail.End() == c.size
    ensures c.View().s1.at == c.Backups() && c.View().n2.End() == c.Heap() + c.NamesSize()
    ensures c.View().s2.bytes == [] && |c.View().s1.bytes| == 4 * |c.a| && c.size < WORD
  {
  }
}
