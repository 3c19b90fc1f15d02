/** The bytes of a FileCore big directory: entries, name heap, backup disc addresses. */
module BigDirLayout {
  import opened Collation
  import opened Regions
  import opened Words

  const NAME_AT: nat := 28      // the directory's own name
  const CR: byte := 0x0D

  /** The size rounded up to whole words. */
  function Whole(n: nat): (w: nat)
    ensures n <= w < n + 4 && w % 4 == 0
  {
    (n + 3) / 4 * 4
  }

  function Zeros(n: nat): (z: seq<byte>)
    ensures |z| == n
  {
    seq(n, _ => 0)
  }

  /** A directory entry and its slot of the name heap: the name, a CR and the rest of the last word. */
  datatype DirEntry = DirEntry(load: nat, exec: nat, len: nat, sin: nat, attr: nat,
                               name: Name, pad: seq<byte>) {
    ghost predicate Ok() {
      && load < WORD && exec < WORD && len < WORD && sin < WORD && attr < WORD
      && |name| <= 255 && |name| + |pad| == Whole(|name| + 1) && pad[0] == CR
    }

    ghost function Slot(): seq<byte> {
      name + pad
    }
  }

  ghost predicate AllOk(es: seq<DirEntry>) {
    forall i :: 0 <= i < |es| ==> es[i].Ok()
  }

  lemma AllOkAppend(a: seq<DirEntry>, b: seq<DirEntry>)
    ensures AllOk(a + b) <==> AllOk(a) && AllOk(b)
  {
    hide DirEntry.Ok;
    var es := a + b;
    assert AllOk(es) ==> AllOk(a) by {
      assert forall i :: 0 <= i < |a| ==> a[i] == es[i];
    }
    assert AllOk(es) ==> AllOk(b) by {
      assert forall i :: 0 <= i < |b| ==> b[i] == es[|a| + i];
    }
  }

  /** What GetS makes of a name: it stops at the first space or control character. */
  function Shown(s: Name): (r: Name)
    ensures |r| <= |s|
    ensures forall c :: c in r ==> c > 0x20
  {
    if s == [] || s[0] <= 0x20 then [] else [s[0]] + Shown(s[1..])
  }

  ghost predicate Printable(s: Name) {
    forall i :: 0 <= i < |s| ==> s[i] > 0x20
  }

  lemma {:induction false} ShownWhole(s: Name)
    ensures Shown(s) == s <==> Printable(s)
  {
    if s != [] {
      ShownWhole(s[1..]);
      assert s == [s[0]] + s[1..];
      assert s[0] > 0x20 ==> (Printable(s) <==> Printable(s[1..]));
    }
  }

  // ----- The three tables

  ghost function Names(es: seq<DirEntry>): (r: seq<byte>) {
    if es == [] then [] else es[0].Slot() + Names(es[1..])
  }

  /** The first six words of an entry. */
  ghost function Fields(x: DirEntry): (r: seq<byte>)
    requires x.Ok()
    ensures |r| == 24
  {
    Enc32(x.load) + Enc32(x.exec) + Enc32(x.len) + Enc32(x.sin) + Enc32(x.attr) + Enc32(|x.name|)
  }

  ghost function Entry(x: DirEntry, pt: nat): (r: seq<byte>)
    requires x.Ok() && pt < WORD
    ensures |r| == 28
  {
    Fields(x) + Enc32(pt)
  }

  /** The entries, the first one's name standing pt bytes into the name heap. */
  ghost function Entries(es: seq<DirEntry>, pt: nat): (r: seq<byte>)
    requires AllOk(es) && pt + |Names(es)| < WORD
    ensures |r| == 28 * |es|
  {
    if es == [] then [] else Entry(es[0], pt) + Entries(es[1..], pt + |es[0].Slot()|)
  }

  ghost function Sins(es: seq<DirEntry>): (r: seq<byte>)
    requires AllOk(es)
    ensures |r| == 4 * |es|
  {
    if es == [] then [] else Enc32(es[0].sin) + Sins(es[1..])
  }

  lemma {:induction false} NamesAppend(a: seq<DirEntry>, b: seq<DirEntry>)
    ensures Names(a + b) == Names(a) + Names(b)
  {
    if a == [] {
      assert a + b == b;
    } else {
      assert (a + b)[1..] == a[1..] + b;
      NamesAppend(a[1..], b);
    }
  }

  lemma {:induction false} SinsAppend(a: seq<DirEntry>, b: seq<DirEntry>)
    requires AllOk(a) && AllOk(b)
    ensures Sins(a + b) == Sins(a) + Sins(b)
  {
    if a == [] {
      assert a + b == b;
    } else {
      assert (a + b)[1..] == a[1..] + b;
      SinsAppend(a[1..], b);
    }
  }

  lemma EntriesCons(es: seq<DirEntry>, pt: nat)
    requires es != [] && AllOk(es) && pt + |Names(es)| < WORD
    ensures AllOk(es[1..]) && |Names(es)| == |es[0].Slot()| + |Names(es[1..])| && es[0].Ok()
    ensures Entries(es, pt) == Entry(es[0], pt) + Entries(es[1..], pt + |es[0].Slot()|)
  {
    hide DirEntry.Slot, Entry, DirEntry.Ok;
  }

  lemma {:induction false} EntriesAppend(a: seq<DirEntry>, b: seq<DirEntry>, pt: nat)
    requires AllOk(a) && AllOk(b) && pt + |Names(a)| + |Names(b)| < WORD
    ensures |Names(a + b)| == |Names(a)| + |Names(b)|
    ensures Entries(a + b, pt) == Entries(a, pt) + Entries(b, pt + |Names(a)|)
  {
    hide Entries, Names, Entry, DirEntry.Ok, DirEntry.Slot;
    NamesAppend(a, b);
    if a == [] {
      assert a + b == b && Names(a) == [] && Entries(a, pt) == [] by { NoEntries(a, pt); }
    } else {
      assert (a + b)[1..] == a[1..] + b && (a + b)[0] == a[0];
      EntriesCons(a, pt);
      EntriesCons(a + b, pt);
      EntriesAppend(a[1..], b, pt + |a[0].Slot()|);
    }
  }

  lemma NoEntries(es: seq<DirEntry>, pt: nat)
    requires es == [] && pt < WORD
    ensures Names(es) == [] && Entries(es, pt) == []
  {
  }

  /** Every slot is a whole number of words, one at least. */
  lemma {:induction false} NamesWhole(es: seq<DirEntry>)
    requires AllOk(es)
    ensures |Names(es)| % 4 == 0 && 4 * |es| <= |Names(es)|
  {
    if es != [] {
      assert es[0].Ok();
      NamesWhole(es[1..]);
    }
  }

  lemma SplitThree(es: seq<DirEntry>, i: nat)
    requires i < |es|
    ensures es == es[..i] + ([es[i]] + es[i + 1..])
  {
  }

  // ----- Reading one entry back

  /** Entry i stands at 28 * i, its name pointer is the length of the slots before it. */
  lemma EntryAt(f: seq<byte>, at: nat, es: seq<DirEntry>, i: nat)
    requires AllOk(es) && |Names(es)| < WORD && i < |es|
    requires At(f, at, Entries(es, 0))
    ensures |Names(es[..i])| < WORD
    ensures At(f, at + 28 * i, Entry(es[i], |Names(es[..i])|))
  {
    hide At, Entry, DirEntry.Ok, DirEntry.Slot;
    var a, x, b := es[..i], es[i], es[i + 1..];
    SplitThree(es, i);
    NamesAppend(a, [x] + b);
    EntriesAppend(a, [x] + b, 0);
    var p := |Names(a)|;
    AtJoin(f, at, Entries(a, 0), Entries([x] + b, p));
    assert Names([x] + b) == x.Slot() + Names(b) && ([x] + b)[1..] == b;
    assert Entries([x] + b, p) == Entry(x, p) + Entries(b, p + |x.Slot()|);
    AtJoin(f, at + 28 * i, Entry(x, p), Entries(b, p + |x.Slot()|));
  }

  lemma WordsOfEntry(f: seq<byte>, at: nat, x: DirEntry, pt: nat)
    requires x.Ok() && pt < WORD && At(f, at, Entry(x, pt))
    ensures at + 28 <= |f|
    ensures U32(f, at) == x.load && U32(f, at + 4) == x.exec && U32(f, at + 8) == x.len
    ensures U32(f, at + 12) == x.sin && U32(f, at + 16) == x.attr
    ensures U32(f, at + 20) == |x.name| && U32(f, at + 24) == pt
  {
    hide At;
    var a, b, c, d, e, n := Enc32(x.load), Enc32(x.exec), Enc32(x.len), Enc32(x.sin), Enc32(x.attr), Enc32(|x.name|);
    AtTaken(f, at, Entry(x, pt));
    AtJoin(f, at, Fields(x), Enc32(pt));
    AtJoin(f, at, a + b + c + d + e, n);
    AtJoin(f, at, a + b + c + d, e);
    AtJoin(f, at, a + b + c, d);
    AtJoin(f, at, a + b, c);
    AtJoin(f, at, a, b);
    AtWord(f, at, x.load);
    AtWord(f, at + 4, x.exec);
    AtWord(f, at + 8, x.len);
    AtWord(f, at + 12, x.sin);
    AtWord(f, at + 16, x.attr);
    AtWord(f, at + 20, |x.name|);
    AtWord(f, at + 24, pt);
  }

  lemma NameAt(f: seq<byte>, heap: nat, es: seq<DirEntry>, i: nat)
    requires i < |es| && At(f, heap, Names(es))
    ensures At(f, heap + |Names(es[..i])|, es[i].Slot())
    ensures |Names(es[..i])| + |es[i].Slot()| <= |Names(es)|
  {
    hide At;
    var a, x, b := es[..i], es[i], es[i + 1..];
    SplitThree(es, i);
    NamesAppend(a, [x] + b);
    AtJoin(f, heap, Names(a), Names([x] + b));
    assert ([x] + b)[1..] == b;
    AtJoin(f, heap + |Names(a)|, x.Slot(), Names(b));
  }

  lemma {:induction false} SinAt(f: seq<byte>, at: nat, es: seq<DirEntry>, i: nat)
    requires AllOk(es) && i < |es| && At(f, at, Sins(es))
    ensures at + 4 * i + 4 <= |f| && U32(f, at + 4 * i) == es[i].sin
    decreases i
  {
    hide At;
    assert es[0].Ok();
    AtJoin(f, at, Enc32(es[0].sin), Sins(es[1..]));
    if i == 0 {
      AtWord(f, at, es[0].sin);
    } else {
      SinAt(f, at + 4, es[1..], i - 1);
    }
  }

  // ----- The bytes determine the list

  lemma FieldsInjective(x: DirEntry, y: DirEntry)
    requires x.Ok() && y.Ok() && Fields(x) == Fields(y)
    ensures x == y.(name := x.name, pad := x.pad) && |x.name| == |y.name| && |x.pad| == |y.pad|
  {
    var f := Entry(x, 0);
    assert f == Entry(y, 0);
    assert f[0..28] == f;
    WordsOfEntry(f, 0, x, 0);
    WordsOfEntry(f, 0, y, 0);
  }

  /** Two lists with the same tables are the same list. */
  lemma {:induction false} TablesInjective(es: seq<DirEntry>, es': seq<DirEntry>, pt: nat)
    requires AllOk(es) && AllOk(es') && pt + |Names(es)| < WORD
    requires Names(es) == Names(es') && Entries(es, pt) == Entries(es', pt)
    ensures es == es'
  {
    hide DirEntry.Ok, Fields, Entries, Names, DirEntry.Slot;
    assert |es| == |es'|;
    if es != [] {
      HeadInjective(es, es', pt);
      TablesInjective(es[1..], es'[1..], pt + |es[0].Slot()|);
      assert es == [es[0]] + es[1..] && es' == [es'[0]] + es'[1..];
    }
  }

  /** What the tables of a list start with, and what is left of them. */
  lemma HeadOfTables(es: seq<DirEntry>, pt: nat)
    requires AllOk(es) && pt + |Names(es)| < WORD && es != []
    ensures var x, e, names := es[0], Entries(es, pt), Names(es);
            && |e| >= 28 && |x.name| <= |x.Slot()| <= |names|
            && e[..24] == Fields(x) && names[..|x.name|] == x.name && names[|x.name|..|x.Slot()|] == x.pad
            && AllOk(es[1..]) && pt + |x.Slot()| + |Names(es[1..])| < WORD
            && e[28..] == Entries(es[1..], pt + |x.Slot()|) && names[|x.Slot()|..] == Names(es[1..])
  {
    hide Fields;
  }

  lemma HeadInjective(es: seq<DirEntry>, es': seq<DirEntry>, pt: nat)
    requires AllOk(es) && AllOk(es') && pt + |Names(es)| < WORD && es != [] && es' != []
    requires Names(es) == Names(es') && Entries(es, pt) == Entries(es', pt)
    ensures es[0] == es'[0] && AllOk(es[1..]) && AllOk(es'[1..]) && pt + |es[0].Slot()| + |Names(es[1..])| < WORD
    ensures Names(es[1..]) == Names(es'[1..])
    ensures Entries(es[1..], pt + |es[0].Slot()|) == Entries(es'[1..], pt + |es[0].Slot()|)
  {
    hide Fields, Entries, Names, DirEntry.Ok;
    HeadOfTables(es, pt);
    HeadOfTables(es', pt);
    assert es[0] in es && es'[0] in es';
    FieldsInjective(es[0], es'[0]);
  }
}
