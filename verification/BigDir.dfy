/** The big directory editor of discreader/DirUtils.c. */
module BigDirs {
  import opened BigDirLayout
  import opened BigDirParts
  import opened BigDirSteps
  import opened Collation
  import opened Regions
  import opened Words

  // ----- The sorted list that the editor keeps

  /** The first entry that does not collate before the name. */
  function Point(name: Name, es: seq<DirEntry>): (i: nat)
    ensures i <= |es|
  {
    if es == [] || NameCmp(name, Shown(es[0].name)) <= 0 then 0 else 1 + Point(name, es[1..])
  }

  function Inserted(es: seq<DirEntry>, i: nat, x: DirEntry): seq<DirEntry>
    requires i <= |es|
  {
    es[..i] + [x] + es[i..]
  }

  function Deleted(es: seq<DirEntry>, i: nat): seq<DirEntry>
    requires i < |es|
  {
    es[..i] + es[i + 1..]
  }

  /** The first entry whose name collates like the given one; the length when there is none. */
  function Match(name: Name, es: seq<DirEntry>): (i: nat)
    ensures i <= |es|
  {
    if es == [] || NameCmp(Shown(es[0].name), name) == 0 then 0 else 1 + Match(name, es[1..])
  }

  ghost predicate Sorted(es: seq<DirEntry>) {
    forall i, j :: 0 <= i < j < |es| ==> NameCmp(Shown(es[i].name), Shown(es[j].name)) <= 0
  }

  /** The entry that AddEntry makes: owner access, the name closed by a CR and filled up with zeros. */
  function Made(name: Name, load: nat, exec: nat, len: nat, sin: nat, isdir: bool): (x: DirEntry) {
    DirEntry(load, exec, len, sin, if isdir then 3 + 8 else 3, name, [CR] + Zeros(Whole(|name| + 1) - |name| - 1))
  }

  lemma {:induction false} PointSeparates(name: Name, es: seq<DirEntry>)
    ensures forall i :: 0 <= i < Point(name, es) ==> NameCmp(name, Shown(es[i].name)) > 0
    ensures Point(name, es) < |es| ==> NameCmp(name, Shown(es[Point(name, es)].name)) <= 0
  {
    if es != [] && NameCmp(name, Shown(es[0].name)) > 0 {
      PointSeparates(name, es[1..]);
      forall i | 0 <= i < Point(name, es)
        ensures NameCmp(name, Shown(es[i].name)) > 0
      {
        if i > 0 {
          assert es[i] == es[1..][i - 1];
        }
      }
    }
  }

  /** y is shown between what is read back of the name and the name itself. */
  ghost predicate Between(y: DirEntry, name: Name) {
    NameCmp(Shown(name), Shown(y.name)) < 0 && NameCmp(Shown(y.name), name) < 0
  }

  /** Insertion at the point keeps the list sorted exactly when no entry is shown between what is read
      back of the new name and the new name: for a name that is read back whole there is none. */
  lemma InsertedSorted(es: seq<DirEntry>, x: DirEntry)
    requires Sorted(es)
    ensures Sorted(Inserted(es, Point(x.name, es), x)) <==> forall y :: y in es ==> !Between(y, x.name)
    ensures Printable(x.name) ==> Sorted(Inserted(es, Point(x.name, es), x))
  {
    hide Sorted, NameCmp, Shown, Printable, Point, Between;
    if exists y :: y in es && Between(y, x.name) {
      var y :| y in es && Between(y, x.name);
      BetweenUnsorted(es, x, y);
    } else {
      StaysSorted(es, x);
    }
    if Printable(x.name) {
      WholeAlone(x.name);
    }
  }

  /** Nothing lies between a name and itself. */
  lemma WholeAlone(name: Name)
    requires Printable(name)
    ensures forall y :: !Between(y, name)
  {
    hide NameCmp, Printable;
    ShownWhole(name);
    forall y ensures !Between(y, name) {
      CmpAntisymmetric(name, Shown(y.name));
    }
  }

  /** Of a name a prefix is read back. */
  lemma {:induction false} ShownFirst(s: Name)
    ensures NameCmp(Shown(s), s) <= 0
  {
    if s != [] && s[0] > 0x20 {
      ShownFirst(s[1..]);
      assert Shown(s)[1..] == Shown(s[1..]);
    }
  }

  lemma PastPoint(name: Name, es: seq<DirEntry>, i: nat)
    requires Sorted(es) && i < |es|
    ensures i >= Point(name, es) ==> NameCmp(name, Shown(es[i].name)) <= 0
  {
    hide NameCmp, Shown;
    var p := Point(name, es);
    PointSeparates(name, es);
    if i > p {
      CmpTransitive(name, Shown(es[p].name), Shown(es[i].name));
    }
  }

  /** An entry in between stands before the new one and is shown behind it. */
  lemma BetweenUnsorted(es: seq<DirEntry>, x: DirEntry, y: DirEntry)
    requires Sorted(es) && y in es && Between(y, x.name)
    ensures !Sorted(Inserted(es, Point(x.name, es), x))
  {
    hide NameCmp, Shown;
    var p := Point(x.name, es);
    var r := Inserted(es, p, x);
    PointSeparates(x.name, es);
    var i :| 0 <= i < |es| && es[i] == y;
    CmpAntisymmetric(x.name, Shown(y.name));
    CmpAntisymmetric(Shown(x.name), Shown(y.name));
    PastPoint(x.name, es, i);
    assert r[i] == y && r[p] == x;
  }

  lemma StaysSorted(es: seq<DirEntry>, x: DirEntry)
    requires Sorted(es) && forall y :: y in es ==> !Between(y, x.name)
    ensures Sorted(Inserted(es, Point(x.name, es), x))
  {
    hide NameCmp, Shown;
    var p := Point(x.name, es);
    var r := Inserted(es, p, x);
    PointSeparates(x.name, es);
    ShownFirst(x.name);
    forall i, j | 0 <= i < j < |r|
      ensures NameCmp(Shown(r[i].name), Shown(r[j].name)) <= 0
    {
      if j == p {
        assert r[i] == es[i] && !Between(es[i], x.name);
        CmpAntisymmetric(x.name, Shown(es[i].name));
        CmpAntisymmetric(Shown(x.name), Shown(es[i].name));
      } else if i == p {
        assert r[j] == es[j - 1];
        CmpTransitive(Shown(x.name), x.name, Shown(es[p].name));
        if j - 1 > p {
          CmpTransitive(Shown(x.name), Shown(es[p].name), Shown(es[j - 1].name));
        }
      }
    }
  }

  lemma SpaceCodes()
    ensures Shown([0x61, 0x20, 0x7A]) == [0x61]
    ensures NameCmp([0x61, 0x20, 0x7A], [0x61, 0x23]) > 0 && NameCmp([0x61, 0x23], [0x61, 0x20, 0x7A]) < 0
    ensures NameCmp([0x61], [0x61, 0x23]) < 0 && NameCmp([0x61], [0x61, 0x20, 0x7A]) < 0
  {
  }

  /** "a z" is put behind "a#", and shown as "a". */
  lemma SpaceUnsorts()
    ensures var es, x := [Made([0x61, 0x23], 0, 0, 0, 0, false)], Made([0x61, 0x20, 0x7A], 0, 0, 0, 0, false);
            && Sorted(es) && Point(x.name, es) == 1 && x.Ok()
            && Shown(x.name) == [0x61] && !Sorted(Inserted(es, Point(x.name, es), x))
            && Match(x.name, Inserted(es, Point(x.name, es), x)) == 2
  {
    hide NameCmp;
    var es, x := [Made([0x61, 0x23], 0, 0, 0, 0, false)], Made([0x61, 0x20, 0x7A], 0, 0, 0, 0, false);
    SpaceCodes();
    ShownWhole([0x61, 0x23]);
    assert es[0] in es && Between(es[0], x.name);
    InsertedSorted(es, x);
  }

  lemma DeletedSorted(es: seq<DirEntry>, i: nat)
    requires Sorted(es) && i < |es|
    ensures Sorted(Deleted(es, i))
  {
    var r := Deleted(es, i);
    assert forall k :: 0 <= k < |r| ==> r[k] == if k < i then es[k] else es[k + 1];
  }

  /** What is done to a directory: an entry is added at its point, or the entry at a position removed. */
  datatype Edit = Add(x: DirEntry) | Remove(i: nat)

  function Edited(es: seq<DirEntry>, run: seq<Edit>): (r: seq<DirEntry>)
    decreases |run|
  {
    if run == [] then es
    else
      var r, e := Edited(es, run[..|run| - 1]), run[|run| - 1];
      if e.Add? then Inserted(r, Point(e.x.name, r), e.x)
      else if e.i < |r| then Deleted(r, e.i)
      else r
  }

  /** A sorted directory stays sorted in every run of edits whose names are read back whole. */
  lemma {:induction false} RunSorted(es: seq<DirEntry>, run: seq<Edit>)
    requires Sorted(es) && forall i :: 0 <= i < |run| && run[i].Add? ==> Printable(run[i].x.name)
    ensures Sorted(Edited(es, run))
    decreases |run|
  {
    hide Sorted, Printable, Point, Inserted, Deleted;
    if run != [] {
      var r, e := Edited(es, run[..|run| - 1]), run[|run| - 1];
      RunSorted(es, run[..|run| - 1]);
      if e.Add? {
        InsertedSorted(r, e.x);
      } else if e.i < |r| {
        DeletedSorted(r, e.i);
      }
    }
  }

  lemma {:induction false} MatchIs(name: Name, es: seq<DirEntry>, p: nat)
    requires p < |es| && NameCmp(Shown(es[p].name), name) == 0
    requires forall i :: 0 <= i < p ==> NameCmp(Shown(es[i].name), name) != 0
    ensures Match(name, es) == p
  {
    hide NameCmp, Shown;
    if p > 0 {
      assert NameCmp(Shown(es[0].name), name) != 0;
      assert forall i :: 0 <= i < |es| - 1 ==> es[1..][i] == es[i + 1];
      MatchIs(name, es[1..], p - 1);
    }
  }

  /** A search for the name of the entry just inserted finds that entry exactly when the name is read
      back whole; otherwise it finds a later entry or none. */
  lemma MatchInserted(es: seq<DirEntry>, x: DirEntry)
    ensures var p := Point(x.name, es);
            && Match(x.name, Inserted(es, p, x)) >= p
            && (Match(x.name, Inserted(es, p, x)) == p <==> Printable(x.name))
  {
    hide NameCmp, Shown, Printable, Point, Match;
    var p := Point(x.name, es);
    var r := Inserted(es, p, x);
    ShownWhole(x.name);
    ShownShort(x.name);
    PointSeparates(x.name, es);
    CmpEqual(Shown(x.name), x.name);
    MatchFirst(x.name, r);
    forall i | 0 <= i < p
      ensures NameCmp(Shown(r[i].name), x.name) != 0
    {
      assert r[i] == es[i];
      CmpAntisymmetric(x.name, Shown(es[i].name));
    }
    if Printable(x.name) {
      CmpAntisymmetric(x.name, x.name);
      MatchIs(x.name, r, p);
    }
  }

  /** What is read back of a name is as long as the name only if it is the name. */
  lemma {:induction false} ShownShort(s: Name)
    ensures |Shown(s)| == |s| ==> Shown(s) == s
  {
    if s != [] && s[0] > 0x20 {
      ShownShort(s[1..]);
      assert s == [s[0]] + s[1..];
    }
  }

  lemma {:induction false} MatchFirst(name: Name, es: seq<DirEntry>)
    ensures forall i :: 0 <= i < Match(name, es) ==> NameCmp(Shown(es[i].name), name) != 0
    ensures Match(name, es) < |es| ==> NameCmp(Shown(es[Match(name, es)].name), name) == 0
  {
    if es != [] && NameCmp(Shown(es[0].name), name) != 0 {
      MatchFirst(name, es[1..]);
      assert forall i :: 0 < i < |es| ==> es[i] == es[1..][i - 1];
    }
  }

  /** "#" and "$" collate alike: a lookup of the one finds an entry with the name of the other. */
  lemma FindsOther(x: DirEntry)
    requires x.name == [0x23]
    ensures x.name != [0x24] && Match([0x24], [x]) == 0 < |[x]|
    ensures NameCmp(Shown(x.name), [0x24]) == 0
  {
    ShownWhole(x.name);
    CmpEqual(x.name, [0x24]);
  }

  lemma InsertedDeleted(es: seq<DirEntry>, i: nat, x: DirEntry)
    requires i <= |es|
    ensures Deleted(Inserted(es, i, x), i) == es
  {
  }

  /** Adding an entry, looking its name up and removing what is found gives back the same list exactly
      when the name is read back whole. */
  lemma UndoInsert(es: seq<DirEntry>, x: DirEntry)
    ensures var r := Inserted(es, Point(x.name, es), x);
            Match(x.name, r) < |r| && Deleted(r, Match(x.name, r)) == es <==> Printable(x.name)
  {
    hide NameCmp, Shown, Printable, Point, Match, Inserted, Deleted;
    var p := Point(x.name, es);
    var r := Inserted(es, p, x);
    var m := Match(x.name, r);
    MatchInserted(es, x);
    InsertedDeleted(es, p, x);
    InsertedAt(es, p, x, 0);
    if p < m < |r| {
      MatchFirst(x.name, r);
      if Deleted(r, m) == es {
        AllCopies(es, p, m, x, m - 1);
        assert r[m] == x by { InsertedAt(es, p, x, m); }
        ShownWhole(x.name);
        ShownShort(x.name);
        CmpEqual(Shown(x.name), x.name);
      }
    }
  }

  lemma InsertedAt(es: seq<DirEntry>, p: nat, x: DirEntry, i: nat)
    requires p <= |es| && i <= |es|
    ensures |Inserted(es, p, x)| == |es| + 1
    ensures Inserted(es, p, x)[i] == if i < p then es[i] else if i == p then x else es[i - 1]
  {
  }

  /** If a later entry was removed in the place of the new one, and the list is the same, then all
      entries in between are the new one. */
  lemma {:induction false} AllCopies(es: seq<DirEntry>, p: nat, m: nat, x: DirEntry, i: nat)
    requires p < m <= |es| && p <= i < m && |Inserted(es, p, x)| == |es| + 1 && Deleted(Inserted(es, p, x), m) == es
    ensures es[i] == x
    decreases i
  {
    var r := Inserted(es, p, x);
    assert Deleted(r, m)[i] == r[i];
    if i > p {
      AllCopies(es, p, m, x, i - 1);
    }
  }

  /** In every image: name pointers are contiguous, names are where they say, backups repeat the addresses. */
  lemma ImageReads(f: seq<byte>, size: nat, sh: Shell, es: seq<DirEntry>, i: nat)
    requires Image(f, size, sh, es) && i < |es|
    ensures var e, heap, p := sh.First() + 28 * i, HeapAt(sh, |es|), |Names(es[..i])|;
            && e + 28 <= heap && heap + p + |es[i].Slot()| <= BackupsAt(size, |es|) && size <= |f|
            && U32(f, e + 24) == p && U32(f, e + 20) == |es[i].name|
            && f[heap + p..heap + p + |es[i].Slot()|] == es[i].Slot()
            && U32(f, e + 12) == es[i].sin == U32(f, BackupsAt(size, |es|) + 4 * i)
  {
    hide At, Entries, Names, Sins, U32, Enc32;
    AtTaken(f, size - 8, sh.tail);
    EntryAt(f, sh.First(), es, i);
    WordsOfEntry(f, sh.First() + 28 * i, es[i], |Names(es[..i])|);
    NameAt(f, HeapAt(sh, |es|), es, i);
    AtTaken(f, HeapAt(sh, |es|) + |Names(es[..i])|, es[i].Slot());
    SinAt(f, BackupsAt(size, |es|), es, i);
  }

  // ----- A directory that AddEntry cannot extend

  /** Two stretches of n bytes have a byte in common. */
  predicate Overlap(dst: nat, src: nat, n: nat) {
    n > 0 && dst < src + n && src < dst + n
  }

  /** The memcpy of AddEntry moves the end of the directory by 2 KB: the stretches overlap from 511 entries on. */
  lemma CopyOverlaps(size: nat, n: nat)
    requires 8 + 4 * n <= size
    ensures Overlap(BackupsAt(size, n) + EXTENSION, BackupsAt(size, n), size - BackupsAt(size, n)) <==> n > 510
  {
  }

  function Copies(n: nat, x: DirEntry): (es: seq<DirEntry>)
    ensures |es| == n
  {
    if n == 0 then [] else [x] + Copies(n - 1, x)
  }

  lemma {:induction false} CopiesOk(n: nat, x: DirEntry)
    requires x.Ok()
    ensures AllOk(Copies(n, x)) && |Names(Copies(n, x))| == n * |x.Slot()|
  {
    hide DirEntry.Ok, DirEntry.Slot;
    if n > 0 {
      var es := Copies(n, x);
      CopiesOk(n - 1, x);
      assert es[1..] == Copies(n - 1, x) && es[0] == x;
      NextMultiple(n, |x.Slot()|);
    }
  }

  lemma NextMultiple(n: nat, k: nat)
    requires n > 0
    ensures n * k == k + (n - 1) * k
  {
  }

  function FullShell(): (sh: Shell)
    ensures sh.Ok() && sh.First() == 32
  {
    var sh := Shell([0, 0, 0, 0, 0x53, 0x42, 0x50, 0x72, 1, 0, 0, 0], [0, 0, 0, 0, 0x24, CR, 0, 0], [0, 0, 0, 0, 0, 0, 0, 0]);
    assert U32(sh.lead, 8) == 1;
    sh
  }

  /** 511 entries with names of four characters fill a directory of 20 KB to the last byte; it may grow, but not by memcpy. */
  lemma FullOf511()
    ensures var es, size := Copies(511, Made([0x41, 0x41, 0x41, 0x41], 0, 0, 0, 0, false)), 20480;
            && SizeOk(size) && AllOk(es) && Fits(size, FullShell(), es) && Image(Bytes(size, FullShell(), es), size, FullShell(), es)
            && HeapAt(FullShell(), |es|) + |Names(es)| == BackupsAt(size, |es|)
            && size + EXTENSION <= MAX_SIZE
            && Overlap(BackupsAt(size, |es|) + EXTENSION, BackupsAt(size, |es|), size - BackupsAt(size, |es|))
  {
    hide Copies, FullShell, Image, Bytes;
    var x := Made([0x41, 0x41, 0x41, 0x41], 0, 0, 0, 0, false);
    assert |x.name| == 4 && Whole(5) == 8;
    assert x.Ok() && |x.Slot()| == 8;
    CopiesOk(511, x);
    CopyOverlaps(20480, 511);
    BytesImage(20480, FullShell(), Copies(511, x));
  }

  lemma ShownStep(t: Name, i: nat)
    requires i < |t|
    ensures Shown(t[i..]) == if t[i] <= 0x20 then [] else [t[i]] + Shown(t[i + 1..])
  {
    assert t[i..][1..] == t[i + 1..];
  }

  // ----- The editor

  class BigDir {
    var data: array<byte>
    var size: nat
    var first: nat       // where the entries begin
    var entries: nat
    var nameheap: nat
    var namessize: nat
    var backups: nat     // where the backup addresses begin
    ghost var shell: Shell
    ghost var list: seq<DirEntry>

    ghost predicate Tracked()
      reads this
    {
      && entries == |list| && first == shell.First()
      && nameheap == HeapAt(shell, entries) && namessize == |Names(list)| && backups == BackupsAt(size, entries)
    }

    ghost predicate Valid()
      reads this, data
    {
      Tracked() && Image(data[..], size, shell, list)
    }

    /** LoadDirectory: the fields follow from the header of a directory image. */
    constructor Load(buffer: array<byte>, ghost sh: Shell, ghost es: seq<DirEntry>, ghost sz: nat)
      requires Image(buffer[..], sz, sh, es)
      ensures Valid() && data == buffer && size == sz && shell == sh && list == es
    {
      hide Entries, Names, Sins, AllOk, At, U32;
      ghost var f := buffer[..];
      AtWord(f, 12, sz);
      AtWord(f, 16, |es|);
      AtWord(f, 20, |Names(es)|);
      AtTaken(f, 0, sh.lead);
      assert f[8..12] == f[0..12][8..12];
      U32Local(f, 8, sh.lead, 8);
      data := buffer;
      var namelen := U32(buffer[..], 8);
      var total, count := U32(buffer[..], 12), U32(buffer[..], 16);
      size := total;
      namessize := U32(buffer[..], 20);
      entries := count;
      first := NAME_AT + Whole(namelen + 1);
      nameheap := NAME_AT + Whole(namelen + 1) + count * 28;
      backups := total - 8 - 4 * count;
      shell := sh;
      list := es;
    }

    // ----- Moving bytes

    method MemMove(dst: nat, src: nat, n: nat)
      requires dst + n <= data.Length && src + n <= data.Length
      modifies data
      ensures data[..] == Patch(old(data[..]), dst, old(data[..])[src..src + n])
    {
      forall i | 0 <= i < n {
        data[dst + i] := data[src + i];
      }
    }

    method StoreWord(p: nat, v: nat)
      requires p + 4 <= data.Length && v < WORD
      modifies data
      ensures data[..] == Patch(old(data[..]), p, Enc32(v))
    {
      var e := Enc32(v);
      forall i | 0 <= i < 4 {
        data[p + i] := e[i];
      }
    }

    /** GetS: the string stops at the first space or control character. */
    method GetS(offset: nat, max: nat) returns (s: Name)
      requires offset + max <= data.Length
      ensures s == Shown(data[..][offset..offset + max])
    {
      ghost var t := data[..][offset..offset + max];
      s := [];
      for i := 0 to max
        invariant Shown(t) == s + Shown(t[i..])
      {
        var c := data[offset + i];
        ShownStep(t, i);
        if c <= 0x20 {
          return;
        }
        s := s + [c];
      }
    }

    /** SetS: the string, cut or filled up with zeros, and always a zero at the end. */
    method SetS(offset: nat, max: nat, s: Name)
      requires max > 0 && offset + max <= data.Length
      modifies data
      ensures data[..] == Patch(old(data[..]), offset, (s + Zeros(max))[..max - 1] + [0])
      ensures |s| < max ==> (s + Zeros(max))[..max - 1] + [0] == s + Zeros(max - |s|)
    {
      forall i | 0 <= i < max {
        data[offset + i] := 0;
      }
      forall i | 0 <= i < |s| && i < max {
        data[offset + i] := s[i];
      }
      data[offset + max - 1] := 0;
    }

    // ----- Searching

    /** The stored name of entry i, as GetS reads it. */
    lemma NameRead(f: seq<byte>, i: nat)
      requires AllOk(list) && |Names(list)| < WORD && i < |list|
      requires At(f, first, Entries(list, 0)) && At(f, nameheap, Names(list))
      ensures first + 28 * i + 28 <= |f|
      ensures U32(f, first + 28 * i + 20) == |list[i].name|
      ensures U32(f, first + 28 * i + 24) == |Names(list[..i])|
      ensures U32(f, first + 28 * i + 12) == list[i].sin
      ensures nameheap + |Names(list[..i])| + |list[i].name| <= |f|
      ensures f[nameheap + |Names(list[..i])|..nameheap + |Names(list[..i])| + |list[i].name|] == list[i].name
    {
      hide At, Entries, Names, U32;
      var p := |Names(list[..i])|;
      EntryAt(f, first, list, i);
      WordsOfEntry(f, first + 28 * i, list[i], p);
      NameAt(f, nameheap, list, i);
      AtJoin(f, nameheap + p, list[i].name, list[i].pad);
      AtTaken(f, nameheap + p, list[i].name);
    }

    /** The loop of AddEntry that looks for the place of a new name. */
    method FindPoint(filename: Name) returns (entry: nat, offset: nat, namept: nat)
      requires CString(filename)
      requires AllOk(list) && |Names(list)| < WORD && entries == |list|
      requires At(data[..], first, Entries(list, 0)) && At(data[..], nameheap, Names(list))
      ensures entry == Point(filename, list) && offset == first + 28 * entry
      ensures entry < |list| ==> namept == |Names(list[..entry])|
    {
      hide At, Entries, Names, U32, NameCmp, AllOk;
      entry, offset, namept := 0, first, 0;
      var done := false;
      while entry < entries && !done
        invariant entry <= |list| && offset == first + 28 * entry
        invariant Point(filename, list) == entry + Point(filename, list[entry..])
        invariant done ==> entry < |list| && namept == |Names(list[..entry])| && Point(filename, list) == entry
        decreases |list| - entry, !done
      {
        ghost var x := list[entry];
        NameRead(data[..], entry);
        var namelen := U32(data[..], offset + 20);
        namept := U32(data[..], offset + 24);
        var name := GetS(nameheap + namept, namelen);
        assert name == Shown(x.name);
        assert list[entry..][0] == x && list[entry..][1..] == list[entry + 1..];
        var order := FilenameCmp(filename, name);
        if order > 0 {
          offset := offset + 28;
          entry := entry + 1;
        } else {
          done := true;
        }
      }
    }

    method FindEntry(filename: Name) returns (sin: nat, entry: nat, offset: nat)
      requires Valid() && CString(filename)
      ensures entry == Match(filename, list) && offset == first + 28 * entry
      ensures sin == if entry < |list| then list[entry].sin else 0
    {
      hide At, Entries, Names, U32, NameCmp, AllOk, Shell.Ok;
      entry, offset, sin := 0, first, 0;
      while entry < entries
        invariant entry <= |list| && offset == first + 28 * entry
        invariant Match(filename, list) == entry + Match(filename, list[entry..])
      {
        ghost var x := list[entry];
        NameRead(data[..], entry);
        var namelen := U32(data[..], offset + 20);
        var namept := U32(data[..], offset + 24);
        var name := GetS(nameheap + namept, namelen);
        assert name == Shown(x.name);
        assert list[entry..][0] == x && list[entry..][1..] == list[entry + 1..];
        var order := FilenameCmp(name, filename);
        if order == 0 {
          sin := U32(data[..], offset + 12);
          return;
        }
        offset := offset + 28;
        entry := entry + 1;
      }
    }

    // ----- Editing

    /** Moves a part of the name heap and corrects the pointers into it. */
    method AdjustNameHeap(entry: nat, adjust: int) returns (ok: bool)
      requires entry <= entries && first + 28 * entry + 28 <= data.Length && 0 <= nameheap + namessize + adjust
      requires AdjustOk(data[..], first + 28 * entry, U32(data[..], first + 28 * entry + 24),
                        nameheap, namessize, entries - entry, adjust)
      modifies data, this`namessize
      ensures ok <==> nameheap + old(namessize) + adjust <= backups
      ensures !ok ==> namessize == old(namessize) && data[..] == old(data[..])
      ensures ok ==> namessize == Whole(old(namessize)) + adjust
      ensures ok ==> data[..] == Adjusted(old(data[..]), first + 28 * entry, old(U32(data[..], first + 28 * entry + 24)),
                                          nameheap, old(namessize), entries - entry, adjust)
    {
      hide U32, Enc32, Patch, Bump, Whole;
      var offset := first + entry * 28;
      var namept := U32(data[..], offset + 24);
      if nameheap + namessize + adjust > backups {
        return false;
      }
      if entry < entries {
        MemMove(nameheap + namept + adjust, nameheap + namept, namessize - namept);
      }
      ghost var f := data[..];
      namessize := Whole(namessize) + adjust;
      StoreWord(20, namessize);
      assert data[..] == Patch(f, 20, Enc32(namessize));
      CorrectPointers(entry, offset, adjust);
      ok := true;
    }

    /** The closing loop of AdjustNameHeap. */
    method CorrectPointers(entry: nat, offset: nat, adjust: int)
      requires entry <= entries && offset + 28 * (entries - entry) <= data.Length
      modifies data
      ensures data[..] == Bump(old(data[..]), offset, entries - entry, adjust)
    {
      hide U32, Enc32, Patch;
      var e, o := entry, offset;
      while e < entries
        invariant entry <= e <= entries && o == offset + 28 * (e - entry)
        invariant Bump(old(data[..]), offset, entries - entry, adjust) == Bump(data[..], o, entries - e, adjust)
      {
        StoreWord(o + 24, (U32(data[..], o + 24) + adjust) % WORD);
        o := o + 28;
        e := e + 1;
      }
    }

    /** The place of the new entry and of its name; a new last entry gets its pointer at once. */
    method PlaceName(filename: Name, ghost c: Cut) returns (entry: nat, offset: nat, namept: nat)
      requires CString(filename) && c.Ok() && Raised(c).Sits(data[..])
      requires c == Cut(size, shell, list[..Point(filename, list)], [], list[Point(filename, list)..])
      requires first == c.sh.First() && entries == |list| && nameheap == c.Heap() + 28 && namessize == c.NamesSize()
      modifies data
      ensures Raised(c).Sits(data[..])
      ensures entry == |c.a| && offset == first + 28 * entry && namept == c.Pt()
    {
      hide At, Entries, Names, Sins, U32, Enc32, Patch, NameCmp, AllOk, Shell.Ok, Cut.View, Raised, Parts.Sits, SizeOk;
      assert c.List() == list;
      PlaceOfName(c);
      RaisedTables(data[..], c);
      entry, offset, namept := FindPoint(filename);
      if entry == entries {
        namept := Whole(namessize);
        EarlyPointer(data[..], c, Enc32(namept));
        StoreWord(offset + 24, namept);
      }
    }

    /** AddEntry, first part: the names move up and the place is found. */
    method RaiseHeap(filename: Name, slot: nat, ghost c: Cut) returns (entry: nat, offset: nat, namept: nat)
      requires Valid() && CString(filename)
      requires c == Cut(size, shell, list[..Point(filename, list)], [], list[Point(filename, list)..])
      requires c.Ok() && Room(c, slot)
      modifies data, this`nameheap
      ensures Raised(c).Sits(data[..])
      ensures entry == |c.a| && offset == first + 28 * entry && namept == c.Pt()
      ensures nameheap == c.Heap() + 28 && backups == c.Backups() && namessize == c.NamesSize()
    {
      hide At, Entries, Names, Sins, U32, Enc32, Patch, NameCmp, AllOk, Shell.Ok, Cut.View, Raised, Parts.Sits, SizeOk,
           Image, Parts.In, Cut.MidIn, Cut.Ok, Point, Cut.Pt, Cut.NamesSize;
      assert c.List() == list;
      CutOk(c);
      ImageCut(data[..], c);
      RaiseNames(data[..], c, slot, nameheap + 28, nameheap, namessize);
      MemMove(nameheap + 28, nameheap, namessize);
      nameheap := nameheap + 28;
      entry, offset, namept := PlaceName(filename, c);
    }

    /** AddEntry, second part: gaps open among the backup addresses and in the name heap. */
    method SpreadHeap(entry: nat, slot: nat, ghost c: Cut, ghost x: DirEntry)
      requires c.Ok() && c.mid == [] && x.Ok() && Room(c, |x.Slot()|) && slot == |x.Slot()|
      requires Raised(c).Sits(data[..])
      requires entry == |c.a| && first == c.sh.First() && entries == c.N()
      requires nameheap == c.Heap() + 28 && backups == c.Backups() && namessize == c.NamesSize()
      modifies data, this`namessize, this`backups
      ensures With(c, x).Ok() && Spread(c, x).Sits(data[..])
      ensures namessize == With(c, x).NamesSize() && backups == c.Backups() - 4
    {
      hide At, Entries, Names, Sins, U32, Enc32, Patch, AllOk, Shell.Ok, DirEntry.Ok, DirEntry.Slot, Cut.View,
           Adjusted, AdjustOk, Raised, Parts.Sits, SizeOk, Cut.Ok, Cut.Pt, Cut.NamesSize, Spread;
      WithOk(c, x);
      LowerBackups(data[..], c, slot, backups - 4, backups, 4 * entry);
      MemMove(backups - 4, backups, 4 * entry);
      backups := backups - 4;
      ghost var from, pt, heap, names := c.sh.First() + 28 * |c.a|, c.Pt(), c.Heap() + 28, c.NamesSize();
      SpreadNames(data[..], c, x, slot, from, pt, heap, names);
      PointerRead(data[..], c, slot, from, pt, heap, names);
      var ok := AdjustNameHeap(entry, slot);
    }

    /** AddEntry, third part: a gap opens among the entries. */
    method SpreadList(entry: nat, offset: nat, ghost c: Cut, ghost x: DirEntry)
      requires c.Ok() && c.mid == [] && x.Ok() && Room(c, |x.Slot()|) && With(c, x).Ok() && Spread(c, x).Sits(data[..])
      requires entry == |c.a| && first == c.sh.First() && offset == first + 28 * entry && entries == c.N()
      modifies data, this`entries
      ensures With(c, x).View().Sits(data[..]) && entries == c.N() + 1
    {
      hide At, Entries, Names, Sins, U32, Enc32, Patch, AllOk, Shell.Ok, DirEntry.Ok, DirEntry.Slot, Cut.View,
           Parts.Sits, Cut.Ok, Spread;
      SpreadEntries(data[..], c, x, offset + 28, offset, 28 * (entries - entry));
      MemMove(offset + 28, offset, 28 * (entries - entry));
      CountUp(data[..], c, x);
      assert c.N() + 1 < WORD by { WithOk(c, x); CountFits(With(c, x)); }
      entries := entries + 1;
      StoreWord(16, entries);
    }

    /** The name with its CR, as AddEntry stores it. */
    method StoreName(p: nat, filename: Name, slot: nat, ghost x: DirEntry)
      requires slot == Whole(|filename| + 1) && p + slot <= data.Length
      requires x.name == filename && x.pad == [CR] + Zeros(slot - |filename| - 1)
      modifies data
      ensures data[..] == Patch(old(data[..]), p, x.Slot())
    {
      SetS(p, slot, filename);
      data[p + |filename|] := CR;
    }

    /** The seven words of an entry, one after the other. */
    method StoreEntry(p: nat, load: nat, exec: nat, len: nat, sin: nat, attr: nat, namelen: nat, namept: nat, ghost x: DirEntry)
      requires p + 28 <= data.Length && x.Ok() && namept < WORD
      requires x.load == load && x.exec == exec && x.len == len && x.sin == sin && x.attr == attr && |x.name| == namelen
      modifies data
      ensures data[..] == Patch(old(data[..]), p, Entry(x, namept))
    {
      hide Enc32, Patch;
      ghost var f := data[..];
      StoreWord(p, load);
      StoreWord(p + 4, exec);
      PatchNext(f, p, Enc32(load), Enc32(exec));
      StoreWord(p + 8, len);
      PatchNext(f, p, Enc32(load) + Enc32(exec), Enc32(len));
      StoreWord(p + 12, sin);
      PatchNext(f, p, Enc32(load) + Enc32(exec) + Enc32(len), Enc32(sin));
      StoreWord(p + 16, attr);
      PatchNext(f, p, Enc32(load) + Enc32(exec) + Enc32(len) + Enc32(sin), Enc32(attr));
      StoreWord(p + 20, namelen);
      PatchNext(f, p, Enc32(load) + Enc32(exec) + Enc32(len) + Enc32(sin) + Enc32(attr), Enc32(namelen));
      StoreWord(p + 24, namept);
      PatchNext(f, p, Fields(x), Enc32(namept));
    }

    /** AddEntry once there is room. */
    method InsertEntry(filename: Name, slot: nat, load: nat, exec: nat, len: nat, sin: nat, isdir: bool)
      requires Valid() && CString(filename) && |filename| <= 255 && slot == Whole(|filename| + 1)
      requires load < WORD && exec < WORD && len < WORD && sin < WORD
      requires nameheap + 28 + namessize + slot <= backups - 4
      modifies this, data
      ensures Valid() && data == old(data) && size == old(size) && shell == old(shell)
      ensures list == Inserted(old(list), Point(filename, old(list)), Made(filename, load, exec, len, sin, isdir))
    {
      hide At, Entries, Names, Sins, U32, Enc32, Patch, NameCmp, AllOk, Shell.Ok, Cut.View, Raised, Parts.Sits, SizeOk, Entry,
           Cut.MidIn, Parts.In, Image, DirEntry.Slot, Cut.Ok, Cut.Pt, Cut.NamesSize, Point, Shell.First;
      ghost var i := Point(filename, list);
      ghost var x := Made(filename, load, exec, len, sin, isdir);
      ghost var c := Cut(size, shell, list[..i], [], list[i..]);
      assert c.List() == list;
      ImageCut(data[..], c);
      CutOk(c);
      assert |x.Slot()| == slot by { SlotSize(x); }
      var entry, offset, namept := RaiseHeap(filename, slot, c);
      SpreadHeap(entry, slot, c, x);
      SpreadList(entry, offset, c, x);
      ghost var d := With(c, x);
      WithOk(c, x);
      FillGaps(data[..], d, x);
      StoreName(nameheap + namept, filename, slot, x);
      StoreEntry(offset, load, exec, len, sin, if isdir then 3 + 8 else 3, |filename|, namept, x);
      StoreWord(backups + 4 * entry, sin);
      ImageCut(data[..], d);
      CutOk(d);
      list := d.List();
    }

    /** memcpy: the two stretches must not overlap. */
    method MemCopy(dst: nat, src: nat, n: nat)
      requires src + n <= dst && dst + n <= data.Length
      modifies data
      ensures data[..] == Patch(old(data[..]), dst, old(data[..])[src..src + n])
    {
      forall i | 0 <= i < n {
        data[dst + i] := data[src + i];
      }
    }

    /** The buffer and the directory grow by 2 KB. */
    method Extend()
      requires Valid() && size < MAX_SIZE && 4 * entries + 8 <= EXTENSION
      modifies this
      ensures Valid() && fresh(data) && size == old(size) + EXTENSION && shell == old(shell) && list == old(list)
      ensures nameheap == old(nameheap) && namessize == old(namessize) && backups == old(backups) + EXTENSION
    {
      hide At, Entries, Names, Sins, U32, Enc32, Patch, AllOk, Shell.Ok, Image;
      var dsize := size + EXTENSION;
      ghost var f := data[..];
      ImageLength(f, size, shell, list);
      var grown := new byte[dsize];
      forall i | 0 <= i < size {
        grown[i] := data[i];
      }
      assert grown[..][..size] == f[..size];
      ImagePrefix(f, grown[..], size, shell, list);
      data := grown;
      Resize(data[..], size, shell, list, dsize);
      MemCopy(backups + EXTENSION, backups, size - backups);
      backups := backups + EXTENSION;
      size := dsize;
      StoreWord(12, size);
    }

    /** AddEntry of the big directory branch; load and execution address come from the clock. */
    method AddEntry(alloc: nat, filename: Name, load: nat, exec: nat, len: nat, sin: nat, isdir: bool) returns (ok: bool)
      requires Valid() && CString(filename) && |filename| <= 255
      requires load < WORD && exec < WORD && len < WORD && sin < WORD
      requires Full(filename) && size < MAX_SIZE && size + EXTENSION <= alloc ==> 4 * entries + 8 <= EXTENSION
      modifies this, data
      ensures Valid() && shell == old(shell)
      ensures ok <==> old(Full(filename) ==> size < MAX_SIZE && size + EXTENSION <= alloc)
      ensures !ok ==> list == old(list) && size == old(size) && data == old(data) && data[..] == old(data[..])
      ensures ok ==> size == if old(Full(filename)) then old(size) + EXTENSION else old(size)
      ensures ok ==> list == Inserted(old(list), Point(filename, old(list)), Made(filename, load, exec, len, sin, isdir))
      ensures fresh(data) || data == old(data)
    {
      hide Image;
      var slot := Whole(|filename| + 1);
      if nameheap + 28 + namessize + slot > backups - 4 {
        if size == MAX_SIZE || size + EXTENSION > alloc {
          MaxSize(data[..], size, shell, list);
          return false;
        }
        MaxSize(data[..], size, shell, list);
        Extend();
      }
      InsertEntry(filename, slot, load, exec, len, sin, isdir);
      ok := true;
    }

    /** RemoveEntry, first part: the name heap closes over the entry's name. */
    method ShutHeap(entry: nat, offset: nat, ghost d: Cut, ghost x: DirEntry)
      requires Valid() && entry < entries && offset == first + 28 * entry && x == list[entry]
      requires d == Cut(size, shell, list[..entry], [x], list[entry + 1..]) && d.Ok() && d.View().In(data[..])
      modifies data, this`namessize, this`entries
      ensures Without(d).Ok() && Shut(d).(count := Without(d).View().count).Sits(data[..])
      ensures entries == |list| - 1 && namessize == Without(d).NamesSize()
    {
      hide At, Entries, Names, Sins, U32, Enc32, Patch, AllOk, Shell.Ok, DirEntry.Slot, Cut.View, Shut, Parts.Sits, SizeOk,
           Cut.NamesSize, Cut.Pt, Cut.Ok, Adjusted, AdjustOk, Image, Parts.In;
      assert d.List() == list;
      ghost var c := Without(d);
      WithoutOk(d, x);
      WithOk(c, x);
      CutOk(d);
      var slot := SlotOf(entry, offset);
      ShutNames(data[..], d, x);
      PointerReadShut(data[..], d, -slot);
      var ok := AdjustNameHeap(entry + 1, -slot);
      CountDown(data[..], d, x);
      entries := entries - 1;
      StoreWord(16, entries);
    }

    /** RemoveEntry, second part: the entries behind move down. */
    method ShutList(entry: nat, offset: nat, ghost d: Cut, ghost x: DirEntry)
      requires d.Ok() && d.mid == [x] && Without(d).Ok() && Shut(d).(count := Without(d).View().count).Sits(data[..])
      requires entry == |d.a| && entries == d.N() - 1 && first == d.sh.First() && offset == first + 28 * entry
      modifies data
      ensures Shut(d).(count := Without(d).View().count, e2 := Without(d).View().e2).Sits(data[..])
    {
      hide At, Entries, Names, Sins, U32, Enc32, Patch, AllOk, Shell.Ok, Cut.View, Shut, Parts.Sits, SizeOk,
           Cut.NamesSize, Cut.Pt, Cut.Ok, Shell.First;
      ShutEntries(data[..], d, x, offset, offset + 28, 28 * (entries - entry));
      if entry < entries {
        MemMove(offset, offset + 28, 28 * (entries - entry));
      } else {
        PatchNothing(data[..], offset, offset + 28);
      }
    }

    /** RemoveEntry, third part: the names move down, the backup addresses in front move up. */
    method ShutTables(entry: nat, ghost d: Cut, ghost x: DirEntry)
      requires d.Ok() && d.mid == [x] && Without(d).Ok() && Shut(d).(count := Without(d).View().count, e2 := Without(d).View().e2).Sits(data[..])
      requires entry == |d.a|
      requires nameheap == d.Heap() && namessize == Without(d).NamesSize() && backups == d.Backups()
      modifies data, this`nameheap, this`backups
      ensures Without(d).View().Sits(data[..])
      ensures nameheap == Without(d).Heap() && backups == Without(d).Backups()
    {
      hide At, Entries, Names, Sins, U32, Enc32, Patch, AllOk, Shell.Ok, Cut.View, Shut, Parts.Sits, SizeOk,
           Cut.NamesSize, Cut.Pt, Cut.Ok, Shell.First;
      DropNames(data[..], d, x, nameheap - 28, nameheap, namessize);
      MemMove(nameheap - 28, nameheap, namessize);
      nameheap := nameheap - 28;
      RaiseBackups(data[..], d, x, backups + 4, backups, 4 * entry);
      MemMove(backups + 4, backups, 4 * entry);
      backups := backups + 4;
    }

    method Shrink()
      requires Valid()
      modifies this, data
      ensures Valid() && data == old(data) && shell == old(shell) && list == old(list)
      ensures size <= old(size) && (old(size) - size) % EXTENSION == 0
      ensures backups - (nameheap + namessize) <= EXTENSION
    {
      hide At, Entries, Names, Sins, U32, Enc32, Patch, AllOk, Shell.Ok, Image;
      ImageLength(data[..], size, shell, list);
      var spare := backups - (nameheap + namessize);
      if spare > 0x800 {
        spare := spare / 0x800 * 0x800;
        Resize(data[..], size, shell, list, size - spare);
        MemMove(backups - spare, backups, size - backups);
        backups := backups - spare;
        size := size - spare;
        StoreWord(12, size);
      }
    }

    method RemoveEntry(entry: nat, offset: nat)
      requires Valid() && entry < entries && offset == first + 28 * entry
      modifies this, data
      ensures Valid() && data == old(data) && shell == old(shell)
      ensures list == Deleted(old(list), entry)
      ensures size <= old(size) && backups - (nameheap + namessize) <= EXTENSION
    {
      hide At, Entries, Names, Sins, U32, Enc32, Patch, AllOk, Shell.Ok, Cut.View, Parts.Sits, SizeOk, Image, Cut.MidIn, Shut,
           Cut.NamesSize, Cut.Pt, Cut.Ok;
      ghost var x := list[entry];
      ghost var d := Cut(size, shell, list[..entry], [x], list[entry + 1..]);
      ghost var c := Without(d);
      assert d.List() == list;
      ImageCut(data[..], d);
      ShutHeap(entry, offset, d, x);
      ShutList(entry, offset, d, x);
      ShutTables(entry, d, x);
      NothingBetween(data[..], c);
      ImageCut(data[..], c);
      CutOk(c);
      assert c.View().Sits(data[..]) ==> c.View().In(data[..]) by { SitsIn(data[..], c.View()); }
      assert c.List() == Deleted(list, entry);
      list := Deleted(list, entry);
      Shrink();
    }

    method SlotOf(entry: nat, offset: nat) returns (slot: int)
      requires Valid() && entry < entries && offset == first + 28 * entry
      ensures slot == |list[entry].Slot()|
    {
      hide At, Entries, Names, Sins, U32, AllOk, Shell.Ok;
      NameRead(data[..], entry);
      assert list[entry].Ok() by { EntryOk(list, entry); }
      slot := Whole(U32(data[..], offset + 20) + 1);
    }

    /** Adds an entry, looks its name up and removes what is found: the same directory is left exactly
        when the name is read back whole, or nothing was added. */
    method AddFindRemove(alloc: nat, filename: Name, load: nat, exec: nat, len: nat, sin: nat, isdir: bool) returns (ok: bool)
      requires Valid() && CString(filename) && |filename| <= 255
      requires load < WORD && exec < WORD && len < WORD && sin < WORD
      requires Full(filename) && size < MAX_SIZE && size + EXTENSION <= alloc ==> 4 * entries + 8 <= EXTENSION
      modifies this, data
      ensures Valid() && shell == old(shell)
      ensures list == old(list) <==> !ok || Printable(filename)
    {
      hide Image, Inserted, Deleted, Match, Point, Printable;
      ok := AddEntry(alloc, filename, load, exec, len, sin, isdir);
      if ok {
        ghost var x := Made(filename, load, exec, len, sin, isdir);
        UndoInsert(old(list), x);
        InsertedAt(old(list), Point(filename, old(list)), x, 0);
        var found, entry, offset := FindEntry(filename);
        if entry < entries {
          RemoveEntry(entry, offset);
        }
      }
    }

    /** The new entry does not fit below the backup addresses. */
    ghost predicate Full(filename: Name)
      reads this
    {
      nameheap + 28 + namessize + Whole(|filename| + 1) > backups - 4
    }
  }

  lemma EntryOk(es: seq<DirEntry>, i: nat)
    requires AllOk(es) && i < |es|
    ensures es[i].Ok()
  {
  }

  lemma PatchNothing(f: seq<byte>, p: nat, q: nat)
    requires p <= |f| && q <= |f|
    ensures Patch(f, p, f[q..q]) == f
  {
  }

  lemma SitsIn(f: seq<byte>, v: Parts)
    ensures v.Sits(f) ==> v.In(f)
  {
  }

  lemma MaxSize(f: seq<byte>, size: nat, sh: Shell, es: seq<DirEntry>)
    requires Image(f, size, sh, es)
    ensures size <= MAX_SIZE && HeapAt(sh, |es|) + |Names(es)| <= BackupsAt(size, |es|)
  {
  }

  lemma ImageLength(f: seq<byte>, size: nat, sh: Shell, es: seq<DirEntry>)
    requires Image(f, size, sh, es)
    ensures size <= |f| && SizeOk(size) && Fits(size, sh, es)
  {
    AtTaken(f, size - 8, sh.tail);
  }

  /** Only the bytes below the size matter. */
  lemma ImagePrefix(f: seq<byte>, g: seq<byte>, size: nat, sh: Shell, es: seq<DirEntry>)
    requires Image(f, size, sh, es) && size <= |g| && size <= |f| && g[..size] == f[..size]
    ensures Image(g, size, sh, es)
  {
    hide At, Entries, Names, Sins, Enc32, AllOk;
    var h := HeapAt(sh, |es|);
    AtPrefix(f, g, size, 0, sh.lead);
    AtPrefix(f, g, size, 12, Enc32(size));
    AtPrefix(f, g, size, 16, Enc32(|es|));
    AtPrefix(f, g, size, 20, Enc32(|Names(es)|));
    AtPrefix(f, g, size, 24, sh.title);
    AtPrefix(f, g, size, sh.First(), Entries(es, 0));
    AtPrefix(f, g, size, h, Names(es));
    AtPrefix(f, g, size, BackupsAt(size, |es|), Sins(es));
    AtPrefix(f, g, size, size - 8, sh.tail);
  }

  lemma AtPrefix(f: seq<byte>, g: seq<byte>, n: nat, p: nat, d: seq<byte>)
    requires n <= |f| && n <= |g| && f[..n] == g[..n] && p + |d| <= n && At(f, p, d)
    ensures At(g, p, d)
  {
    assert g[p..p + |d|] == g[..n][p..p + |d|] == f[..n][p..p + |d|] == f[p..p + |d|];
  }

  lemma SlotSize(x: DirEntry)
    ensures |x.Slot()| == |x.name| + |x.pad|
  {
  }

  lemma PatchNext(f: seq<byte>, p: nat, a: seq<byte>, b: seq<byte>)
    requires p + |a| + |b| <= |f|
    ensures Patch(Patch(f, p, a), p + |a|, b) == Patch(f, p, a + b)
  {
  }
}
