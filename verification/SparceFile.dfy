/** discreader/SparceFile.c: the sorted index of a sparse file, its binary chop, and reads and writes
    through it. */
module SparceFiles {
  import opened Words
  import opened SparceLog

  const MAGIC_LEN: nat := 8

  /** Add64_32: addresses are 64-bit numbers. */
  function Add64(addr: nat, size: nat): nat { (addr + size) % (FREE_ADDR + 1) }

  datatype Entry = Entry(addr: nat, end: nat, pos: nat)

  predicate LiveRec(r: Rec) { r.addr != FREE_ADDR }

  function EntryOf(r: Rec): Entry { Entry(r.addr, r.addr + r.size, r.pos) }

  ghost predicate Sorted(c: seq<Entry>) {
    forall i, j :: 0 <= i < j < |c| ==> c[i].addr <= c[j].addr
  }

  ghost predicate StrictlySorted(c: seq<Entry>) {
    forall i, j :: 0 <= i < j < |c| ==> c[i].addr < c[j].addr
  }

  /** The entry stands for a live record. */
  ghost predicate Backed(e: Entry, rs: seq<Rec>) {
    exists r :: r in rs && LiveRec(r) && e == EntryOf(r)
  }

  /** An entry with the record's address lies no earlier in the file. */
  ghost predicate Answered(r: Rec, c: seq<Entry>) {
    exists e :: e in c && e.addr == r.addr && e.pos >= r.pos
  }

  /** Every entry stands for a live record, and every live record is answered by an entry. */
  ghost predicate Covers(c: seq<Entry>, rs: seq<Rec>) {
    && (forall e :: e in c ==> Backed(e, rs))
    && (forall r :: r in rs && LiveRec(r) ==> Answered(r, c))
  }

  /** The index of the records: in address order, the last live record of every address. */
  ghost predicate IsIndex(c: seq<Entry>, rs: seq<Rec>) {
    StrictlySorted(c) && Covers(c, rs)
  }

  /** No live block runs over the end of the 64-bit addresses. */
  ghost predicate Bounded(rs: seq<Rec>) {
    forall r :: r in rs && LiveRec(r) ==> r.addr + r.size <= FREE_ADDR
  }

  lemma BoundedAppend(rs: seq<Rec>, i: nat, x: Rec)
    requires Bounded(rs) && x.addr + x.size <= FREE_ADDR
    ensures Bounded(rs + [x])
    ensures i < |rs| ==> Bounded(FreeRec(rs, i) + [x])
  {
  }

  ghost predicate PositionsDiffer(rs: seq<Rec>) {
    forall i, j :: 0 <= i < j < |rs| ==> rs[i].pos < rs[j].pos
  }

  // ----- There is one index only

  lemma RecOf(e: Entry, rs: seq<Rec>) returns (r: Rec)
    requires Backed(e, rs)
    ensures r in rs && LiveRec(r) && e == EntryOf(r)
  {
    r :| r in rs && LiveRec(r) && e == EntryOf(r);
  }

  lemma AnswerOf(r: Rec, c: seq<Entry>) returns (e: Entry)
    requires Answered(r, c)
    ensures e in c && e.addr == r.addr && e.pos >= r.pos
  {
    e :| e in c && e.addr == r.addr && e.pos >= r.pos;
  }

  lemma SubIndex(c: seq<Entry>, d: seq<Entry>, rs: seq<Rec>, e: Entry)
    requires IsIndex(c, rs) && IsIndex(d, rs) && PositionsDiffer(rs) && e in c
    ensures e in d
  {
    hide Backed, Answered, StrictlySorted, PositionsDiffer;
    var r := RecOf(e, rs);
    var f := AnswerOf(r, d);
    var q := RecOf(f, rs);
    var e' := AnswerOf(q, c);
    SameAddress(c, e, e');
    SamePosition(rs, r, q);
  }

  lemma SameAddress(c: seq<Entry>, e: Entry, f: Entry)
    requires StrictlySorted(c) && e in c && f in c && e.addr == f.addr
    ensures e == f
  {
    var i :| 0 <= i < |c| && c[i] == e;
    var j :| 0 <= j < |c| && c[j] == f;
  }

  lemma SamePosition(rs: seq<Rec>, r: Rec, q: Rec)
    requires PositionsDiffer(rs) && r in rs && q in rs && r.pos == q.pos
    ensures r == q
  {
    var i :| 0 <= i < |rs| && rs[i] == r;
    var j :| 0 <= j < |rs| && rs[j] == q;
  }

  lemma HeadIn(d: seq<Entry>)
    ensures d == [] || d[0] in d
  {
  }

  lemma FirstIsLeast(c: seq<Entry>, e: Entry)
    requires StrictlySorted(c) && e in c
    ensures c[0].addr <= e.addr && (e in c[1..] <==> e != c[0])
  {
    var i :| 0 <= i < |c| && c[i] == e;
    assert i > 0 ==> c[1..][i - 1] == e;
    if e in c[1..] {
      var j :| 0 <= j < |c[1..]| && c[1..][j] == e;
      assert c[j + 1] == e;
    }
  }

  lemma {:induction false} SameElements(c: seq<Entry>, d: seq<Entry>)
    requires StrictlySorted(c) && StrictlySorted(d) && forall e :: e in c <==> e in d
    ensures c == d
    decreases |c|
  {
    if c == [] {
      HeadIn(d);
    } else {
      assert c[0] in d && d != [];
      assert d[0] in c;
      FirstIsLeast(d, c[0]);
      FirstIsLeast(c, d[0]);
      SameAddress(d, c[0], d[0]);
      forall e ensures e in c[1..] <==> e in d[1..] {
        if e in c {
          FirstIsLeast(c, e);
          FirstIsLeast(d, e);
        }
      }
      SameElements(c[1..], d[1..]);
    }
  }

  /** Two indexes of the same log are equal, however they came about. */
  lemma IndexUnique(c: seq<Entry>, d: seq<Entry>, rs: seq<Rec>)
    requires IsIndex(c, rs) && IsIndex(d, rs) && PositionsDiffer(rs)
    ensures c == d
  {
    hide IsIndex;
    forall e ensures e in c <==> e in d {
      if e in c { SubIndex(c, d, rs, e); }
      if e in d { SubIndex(d, c, rs, e); }
    }
    assert StrictlySorted(c) && StrictlySorted(d) by { IndexSorted(c, rs); IndexSorted(d, rs); }
    SameElements(c, d);
  }

  lemma IndexBacked(c: seq<Entry>, rs: seq<Rec>, k: nat)
    requires IsIndex(c, rs) && k < |c|
    ensures Backed(c[k], rs)
  {
  }

  lemma IndexSorted(c: seq<Entry>, rs: seq<Rec>)
    requires IsIndex(c, rs)
    ensures StrictlySorted(c)
  {
  }

  // ----- What the index says about the disc

  /** Entry e holds all of the addresses from addr up to end. */
  predicate Holds(e: Entry, addr: nat, end: nat) {
    e.addr <= addr && end <= e.end
  }

  /** Blocks follow each other without overlap. */
  ghost predicate Separated(c: seq<Entry>) {
    forall i, j :: 0 <= i < j < |c| ==> c[i].end <= c[j].addr
  }

  /** The data of every entry lies in the file, inside its own record. */
  ghost predicate InFile(f: seq<byte>, c: seq<Entry>) {
    forall e :: e in c ==> e.addr <= e.end && e.pos + HDR + (e.end - e.addr) <= |f|
  }

  /** The sparse file holds byte b for disc address a. */
  ghost predicate ByteAt(f: seq<byte>, c: seq<Entry>, a: nat, b: byte) {
    exists e :: e in c && e.addr <= a < e.end && e.pos + HDR + (a - e.addr) < |f| && f[e.pos + HDR + (a - e.addr)] == b
  }

  /** The new file holds data from addr on, and what the old file held at all other addresses. */
  ghost predicate WrittenOver(f: seq<byte>, c: seq<Entry>, f': seq<byte>, c': seq<Entry>, addr: nat, data: seq<byte>) {
    forall a: nat, b: byte ::
      ByteAt(f', c', a, b) <==> if addr <= a < addr + |data| then b == data[a - addr] else ByteAt(f, c, a, b)
  }

  lemma RecordsOk(f: seq<byte>, p: nat)
    requires Log(f, p)
    ensures PositionsDiffer(Records(f, p))
  {
    RecordsOrdered(f, p);
  }

  lemma IndexInFile(f: seq<byte>, p: nat, c: seq<Entry>)
    requires Log(f, p) && IsIndex(c, Records(f, p))
    ensures InFile(f, c)
    ensures forall e :: e in c ==> e.pos >= p
  {
    hide Backed, Answered, StrictlySorted;
    RecordsOrdered(f, p);
    forall e | e in c ensures e.addr <= e.end && e.pos + HDR + (e.end - e.addr) <= |f| && e.pos >= p {
      var r := RecOf(e, Records(f, p));
      var i :| 0 <= i < |Records(f, p)| && Records(f, p)[i] == r;
    }
  }

  // ----- The index after a block was appended

  /** Position of the first entry whose address is not below addr. */
  ghost predicate Place(c: seq<Entry>, addr: nat, k: nat) {
    k <= |c| && (forall i :: 0 <= i < k ==> c[i].addr < addr) && (forall i :: k <= i < |c| ==> addr <= c[i].addr)
  }

  /** The index with the entry x put in its place k, instead of an entry with the same address. */
  function Put(c: seq<Entry>, k: nat, x: Entry): (r: seq<Entry>)
    requires k <= |c|
  {
    if k < |c| && c[k].addr == x.addr then c[k := x] else c[..k] + [x] + c[k..]
  }

  lemma PutReplaces(c: seq<Entry>, k: nat, x: Entry)
    requires StrictlySorted(c) && k < |c| && c[k].addr == x.addr
    ensures StrictlySorted(c[k := x])
    ensures forall e :: e in c[k := x] <==> e == x || (e in c && e.addr != x.addr)
  {
    var d := c[k := x];
    forall e | e in c && e.addr != x.addr ensures e in d {
      var i :| 0 <= i < |c| && c[i] == e;
      assert d[i] == e;
    }
    assert d[k] == x;
  }

  lemma PutInserts(c: seq<Entry>, k: nat, x: Entry)
    requires StrictlySorted(c) && Place(c, x.addr, k) && (k < |c| ==> c[k].addr != x.addr)
    ensures StrictlySorted(c[..k] + [x] + c[k..])
    ensures forall e :: e in c[..k] + [x] + c[k..] <==> e == x || (e in c && e.addr != x.addr)
  {
    NoEntry(c, k, x.addr);
    assert c == c[..k] + c[k..];
  }

  lemma PutMembers(c: seq<Entry>, k: nat, x: Entry)
    requires StrictlySorted(c) && Place(c, x.addr, k)
    ensures StrictlySorted(Put(c, k, x))
    ensures forall e :: e in Put(c, k, x) <==> e == x || (e in c && e.addr != x.addr)
  {
    hide StrictlySorted;
    if k < |c| && c[k].addr == x.addr {
      PutReplaces(c, k, x);
    } else {
      PutInserts(c, k, x);
    }
  }

  /** Records with the address of record i marked free. */
  function FreeRec(rs: seq<Rec>, i: nat): (r: seq<Rec>)
    requires i < |rs|
  {
    rs[i := rs[i].(addr := FREE_ADDR)]
  }

  /** Appending a live record under an address that the index does not have. */
  lemma AppendNew(c: seq<Entry>, rs: seq<Rec>, k: nat, x: Rec)
    requires IsIndex(c, rs) && LiveRec(x) && Place(c, x.addr, k) && (k < |c| ==> c[k].addr != x.addr)
    ensures IsIndex(Put(c, k, EntryOf(x)), rs + [x])
  {
    hide Backed, Answered, StrictlySorted, Put;
    var d := Put(c, k, EntryOf(x));
    PutMembers(c, k, EntryOf(x));
    NoEntry(c, k, x.addr);
    forall e | e in d ensures Backed(e, rs + [x]) {
      if e == EntryOf(x) {
        assert x in rs + [x];
        BackedBy(e, rs + [x], x);
      } else {
        var r := RecOf(e, rs);
        BackedBy(e, rs + [x], r);
      }
    }
    forall r | r in rs + [x] && LiveRec(r) ensures Answered(r, d) {
      if r in rs {
        var e := AnswerOf(r, c);
        AnsweredBy(r, d, e);
      } else {
        AnsweredBy(r, d, EntryOf(x));
      }
    }
  }

  lemma NoEntry(c: seq<Entry>, k: nat, addr: nat)
    requires StrictlySorted(c) && Place(c, addr, k) && (k < |c| ==> c[k].addr != addr)
    ensures forall e :: e in c ==> e.addr != addr
  {
    forall e | e in c ensures e.addr != addr {
      var i :| 0 <= i < |c| && c[i] == e;
    }
  }

  lemma BackedBy(e: Entry, rs: seq<Rec>, r: Rec)
    requires r in rs && LiveRec(r) && e == EntryOf(r)
    ensures Backed(e, rs)
  {
  }

  lemma AnsweredBy(r: Rec, c: seq<Entry>, e: Entry)
    requires e in c && e.addr == r.addr && e.pos >= r.pos
    ensures Answered(r, c)
  {
  }

  /** Appending a live record behind all others, with the record of its old entry marked free. */
  lemma AppendAgain(c: seq<Entry>, rs: seq<Rec>, k: nat, i: nat, x: Rec)
    requires IsIndex(c, rs) && PositionsDiffer(rs) && LiveRec(x)
    requires k < |c| && c[k].addr == x.addr && Place(c, x.addr, k)
    requires i < |rs| && LiveRec(rs[i]) && EntryOf(rs[i]) == c[k] && forall r :: r in rs ==> r.pos <= x.pos
    ensures IsIndex(Put(c, k, EntryOf(x)), FreeRec(rs, i) + [x])
  {
    hide Backed, Answered, StrictlySorted, Place, Put;
    var d, rs' := Put(c, k, EntryOf(x)), FreeRec(rs, i) + [x];
    PutMembers(c, k, EntryOf(x));
    forall e | e in d ensures Backed(e, rs') {
      if e == EntryOf(x) {
        assert rs'[|rs|] == x;
        BackedBy(e, rs', x);
      } else {
        var r := RecOf(e, rs);
        var j :| 0 <= j < |rs| && rs[j] == r;
        assert rs'[j] == r;
        BackedBy(e, rs', r);
      }
    }
    forall r | r in rs' && LiveRec(r) ensures Answered(r, d) {
      var j :| 0 <= j < |rs'| && rs'[j] == r;
      if r.addr == x.addr {
        assert r == x || r in rs;
        AnsweredBy(r, d, EntryOf(x));
      } else {
        assert r in rs;
        var e := AnswerOf(r, c);
        AnsweredBy(r, d, e);
      }
    }
  }

  // ----- Building the index

  /** Scanning one more record: a free one is passed over, a live one is added, and takes the place
      of the last entry if that has the same address. */
  lemma ScanStep(c: seq<Entry>, rs: seq<Rec>, n: nat, drop: bool)
    requires PositionsDiffer(rs) && n < |rs| && Covers(c, rs[..n])
    requires drop ==> c != [] && c[|c| - 1].addr == rs[n].addr
    ensures !LiveRec(rs[n]) ==> Covers(c, rs[..n + 1])
    ensures LiveRec(rs[n]) ==> Covers((if drop then c[..|c| - 1] else c) + [EntryOf(rs[n])], rs[..n + 1])
  {
    hide Backed, Answered;
    var x := rs[n];
    assert rs[..n + 1] == rs[..n] + [x];
    forall e | Backed(e, rs[..n]) ensures Backed(e, rs[..n + 1]) {
      var r := RecOf(e, rs[..n]);
      BackedBy(e, rs[..n + 1], r);
    }
    if LiveRec(x) {
      var d := (if drop then c[..|c| - 1] else c) + [EntryOf(x)];
      BackedBy(EntryOf(x), rs[..n + 1], x);
      assert d[|d| - 1] == EntryOf(x);
      forall e | e in d ensures Backed(e, rs[..n + 1]) {
        assert e == EntryOf(x) || e in c;
      }
      forall r | r in rs[..n + 1] && LiveRec(r) ensures Answered(r, d) {
        if r.addr == x.addr {
          AnsweredBy(r, d, EntryOf(x));
        } else {
          var e := AnswerOf(r, c);
          var i :| 0 <= i < |c| && c[i] == e;
          assert d[i] == e;
          AnsweredBy(r, d, e);
        }
      }
    }
  }

  /** Of two entries with the same address the one earlier in the file can go. */
  lemma DropOlder(c: seq<Entry>, rs: seq<Rec>, i: nat, keep: nat)
    requires Covers(c, rs) && i < |c| && keep < |c| && i != keep
    requires c[i].addr == c[keep].addr && c[i].pos <= c[keep].pos
    ensures Covers(c[..i] + c[i + 1..], rs)
  {
    hide Backed, Answered;
    var d := c[..i] + c[i + 1..];
    forall e | e in d ensures Backed(e, rs) {
      assert e in c;
    }
    forall r | r in rs && LiveRec(r) ensures Answered(r, d) {
      var e := AnswerOf(r, c);
      var j :| 0 <= j < |c| && c[j] == e;
      var j' := if j == i then keep else j;
      assert d[if j' < i then j' else j' - 1] == c[j'];
      AnsweredBy(r, d, c[j']);
    }
  }

  lemma CoversPermuted(c: seq<Entry>, d: seq<Entry>, rs: seq<Rec>)
    requires Covers(c, rs) && forall e :: e in c <==> e in d
    ensures Covers(d, rs)
  {
    hide Backed, Answered;
    forall r | r in rs && LiveRec(r) ensures Answered(r, d) {
      var e := AnswerOf(r, c);
      AnsweredBy(r, d, e);
    }
  }

  /** The qsort of the C library, with CmpCache: the same entries in address order. The order of
      entries with equal addresses does not matter to the caller. */
  method Qsort(c: seq<Entry>) returns (d: seq<Entry>)
    ensures Sorted(d) && multiset(d) == multiset(c)
    ensures |d| == |c| && forall e :: e in d <==> e in c
  {
    d := [];
    var i := 0;
    hide Sorted;
    assert Sorted(d) by { EmptySorted(); }
    while i < |c|
      invariant 0 <= i <= |c| && Sorted(d) && |d| == i
      invariant multiset(d) == multiset(c[..i])
    {
      var k := 0;
      while k < |d| && d[k].addr < c[i].addr
        invariant 0 <= k <= |d| && forall j :: 0 <= j < k ==> d[j].addr < c[i].addr
      {
        k := k + 1;
      }
      assert c[..i + 1] == c[..i] + [c[i]];
      SortedInsert(d, k, c[i]);
      OneMore(d, k, c[i]);
      d := d[..k] + [c[i]] + d[k..];
      i := i + 1;
    }
    assert c[..i] == c;
    SameMembers(c, d);
  }

  lemma EmptySorted()
    ensures Sorted([])
  {
  }

  lemma OneMore(d: seq<Entry>, k: nat, x: Entry)
    requires k <= |d|
    ensures multiset(d[..k] + [x] + d[k..]) == multiset(d) + multiset{x}
  {
    assert d == d[..k] + d[k..];
  }

  lemma SameMembers(c: seq<Entry>, d: seq<Entry>)
    requires multiset(c) == multiset(d)
    ensures forall e :: e in d <==> e in c
  {
    assert forall e :: e in d <==> e in multiset(d);
    assert forall e :: e in c <==> e in multiset(c);
  }

  lemma SortedInsert(d: seq<Entry>, k: nat, x: Entry)
    requires Sorted(d) && k <= |d| && (forall j :: 0 <= j < k ==> d[j].addr < x.addr)
    requires k < |d| ==> x.addr <= d[k].addr
    ensures Sorted(d[..k] + [x] + d[k..])
  {
  }

  /** Keeps, of entries with the same address, the one with the highest file position. */
  method Dedupe(c: seq<Entry>, ghost rs: seq<Rec>) returns (d: seq<Entry>)
    requires Sorted(c) && Covers(c, rs)
    ensures IsIndex(d, rs)
  {
    hide Covers;
    d := c;
    var i := 1;
    while i < |d|
      invariant 1 <= i && Sorted(d) && Covers(d, rs)
      invariant forall j, k :: 0 <= j < k < i && k < |d| ==> d[j].addr < d[k].addr
      decreases |d| - i
    {
      if d[i].addr == d[i - 1].addr {
        var del := if d[i].pos > d[i - 1].pos then i - 1 else i;
        DropOlder(d, rs, del, if del == i then i - 1 else i);
        d := d[..del] + d[del + 1..];
      } else {
        i := i + 1;
      }
    }
  }

  /** The record of an entry of the index. */
  lemma RecIndex(e: Entry, rs: seq<Rec>) returns (i: nat)
    requires Backed(e, rs)
    ensures i < |rs| && LiveRec(rs[i]) && EntryOf(rs[i]) == e
  {
    var r := RecOf(e, rs);
    i :| 0 <= i < |rs| && rs[i] == r;
  }

  class SparceFile {
    var file: seq<byte>
    var cache: seq<Entry>
    var indexed: bool       // the cache belongs to this file

    /** The file is a log, and the cache of an indexed file is its index. */
    ghost predicate Valid()
      reads this
    {
      && MAGIC_LEN <= |file| < WORD && Log(file, MAGIC_LEN) && Bounded(Records(file, MAGIC_LEN))
      && (indexed ==> IsIndex(cache, Records(file, MAGIC_LEN)))
    }

    constructor (file: seq<byte>)
      requires MAGIC_LEN <= |file| < WORD && Log(file, MAGIC_LEN) && Bounded(Records(file, MAGIC_LEN))
      ensures this.file == file && !indexed && Valid()
    {
      this.file, cache, indexed := file, [], false;
    }

    method GetBlockHdr(pos: nat) returns (addr: nat, size: nat)
      requires pos + HDR <= |file|
      ensures addr == AddrAt(file, pos) && size == SizeAt(file, pos)
    {
      addr, size := U32(file, pos) + WORD * U32(file, pos + 4), U32(file, pos + 8);
    }

    /** The first part of SparceFile_Find: reads all record headers, sorts them and drops duplicates. */
    method BuildIndex()
      requires Valid() && !indexed && |file| > MAGIC_LEN
      modifies this
      ensures Valid() && indexed && file == old(file)
    {
      hide U32, Covers, Sorted, StrictlySorted;
      indexed := true;
      cache := [];
      ghost var rs, n := Records(file, MAGIC_LEN), 0;
      RecordsOk(file, MAGIC_LEN);
      var readpos, again := MAGIC_LEN, true;
      assert rs[0..] == rs && rs[..0] == [];
      EmptyCovers();
      while again
        invariant indexed && file == old(file) && 0 <= n <= |rs| && readpos <= |file| && Log(file, readpos)
        invariant rs[n..] == Records(file, readpos) && Covers(cache, rs[..n])
        invariant again <==> readpos < |file|
        decreases |file| - readpos, again
      {
        var addr, size := GetBlockHdr(readpos);
        assert rs[n..][0] == rs[n] == Rec(readpos, addr, size) && rs[n..][1..] == rs[n + 1..];
        var drop := |cache| > 1 && addr == cache[|cache| - 1].addr;
        ScanStep(cache, rs, n, drop);
        if addr != FREE_ADDR {
          if drop {
            cache := cache[..|cache| - 1];
          }
          assert rs[n] in rs;
          cache := cache + [Entry(addr, Add64(addr, size), readpos)];
        }
        n := n + 1;
        readpos := readpos + HDR + size;
        again := readpos < |file|;
      }
      assert rs[..n] == rs;
      var sorted := Qsort(cache);
      CoversPermuted(cache, sorted, rs);
      cache := Dedupe(sorted, rs);
    }

    lemma EmptyCovers()
      ensures Covers([], [])
    {
    }

    /** Binary chop for an entry that holds addr up to end; the index of the entry, or -1. */
    method Chop(addr: nat, end: nat) returns (m: int)
      ensures -1 <= m < |cache| && (m >= 0 ==> Holds(cache[m], addr, end))
      ensures m < 0 && StrictlySorted(cache) && Separated(cache) && addr < end ==>
                forall e :: e in cache ==> !Holds(e, addr, end)
    {
      m := -1;
      if |cache| == 0 {
        return;
      }
      var first, last, again := 0, |cache|, true;
      while again
        invariant 0 <= first <= last <= |cache| && (again <==> first != last)
        invariant StrictlySorted(cache) && Separated(cache) && addr < end ==>
                    forall i :: 0 <= i < |cache| && !(first <= i < last) ==> !Holds(cache[i], addr, end)
        decreases last - first, again
      {
        var middle := first + (last - first) / 2;
        if addr >= cache[middle].addr && end <= cache[middle].end {
          return middle;
        } else if addr < cache[middle].addr {
          last := middle;
        } else {
          first := middle + 1;
        }
        again := first != last;
      }
    }

    /** File position of the data of addr, if one block holds all size bytes from addr on; 0 if not. */
    method Find(addr: nat, size: nat) returns (pos: nat, ghost e: Entry)
      requires Valid() && (!indexed ==> |file| > MAGIC_LEN) && addr + size <= FREE_ADDR
      modifies this
      ensures Valid() && indexed && file == old(file) && (old(indexed) ==> cache == old(cache))
      ensures pos != 0 ==> e in cache && Holds(e, addr, addr + size) && pos == e.pos + HDR + (addr - e.addr)
      ensures pos == 0 && Separated(cache) && size > 0 ==> forall e :: e in cache ==> !Holds(e, addr, addr + size)
    {
      hide Covers, StrictlySorted, Separated, Log, U32;
      if !indexed {
        BuildIndex();
      }
      IndexInFile(file, MAGIC_LEN, cache);
      IndexSorted(cache, Records(file, MAGIC_LEN));
      var m := Chop(addr, Add64(addr, size));
      pos, e := 0, Entry(0, 0, 0);
      if m >= 0 {
        e := cache[m];
        pos := cache[m].pos + HDR + (addr - cache[m].addr) % WORD;
      }
    }

    /** Adds a block at the end of the file. In an indexed file the entry of the same address, if
        there is one, is replaced and its old record is marked free. */
    method AppendBlock(addr: nat, data: seq<byte>) returns (ghost k: nat)
      requires Valid() && addr < FREE_ADDR && addr + |data| <= FREE_ADDR && |file| + HDR + |data| < WORD
      requires indexed ==> cache != []
      modifies this
      ensures Valid() && indexed == old(indexed)
      ensures !old(indexed) ==> file == old(file) + Encode(addr, data) && cache == old(cache)
      ensures old(indexed) ==>
                && Place(old(cache), addr, k)
                && cache == Put(old(cache), k, Entry(addr, addr + |data|, |old(file)|))
                && |file| == |old(file)| + HDR + |data|
                && file[|old(file)| + HDR..] == data
                && (forall i :: 0 <= i < |old(file)| && !(k < |old(cache)| && old(cache)[k].addr == addr && old(cache)[k].pos <= i < old(cache)[k].pos + 8)
                      ==> file[i] == old(file)[i])
    {
      hide Covers, U32, Enc32, FREE_WORDS, StrictlySorted, Backed, Answered, Put, PositionsDiffer, Bounded, IsIndex, Log, Records;
      var pos := |file|;
      k := 0;
      ghost var x, rs := Rec(pos, addr, |data|), Records(file, MAGIC_LEN);
      RecordsOk(file, MAGIC_LEN);
      RecordsOrdered(file, MAGIC_LEN);
      EncodeFields(addr, data);
      BoundedAppend(rs, |rs|, x);
      if !indexed {
        RecordsAppend(file, MAGIC_LEN, addr, data);
        file := file + Encode(addr, data);
        return;
      }
      ghost var c := cache;
      IndexSorted(c, rs);
      var first, exact := InsertionPoint(addr);
      k := first;
      var entry := Entry(addr, Add64(addr, |data|), pos);
      if !exact {
        AppendNew(c, rs, k, x);
        RecordsAppend(file, MAGIC_LEN, addr, data);
        cache := cache[..first] + [entry] + cache[first..];
      } else {
        IndexBacked(c, rs, k);
        ghost var i := RecIndex(c[k], rs);
        AppendAgain(c, rs, k, i, x);
        BoundedAppend(rs, i, x);
        PatchAddr(file, MAGIC_LEN, i);
        file := Patch(file, cache[first].pos, FREE_WORDS);
        RecordsAppend(file, MAGIC_LEN, addr, data);
        cache := cache[first := entry];
      }
      assert cache == Put(c, k, EntryOf(x)) by { PutIs(c, k, EntryOf(x)); }
      file := file + Encode(addr, data);
    }

    lemma PutIs(c: seq<Entry>, k: nat, x: Entry)
      requires k <= |c|
      ensures Put(c, k, x) == if k < |c| && c[k].addr == x.addr then c[k := x] else c[..k] + [x] + c[k..]
    {
    }

    /** Binary cut for the place of an address, and whether the entry there has this address. */
    method InsertionPoint(addr: nat) returns (first: nat, exact: bool)
      requires cache != [] && StrictlySorted(cache)
      ensures Place(cache, addr, first)
      ensures exact <==> first < |cache| && cache[first].addr == addr
    {
      var last, again := |cache|, true;
      first, exact := 0, false;
      while again
        invariant 0 <= first <= last <= |cache| && (again <==> first != last)
        invariant !exact ==> forall i :: 0 <= i < first ==> cache[i].addr < addr
        invariant !exact ==> forall i :: last <= i < |cache| ==> addr < cache[i].addr
        invariant exact ==> first == last < |cache| && cache[first].addr == addr
        decreases last - first, again
      {
        var middle := first + (last - first) / 2;
        if addr == cache[middle].addr {
          first, last, exact := middle, middle, true;
        } else if addr < cache[middle].addr {
          last := middle;
        } else {
          first := middle + 1;
        }
        again := first != last;
      }
    }

    /** Writes data: into the block that holds its addresses, or else as a new block. The file then
        holds data at its addresses and what it held before everywhere else. index is the index of
        the file, which is in the cache already if the file is indexed. */
    method Write(addr: nat, data: seq<byte>, ghost index: seq<Entry>)
      requires Valid() && IsIndex(index, Records(file, MAGIC_LEN)) && index != [] && Separated(index)
      requires addr < FREE_ADDR && data != [] && addr + |data| <= FREE_ADDR && |file| + HDR + |data| < WORD
      requires Fits(index, addr, addr + |data|)
      modifies this
      ensures Valid() && indexed && cache != [] && Separated(cache)
      ensures WrittenOver(old(file), index, file, cache, addr, data)
    {
      hide Covers, StrictlySorted, Separated, U32, Backed, Answered, Log, ByteAt, Bounded, IsIndex;
      ghost var f, c := file, index;
      NotEmpty(file, index);
      RecordsOk(file, MAGIC_LEN);
      var pos;
      ghost var e;
      pos, e := Find(addr, |data|);
      IndexUnique(cache, index, Records(file, MAGIC_LEN));
      IndexInFile(file, MAGIC_LEN, cache);
      if pos != 0 {
        InPlace(file, cache, e, pos, data);
        file := Patch(file, pos, data);
        Overwritten(f, cache, e, addr, data);
      } else {
        ghost var k := AppendBlock(addr, data);
        Appended(f, c, file, cache, k, addr, data);
      }
    }

    /** A file with an index entry has a record. */
    lemma NotEmpty(file: seq<byte>, index: seq<Entry>)
      requires MAGIC_LEN <= |file| && Log(file, MAGIC_LEN) && IsIndex(index, Records(file, MAGIC_LEN)) && index != []
      ensures |file| > MAGIC_LEN
    {
      var r := RecOf(index[0], Records(file, MAGIC_LEN));
    }

    /** Reads size bytes: those last written if one block holds all of them, zeros otherwise. */
    method Read(addr: nat, size: nat) returns (data: seq<byte>, ghost found: bool)
      requires Valid() && (!indexed ==> |file| > MAGIC_LEN) && addr + size <= FREE_ADDR
      modifies this
      ensures Valid() && indexed && file == old(file) && (old(indexed) ==> cache == old(cache))
      ensures |data| == size
      ensures Separated(cache) && size > 0 ==> (found <==> exists e :: e in cache && Holds(e, addr, addr + size))
      ensures found ==> forall i :: 0 <= i < size ==> ByteAt(file, cache, addr + i, data[i])
      ensures !found ==> forall i :: 0 <= i < size ==> data[i] == 0
    {
      hide Covers, StrictlySorted, Separated, U32, Backed, Answered, Log, ByteAt;
      data := seq(size, i => 0);
      var pos;
      ghost var e;
      pos, e := Find(addr, size);
      found := pos != 0;
      if pos == 0 {
        return;
      }
      IndexInFile(file, MAGIC_LEN, cache);
      data := file[pos..pos + size];
      forall i | 0 <= i < size ensures ByteAt(file, cache, addr + i, data[i]) {
        ByteOfEntry(file, cache, e, addr + i);
      }
    }
  }

  /** One block holds the range, or it keeps clear of every block with another address. */
  ghost predicate Fits(c: seq<Entry>, addr: nat, end: nat) {
    || (exists e :: e in c && Holds(e, addr, end))
    || (forall e :: e in c ==> e.addr == addr || e.end <= addr || end <= e.addr)
  }

  lemma ByteOfEntry(f: seq<byte>, c: seq<Entry>, e: Entry, a: nat)
    requires InFile(f, c) && e in c && e.addr <= a < e.end
    ensures e.pos + HDR + (a - e.addr) < |f| && ByteAt(f, c, a, f[e.pos + HDR + (a - e.addr)])
  {
  }

  /** With separated blocks no address has two bytes. */
  lemma OneByte(f: seq<byte>, c: seq<Entry>, a: nat, b: byte, b': byte)
    requires Separated(c) && ByteAt(f, c, a, b) && ByteAt(f, c, a, b')
    ensures b == b'
  {
    var e :| e in c && e.addr <= a < e.end && e.pos + HDR + (a - e.addr) < |f| && f[e.pos + HDR + (a - e.addr)] == b;
    var d :| d in c && d.addr <= a < d.end && d.pos + HDR + (a - d.addr) < |f| && f[d.pos + HDR + (a - d.addr)] == b';
    OneHolder(c, e, d, a);
  }

  lemma OneHolder(c: seq<Entry>, e: Entry, d: Entry, a: nat)
    requires Separated(c) && e in c && d in c && e.addr <= a < e.end && d.addr <= a < d.end
    ensures e == d
  {
    var i :| 0 <= i < |c| && c[i] == e;
    var j :| 0 <= j < |c| && c[j] == d;
  }

  // ----- What writing does to the bytes

  /** End of an entry's record in the file. */
  function Next(e: Entry): int { e.pos + HDR + (e.end - e.addr) }

  /** Different entries have records that do not overlap. */
  lemma EntriesApart(f: seq<byte>, p: nat, c: seq<Entry>, d: Entry, e: Entry)
    requires Log(f, p) && IsIndex(c, Records(f, p)) && d in c && e in c && d != e
    ensures Next(d) <= e.pos || Next(e) <= d.pos
  {
    hide Backed, Answered, StrictlySorted, Records, Log;
    var rs := Records(f, p);
    assert Backed(d, rs) && Backed(e, rs);
    RecordsOrdered(f, p);
    var i := RecIndex(d, rs);
    var j := RecIndex(e, rs);
    assert i < j ==> rs[i].Next() <= rs[j].pos;
    assert j < i ==> rs[j].Next() <= rs[i].pos;
  }

  /** Data written inside the block of an entry changes no record. */
  lemma InPlace(f: seq<byte>, c: seq<Entry>, e: Entry, pos: nat, data: seq<byte>)
    requires Log(f, MAGIC_LEN) && IsIndex(c, Records(f, MAGIC_LEN)) && e in c
    requires e.pos + HDR <= pos && pos + |data| <= Next(e)
    ensures pos + |data| <= |f| && Log(Patch(f, pos, data), MAGIC_LEN)
    ensures Records(Patch(f, pos, data), MAGIC_LEN) == Records(f, MAGIC_LEN)
  {
    hide Backed, Answered, StrictlySorted, Records, Log, Patch;
    var rs := Records(f, MAGIC_LEN);
    assert Backed(e, rs);
    var i := RecIndex(e, rs);
    RecordsOrdered(f, MAGIC_LEN);
    PatchData(f, MAGIC_LEN, i, pos, data);
  }

  /** Entry d holds byte b for address a. */
  ghost predicate EntryByte(f: seq<byte>, d: Entry, a: nat, b: byte) {
    d.addr <= a < d.end && d.pos + HDR + (a - d.addr) < |f| && f[d.pos + HDR + (a - d.addr)] == b
  }

  lemma HolderOf(f: seq<byte>, c: seq<Entry>, a: nat, b: byte) returns (d: Entry)
    requires ByteAt(f, c, a, b)
    ensures d in c && EntryByte(f, d, a, b)
  {
    d :| d in c && d.addr <= a < d.end && d.pos + HDR + (a - d.addr) < |f| && f[d.pos + HDR + (a - d.addr)] == b;
  }

  lemma HeldBy(f: seq<byte>, c: seq<Entry>, d: Entry, a: nat, b: byte)
    requires d in c && EntryByte(f, d, a, b)
    ensures ByteAt(f, c, a, b)
  {
  }

  /** Overwriting part of a block. */
  lemma Overwritten(f: seq<byte>, c: seq<Entry>, e: Entry, addr: nat, data: seq<byte>)
    requires Log(f, MAGIC_LEN) && IsIndex(c, Records(f, MAGIC_LEN)) && Separated(c) && InFile(f, c)
    requires e in c && Holds(e, addr, addr + |data|)
    ensures var pos := e.pos + HDR + (addr - e.addr);
            && pos + |data| <= |f|
            && WrittenOver(f, c, Patch(f, pos, data), c, addr, data)
  {
    hide Backed, Answered, StrictlySorted, Records, Log, Patch, ByteAt, Separated, IsIndex;
    var pos := e.pos + HDR + (addr - e.addr);
    assert pos + |data| <= |f|;
    var g := Patch(f, pos, data);
    forall a: nat, b: byte
      ensures ByteAt(g, c, a, b) <==> if addr <= a < addr + |data| then b == data[a - addr] else ByteAt(f, c, a, b)
    {
      if addr <= a < addr + |data| {
        HeldBy(g, c, e, a, data[a - addr]);
        if ByteAt(g, c, a, b) {
          var d := HolderOf(g, c, a, b);
          OneHolder(c, e, d, a);
        }
      } else {
        if ByteAt(g, c, a, b) {
          var d := HolderOf(g, c, a, b);
          OutsidePatch(f, c, e, d, addr, data, a);
          HeldBy(f, c, d, a, b);
        }
        if ByteAt(f, c, a, b) {
          var d := HolderOf(f, c, a, b);
          OutsidePatch(f, c, e, d, addr, data, a);
          HeldBy(g, c, d, a, b);
        }
      }
    }
  }

  /** The byte of an address outside the written range stays. */
  lemma OutsidePatch(f: seq<byte>, c: seq<Entry>, e: Entry, d: Entry, addr: nat, data: seq<byte>, a: nat)
    requires Log(f, MAGIC_LEN) && IsIndex(c, Records(f, MAGIC_LEN)) && InFile(f, c)
    requires e in c && d in c && Holds(e, addr, addr + |data|) && d.addr <= a < d.end && !(addr <= a < addr + |data|)
    ensures var pos, q := e.pos + HDR + (addr - e.addr), d.pos + HDR + (a - d.addr);
            pos + |data| <= |f| && q < |f| && Patch(f, pos, data)[q] == f[q]
  {
    hide IsIndex, Records, Log;
    if d != e {
      EntriesApart(f, MAGIC_LEN, c, d, e);
    }
  }

  /** Appending a block that keeps clear of the others, and is longer than the one it replaces. */
  lemma Appended(f: seq<byte>, c: seq<Entry>, f': seq<byte>, c': seq<Entry>, k: nat, addr: nat, data: seq<byte>)
    requires Log(f, MAGIC_LEN) && IsIndex(c, Records(f, MAGIC_LEN)) && Separated(c) && InFile(f, c) && Place(c, addr, k)
    requires data != [] && c' == Put(c, k, Entry(addr, addr + |data|, |f|))
    requires forall e :: e in c ==> if e.addr == addr then e.end <= addr + |data| else e.end <= addr || addr + |data| <= e.addr
    requires |f'| == |f| + HDR + |data| && f'[|f| + HDR..] == data
    requires forall i :: 0 <= i < |f| && !(k < |c| && c[k].addr == addr && c[k].pos <= i < c[k].pos + 8) ==> f'[i] == f[i]
    ensures Separated(c')
    ensures WrittenOver(f, c, f', c', addr, data)
  {
    hide Backed, Answered, StrictlySorted, Records, Log, ByteAt, Separated, IsIndex, Put, Place;
    var x := Entry(addr, addr + |data|, |f|);
    IndexSorted(c, Records(f, MAGIC_LEN));
    PutMembers(c, k, x);
    PutSeparated(c, k, x);
    forall a: nat, b: byte
      ensures ByteAt(f', c', a, b) <==> if addr <= a < addr + |data| then b == data[a - addr] else ByteAt(f, c, a, b)
    {
      if addr <= a < addr + |data| {
        assert f'[|f| + HDR + (a - addr)] == f'[|f| + HDR..][a - addr];
        HeldBy(f', c', x, a, data[a - addr]);
        if ByteAt(f', c', a, b) {
          OneByte(f', c', a, b, data[a - addr]);
        }
      } else {
        if ByteAt(f', c', a, b) {
          var d := HolderOf(f', c', a, b);
          KeptByte(f, c, f', k, addr, d, a);
          HeldBy(f, c, d, a, b);
        }
        if ByteAt(f, c, a, b) {
          var d := HolderOf(f, c, a, b);
          KeptByte(f, c, f', k, addr, d, a);
          HeldBy(f', c', d, a, b);
        }
      }
    }
  }

  /** An entry with another address keeps its bytes when a block is appended. */
  lemma KeptByte(f: seq<byte>, c: seq<Entry>, f': seq<byte>, k: nat, addr: nat, d: Entry, a: nat)
    requires Log(f, MAGIC_LEN) && IsIndex(c, Records(f, MAGIC_LEN)) && InFile(f, c)
    requires d in c && d.addr != addr && d.addr <= a < d.end && |f| <= |f'|
    requires forall i :: 0 <= i < |f| && !(k < |c| && c[k].addr == addr && c[k].pos <= i < c[k].pos + 8) ==> f'[i] == f[i]
    ensures var q := d.pos + HDR + (a - d.addr); q < |f| && f'[q] == f[q]
  {
    hide IsIndex, Records, Log;
    if k < |c| && c[k].addr == addr {
      EntriesApart(f, MAGIC_LEN, c, d, c[k]);
    }
  }

  lemma PutSeparated(c: seq<Entry>, k: nat, x: Entry)
    requires StrictlySorted(c) && Separated(c) && Place(c, x.addr, k)
    requires forall e :: e in c ==> e.addr == x.addr || e.end <= x.addr || x.end <= e.addr
    requires x.addr < x.end && forall e :: e in c ==> e.addr <= e.end
    ensures Separated(Put(c, k, x))
  {
    var h := if k < |c| && c[k].addr == x.addr then k + 1 else k;
    forall i | 0 <= i < k ensures c[i].end <= x.addr {
      assert c[i] in c;
    }
    forall i | h <= i < |c| ensures x.end <= c[i].addr {
      assert c[i] in c;
    }
    assert Put(c, k, x) == c[..k] + [x] + c[h..];
    Joined(c, k, h, x);
  }

  lemma Joined(c: seq<Entry>, k: nat, h: nat, x: Entry)
    requires Separated(c) && k <= h <= |c|
    requires forall i :: 0 <= i < k ==> c[i].end <= x.addr
    requires forall i :: h <= i < |c| ==> x.end <= c[i].addr
    ensures Separated(c[..k] + [x] + c[h..])
  {
  }
}
