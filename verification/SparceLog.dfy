/** The block log of a sparse file: a magic string, then records of a 64-bit address, a 32-bit size
    and that many bytes of data. */
module SparceLog {
  import opened Words

  const FREE_ADDR: nat := 0xFFFF_FFFF_FFFF_FFFF
  const HDR: nat := 12

  /** A record header and its data. */
  function Encode(addr: nat, data: seq<byte>): (e: seq<byte>)
    requires addr <= FREE_ADDR && |data| < WORD
    ensures |e| == HDR + |data|
  {
    Enc32(addr % WORD) + Enc32(addr / WORD) + Enc32(|data|) + data
  }

  function AddrAt(f: seq<byte>, p: nat): (a: nat)
    requires p + 8 <= |f|
  {
    U32(f, p) + WORD * U32(f, p + 4)
  }

  function SizeAt(f: seq<byte>, p: nat): (s: nat)
    requires p + HDR <= |f|
  {
    U32(f, p + 8)
  }

  datatype Rec = Rec(pos: nat, addr: nat, size: nat) {
    function Next(): nat { pos + HDR + size }
  }

  /** The bytes from p on are whole records. */
  ghost predicate Log(f: seq<byte>, p: nat)
    decreases |f| - p
  {
    p == |f| || (p + HDR <= |f| && p + HDR + SizeAt(f, p) <= |f| && Log(f, p + HDR + SizeAt(f, p)))
  }

  function Records(f: seq<byte>, p: nat): (rs: seq<Rec>)
    requires Log(f, p)
    decreases |f| - p
  {
    if p == |f| then []
    else [Rec(p, AddrAt(f, p), SizeAt(f, p))] + Records(f, p + HDR + SizeAt(f, p))
  }

  /** Records follow each other up to the end of the file. */
  lemma {:induction false} RecordsOrdered(f: seq<byte>, p: nat)
    requires Log(f, p)
    ensures forall i :: 0 <= i < |Records(f, p)| ==> p <= Records(f, p)[i].pos && Records(f, p)[i].Next() <= |f|
    ensures forall i, j :: 0 <= i < j < |Records(f, p)| ==> Records(f, p)[i].Next() <= Records(f, p)[j].pos
    decreases |f| - p
  {
    if p < |f| {
      RecordsOrdered(f, p + HDR + SizeAt(f, p));
    }
  }

  /** What a record says is what its bytes say. */
  lemma {:induction false} RecordAt(f: seq<byte>, p: nat, i: nat)
    requires Log(f, p) && i < |Records(f, p)|
    ensures var r := Records(f, p)[i];
            && p <= r.pos && r.pos + HDR <= |f| && Log(f, r.pos)
            && r.addr == AddrAt(f, r.pos) && r.size == SizeAt(f, r.pos)
            && Records(f, r.pos) == Records(f, p)[i..]
    decreases |f| - p
  {
    if i > 0 {
      RecordAt(f, p + HDR + SizeAt(f, p), i - 1);
      assert Records(f, p)[i..] == Records(f, p + HDR + SizeAt(f, p))[i - 1..];
    }
  }

  /** The size fields of the records rs stand in f as well. */
  ghost predicate SizesIn(f: seq<byte>, rs: seq<Rec>) {
    forall r :: r in rs ==> r.pos + HDR <= |f| && SizeAt(f, r.pos) == r.size
  }

  /** The records rs with the addresses that f holds for them. */
  function Readdress(f: seq<byte>, rs: seq<Rec>): (r: seq<Rec>)
    requires forall r :: r in rs ==> r.pos + HDR <= |f|
    ensures |r| == |rs|
  {
    if rs == [] then [] else [rs[0].(addr := AddrAt(f, rs[0].pos))] + Readdress(f, rs[1..])
  }

  lemma {:induction false} ReaddressAt(f: seq<byte>, rs: seq<Rec>, i: nat)
    requires (forall r :: r in rs ==> r.pos + HDR <= |f|) && i < |rs|
    ensures rs[i] in rs && Readdress(f, rs)[i] == rs[i].(addr := AddrAt(f, rs[i].pos))
    decreases |rs|
  {
    if i > 0 {
      ReaddressAt(f, rs[1..], i - 1);
    }
  }

  /** Changes that spare the size fields spare the shape of the log. */
  lemma {:induction false} SameShape(f: seq<byte>, f': seq<byte>, p: nat)
    requires Log(f, p) && |f'| == |f| && SizesIn(f', Records(f, p))
    ensures Log(f', p) && Records(f', p) == Readdress(f', Records(f, p))
    decreases |f| - p
  {
    if p < |f| {
      hide U32, AddrAt;
      var rs, q := Records(f, p), p + HDR + SizeAt(f, p);
      assert rs[0] == Rec(p, AddrAt(f, p), SizeAt(f, p)) && rs[0] in rs;
      assert rs[1..] == Records(f, q);
      SameShape(f, f', q);
    }
  }

  lemma EncodeFields(addr: nat, data: seq<byte>)
    requires addr <= FREE_ADDR && |data| < WORD
    ensures var e := Encode(addr, data);
            AddrAt(e, 0) == addr && SizeAt(e, 0) == |data| && e[HDR..] == data
  {
    hide U32, Enc32;
    var e := Encode(addr, data);
    Dec32(addr % WORD);
    Dec32(addr / WORD);
    Dec32(|data|);
    assert e[0..4] == Enc32(addr % WORD)[0..4];
    assert e[4..8] == Enc32(addr / WORD)[0..4];
    assert e[8..12] == Enc32(|data|)[0..4];
    U32Local(e, 0, Enc32(addr % WORD), 0);
    U32Local(e, 4, Enc32(addr / WORD), 0);
    U32Local(e, 8, Enc32(|data|), 0);
  }

  /** Appending a record to a log appends it to the records. */
  lemma {:induction false} RecordsAppend(f: seq<byte>, p: nat, addr: nat, data: seq<byte>)
    requires Log(f, p) && p <= |f| && addr <= FREE_ADDR && |data| < WORD
    ensures var f' := f + Encode(addr, data);
            Log(f', p) && Records(f', p) == Records(f, p) + [Rec(|f|, addr, |data|)]
    decreases |f| - p
  {
    hide U32, Encode;
    var e := Encode(addr, data);
    var f' := f + e;
    if p == |f| {
      EncodeFields(addr, data);
      Shifted(f, e);
      assert Log(f', |f'|);
    } else {
      var q := p + HDR + SizeAt(f, p);
      assert f[p..p + 4] == f'[p..p + 4] && f[p + 4..p + 8] == f'[p + 4..p + 8] && f[p + 8..p + 12] == f'[p + 8..p + 12];
      U32Local(f, p, f', p);
      U32Local(f, p + 4, f', p + 4);
      U32Local(f, p + 8, f', p + 8);
      RecordsAppend(f, q, addr, data);
    }
  }

  lemma Shifted(f: seq<byte>, e: seq<byte>)
    requires |e| >= HDR
    ensures AddrAt(f + e, |f|) == AddrAt(e, 0) && SizeAt(f + e, |f|) == SizeAt(e, 0)
  {
    hide U32;
    var g, n := f + e, |f|;
    assert g[n..n + 4] == e[0..4] && g[n + 4..n + 8] == e[4..8] && g[n + 8..n + 12] == e[8..12];
    U32Local(g, n, e, 0);
    U32Local(g, n + 4, e, 4);
    U32Local(g, n + 8, e, 8);
  }

  const FREE_WORDS: seq<byte> := Enc32(WORD - 1) + Enc32(WORD - 1)

  lemma FreeWords(f: seq<byte>, p: nat)
    requires p + 8 <= |f|
    ensures |FREE_WORDS| == 8 && AddrAt(Patch(f, p, FREE_WORDS), p) == FREE_ADDR
  {
    hide U32, Enc32;
    var g := Patch(f, p, FREE_WORDS);
    Dec32(WORD - 1);
    assert g[p..p + 4] == Enc32(WORD - 1)[0..4];
    assert g[p + 4..p + 8] == Enc32(WORD - 1)[0..4];
    U32Local(g, p, Enc32(WORD - 1), 0);
    U32Local(g, p + 4, Enc32(WORD - 1), 0);
  }

  /** Fields of record j that a patch does not touch. */
  lemma RecordSpared(f: seq<byte>, p: nat, at: nat, data: seq<byte>, j: nat)
    requires Log(f, p) && j < |Records(f, p)| && at + |data| <= |f|
    ensures var r, g := Records(f, p)[j], Patch(f, at, data);
            && r.pos + HDR <= |g|
            && (r.pos + HDR <= at || at + |data| <= r.pos + 8 ==> SizeAt(g, r.pos) == r.size)
            && (r.pos + 8 <= at || at + |data| <= r.pos ==> AddrAt(g, r.pos) == r.addr)
  {
    hide U32, Patch, Records;
    RecordAt(f, p, j);
    var r := Records(f, p)[j];
    if r.pos + HDR <= at || at + |data| <= r.pos + 8 {
      PatchSpares(f, at, data, r.pos + 8);
    }
    if r.pos + 8 <= at || at + |data| <= r.pos {
      PatchSpares(f, at, data, r.pos);
      PatchSpares(f, at, data, r.pos + 4);
    }
  }

  /** A patch that lies in record i, behind its size field or on its address field. */
  ghost predicate PatchesRecord(f: seq<byte>, p: nat, i: nat, at: nat, data: seq<byte>)
    requires Log(f, p) && i < |Records(f, p)|
  {
    var r := Records(f, p)[i];
    at + |data| <= |f| &&
    ((r.pos + HDR <= at && at + |data| <= r.Next()) || (at == r.pos && |data| == 8))
  }

  lemma PatchShape(f: seq<byte>, p: nat, i: nat, at: nat, data: seq<byte>)
    requires Log(f, p) && i < |Records(f, p)| && PatchesRecord(f, p, i, at, data)
    ensures var g, rs := Patch(f, at, data), Records(f, p);
            && SizesIn(g, rs)
            && forall j :: 0 <= j < |rs| && (j != i || at != rs[i].pos) ==> rs[j].pos + 8 <= |g| && AddrAt(g, rs[j].pos) == rs[j].addr
  {
    hide U32, Patch, Records, AddrAt, SizeAt, Log;
    var g, rs := Patch(f, at, data), Records(f, p);
    RecordsOrdered(f, p);
    forall j: nat | j < |rs|
      ensures rs[j].pos + HDR <= |g| && SizeAt(g, rs[j].pos) == rs[j].size
      ensures j != i || at != rs[i].pos ==> AddrAt(g, rs[j].pos) == rs[j].addr
    {
      RecordSpared(f, p, at, data, j);
      if j < i {
        assert rs[j].Next() <= rs[i].pos;
      } else if i < j {
        assert rs[i].Next() <= rs[j].pos;
      }
    }
  }

  /** A patch inside the data of record i changes no record. */
  lemma PatchData(f: seq<byte>, p: nat, i: nat, at: nat, data: seq<byte>)
    requires Log(f, p) && i < |Records(f, p)| && at + |data| <= |f|
    requires var r := Records(f, p)[i]; r.pos + HDR <= at && at + |data| <= r.Next()
    ensures Log(Patch(f, at, data), p) && Records(Patch(f, at, data), p) == Records(f, p)
  {
    hide U32, Patch, Records, AddrAt, SizeAt;
    var rs, g := Records(f, p), Patch(f, at, data);
    PatchShape(f, p, i, at, data);
    SameShape(f, g, p);
    forall j: nat | j < |rs| ensures Readdress(g, rs)[j] == rs[j] {
      ReaddressAt(g, rs, j);
    }
  }

  /** Overwriting the address of record i with all ones frees that record only. */
  lemma PatchAddr(f: seq<byte>, p: nat, i: nat)
    requires Log(f, p) && i < |Records(f, p)|
    ensures |FREE_WORDS| == 8 && Records(f, p)[i].pos + HDR <= |f|
    ensures var g := Patch(f, Records(f, p)[i].pos, FREE_WORDS);
            Log(g, p) && Records(g, p) == Records(f, p)[i := Records(f, p)[i].(addr := FREE_ADDR)]
  {
    hide U32, Enc32, Patch, FREE_WORDS, Records, AddrAt, SizeAt, Log;
    var rs := Records(f, p);
    RecordAt(f, p, i);
    FreeWords(f, rs[i].pos);
    var at := rs[i].pos;
    var g := Patch(f, at, FREE_WORDS);
    PatchShape(f, p, i, at, FREE_WORDS);
    SameShape(f, g, p);
    forall j: nat | j < |rs| ensures Readdress(g, rs)[j] == rs[i := rs[i].(addr := FREE_ADDR)][j] {
      ReaddressAt(g, rs, j);
    }
  }
}
