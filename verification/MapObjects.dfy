/** The chunk lists of objects: what AddID builds from the used fragments in scan order. */
module MapObjects {
  import opened Arithmetic

  datatype Chunk = Chunk(zone: nat, start: nat, len: nat)

  /** A used fragment of the disc, as AddID receives it. */
  datatype Used = Used(id: nat, chunk: Chunk)

  type Store = map<nat, seq<Chunk>>

  /** The zone whose share of the ids contains id. */
  function HomeZone(id: nat, idsPz: nat): (z: nat)
    requires idsPz > 0
  {
    id / idsPz
  }

  /** The range test of AddID singles out the home zone. */
  lemma HomeZoneTest(id: nat, zone: nat, idsPz: nat)
    requires idsPz > 0
    ensures zone * idsPz <= id < zone * idsPz + idsPz <==> zone == HomeZone(id, idsPz)
  {
    var z := id / idsPz;
    assert id == z * idsPz + id % idsPz;
    if z < zone {
      MulGap(z, zone, idsPz);
    } else if zone < z {
      MulGap(zone, z, idsPz);
    }
  }

  /** Length of the first stretch of a list in which zone numbers do not fall. */
  function RunLength(l: seq<Chunk>): (n: nat)
    requires l != []
    ensures 1 <= n <= |l|
    decreases |l|
  {
    if |l| > 1 && l[1].zone >= l[0].zone then 1 + RunLength(l[1..]) else 1
  }

  lemma {:induction false} RunLengthIs(l: seq<Chunk>, n: nat)
    requires 1 <= n <= |l|
    requires forall i, j :: 0 <= i < j < n ==> l[i].zone <= l[j].zone
    requires n < |l| ==> l[n].zone < l[n - 1].zone
    ensures RunLength(l) == n
    decreases |l|
  {
    if n > 1 {
      RunLengthIs(l[1..], n - 1);
    }
  }

  /** The list with c put in: at the head if c is the first chunk found in the home zone, otherwise
      behind the first stretch of rising zones. */
  function Insert(l: seq<Chunk>, c: Chunk, home: nat): (r: seq<Chunk>)
    ensures r != []
  {
    if l == [] then [c]
    else if c.zone == home && l[0].zone != c.zone then [c] + l
    else l[..RunLength(l)] + [c] + l[RunLength(l)..]
  }

  function Chunks(s: Store, id: nat): (l: seq<Chunk>) {
    if id in s then s[id] else []
  }

  function Add(s: Store, u: Used, idsPz: nat): (r: Store)
    requires idsPz > 0
  {
    s[u.id := Insert(Chunks(s, u.id), u.chunk, HomeZone(u.id, idsPz))]
  }

  /** The store after AddID was called for each of us in turn. */
  function Build(us: seq<Used>, idsPz: nat): (s: Store)
    requires idsPz > 0
    decreases |us|
  {
    if us == [] then map[] else Add(Build(us[..|us| - 1], idsPz), us[|us| - 1], idsPz)
  }

  /** The chunks of one id, in scan order. */
  function Select(us: seq<Used>, id: nat): (cs: seq<Chunk>)
    decreases |us|
  {
    if us == [] then []
    else
      var last := us[|us| - 1];
      Select(us[..|us| - 1], id) + (if last.id == id then [last.chunk] else [])
  }

  function InsertAll(cs: seq<Chunk>, home: nat): (l: seq<Chunk>)
    decreases |cs|
  {
    if cs == [] then []
    else Insert(InsertAll(cs[..|cs| - 1], home), cs[|cs| - 1], home)
  }

  lemma {:induction false} BuildNonEmpty(us: seq<Used>, idsPz: nat)
    requires idsPz > 0
    ensures forall id :: id in Build(us, idsPz) ==> Build(us, idsPz)[id] != []
    decreases |us|
  {
    if us != [] {
      BuildNonEmpty(us[..|us| - 1], idsPz);
    }
  }

  // ----- Each list depends on the fragments of its own id

  lemma {:induction false} BuildSelect(us: seq<Used>, idsPz: nat, id: nat)
    requires idsPz > 0
    ensures Chunks(Build(us, idsPz), id) == InsertAll(Select(us, id), HomeZone(id, idsPz))
    ensures id in Build(us, idsPz) <==> Select(us, id) != []
    decreases |us|
  {
    hide Insert, HomeZone;
    if us != [] {
      var n := |us| - 1;
      BuildSelect(us[..n], idsPz, id);
      var cs := Select(us[..n], id);
      if us[n].id == id {
        assert (cs + [us[n].chunk])[..|cs|] == cs;
        assert InsertAll(cs + [us[n].chunk], HomeZone(id, idsPz)) ==
               Insert(InsertAll(cs, HomeZone(id, idsPz)), us[n].chunk, HomeZone(id, idsPz));
      } else {
        assert cs + [] == cs;
      }
    }
  }

  lemma {:induction false} SelectAppend(a: seq<Used>, b: seq<Used>, id: nat)
    ensures Select(a + b, id) == Select(a, id) + Select(b, id)
    decreases |b|
  {
    if b == [] {
      assert a + b == a;
    } else {
      var n := |b| - 1;
      assert (a + b)[..|a + b| - 1] == a + b[..n];
      SelectAppend(a, b[..n], id);
    }
  }

  /** A fragment with an id of its own, anywhere in the scan, only adds an object. */
  lemma BuildFresh(a: seq<Used>, u: Used, b: seq<Used>, idsPz: nat)
    requires idsPz > 0 && u.id !in Build(a + b, idsPz)
    ensures Build(a + [u] + b, idsPz) == Build(a + b, idsPz)[u.id := [u.chunk]]
  {
    hide Build, Insert, HomeZone;
    var s, s' := Build(a + b, idsPz), Build(a + [u] + b, idsPz);
    forall id: nat
      ensures id in s' <==> id in s || id == u.id
      ensures id in s' ==> s'[id] == if id == u.id then [u.chunk] else s[id]
    {
      BuildSelect(a + b, idsPz, id);
      BuildSelect(a + [u] + b, idsPz, id);
      SelectFresh(a, u, b, id);
      assert InsertAll([u.chunk], HomeZone(id, idsPz)) == Insert([], u.chunk, HomeZone(id, idsPz));
      InsertEmpty(u.chunk, HomeZone(id, idsPz));
    }
  }

  lemma InsertEmpty(c: Chunk, home: nat)
    ensures Insert([], c, home) == [c]
  {
  }

  lemma SelectFresh(a: seq<Used>, u: Used, b: seq<Used>, id: nat)
    ensures id != u.id ==> Select(a + [u] + b, id) == Select(a + b, id)
    ensures id == u.id && Select(a + b, id) == [] ==> Select(a + [u] + b, id) == [u.chunk]
  {
    SelectAppend(a, b, id);
    SelectAppend(a, [u], id);
    SelectAppend(a + [u], b, id);
    assert Select([u], id) == if u.id == id then [u.chunk] else [];
  }

  // ----- The order of the chunks

  ghost predicate Ascending(cs: seq<Chunk>) {
    forall i, j :: 0 <= i < j < |cs| ==> cs[i].zone <= cs[j].zone
  }

  /** The first chunk in the home zone, or the length of the list if there is none. */
  function FirstHome(cs: seq<Chunk>, home: nat): (n: nat)
    ensures n <= |cs|
    ensures n < |cs| ==> cs[n].zone == home
    ensures forall i :: 0 <= i < n ==> cs[i].zone != home
    decreases |cs|
  {
    if cs == [] || cs[0].zone == home then 0 else 1 + FirstHome(cs[1..], home)
  }

  function Rotate(cs: seq<Chunk>, n: nat): (r: seq<Chunk>)
    requires n <= |cs|
  {
    cs[n..] + cs[..n]
  }

  /** Putting the next chunk of the scan in a list that has not met its home zone yet. */
  lemma InsertBeforeHome(cs: seq<Chunk>, c: Chunk, home: nat)
    requires Ascending(cs + [c]) && FirstHome(cs, home) == |cs|
    ensures Insert(cs, c, home) == if c.zone == home then [c] + cs else cs + [c]
  {
    var t := cs + [c];
    assert forall i :: 0 <= i < |cs| ==> t[i] == cs[i];
    if cs != [] {
      RunLengthIs(cs, |cs|);
    }
  }

  /** Putting the next chunk of the scan in a list that begins with its home zone. */
  lemma InsertAfterHome(cs: seq<Chunk>, c: Chunk, home: nat, n: nat)
    requires Ascending(cs + [c]) && n == FirstHome(cs, home) && n < |cs|
    ensures Insert(Rotate(cs, n), c, home) == Rotate(cs + [c], n)
  {
    var t, l := cs + [c], Rotate(cs, n);
    assert forall i :: 0 <= i < |cs| ==> t[i] == cs[i];
    assert t[|cs|] == c && t[n] == cs[n];
    assert forall i :: 0 <= i < |cs| - n ==> l[i] == cs[n + i];
    if n > 0 {
      assert l[|cs| - n] == cs[0] && l[|cs| - n - 1] == cs[|cs| - 1];
      assert t[0].zone <= t[n].zone <= t[|cs| - 1].zone;
    }
    RunLengthIs(l, |cs| - n);
    assert l[..|cs| - n] == cs[n..] && l[|cs| - n..] == cs[..n];
    assert t[n..] == cs[n..] + [c] && t[..n] == cs[..n];
  }

  lemma {:induction false} FirstHomeIs(cs: seq<Chunk>, home: nat, n: nat)
    requires n <= |cs|
    requires n < |cs| ==> cs[n].zone == home
    requires forall i :: 0 <= i < n ==> cs[i].zone != home
    ensures FirstHome(cs, home) == n
    decreases |cs|
  {
    if n > 0 {
      FirstHomeIs(cs[1..], home, n - 1);
    }
  }

  /** One more chunk of the scan keeps the list rotated. */
  lemma RotateStep(q: seq<Chunk>, c: Chunk, home: nat)
    requires Ascending(q + [c])
    ensures Insert(Rotate(q, FirstHome(q, home)), c, home) == Rotate(q + [c], FirstHome(q + [c], home))
  {
    hide Insert, FirstHome, Ascending;
    var n, k, cs := FirstHome(q, home), |q|, q + [c];
    assert forall i :: 0 <= i < k ==> cs[i] == q[i];
    if n < k {
      InsertAfterHome(q, c, home, n);
      FirstHomeIs(cs, home, n);
    } else {
      assert Rotate(q, k) == q;
      InsertBeforeHome(q, c, home);
      FirstHomeIs(cs, home, if c.zone == home then k else k + 1);
      assert cs[k..] == [c] && cs[..k] == q && cs[k + 1..] == [];
    }
  }

  /** After an ascending scan the chunk list is the disc-order list, rotated to begin with its first
      chunk in the home zone; a list without such a chunk stays in disc order. */
  lemma {:induction false} InsertAllRotates(cs: seq<Chunk>, home: nat)
    requires Ascending(cs)
    ensures InsertAll(cs, home) == Rotate(cs, FirstHome(cs, home))
    decreases |cs|
  {
    if cs != [] {
      hide Insert, FirstHome;
      var k := |cs| - 1;
      InsertAllRotates(cs[..k], home);
      assert cs == cs[..k] + [cs[k]];
      RotateStep(cs[..k], cs[k], home);
    }
  }
}
