/** Which bytes stand where: facts about one stretch of a buffer that survive writes elsewhere. */
module Regions {
  import opened Words

  /** The bytes d stand at p. */
  ghost predicate At(f: seq<byte>, p: nat, d: seq<byte>) {
    p + |d| <= |f| && f[p..p + |d|] == d
  }

  /** A write keeps what stands before it and behind it. */
  lemma AtKept(f: seq<byte>, q: nat, x: seq<byte>, p: nat, d: seq<byte>)
    requires q + |x| <= |f|
    requires At(f, p, d) && (p + |d| <= q || q + |x| <= p)
    ensures At(Patch(f, q, x), p, d)
  {
    var g := Patch(f, q, x);
    assert g[p..p + |d|] == f[p..p + |d|];
  }

  lemma AtWritten(f: seq<byte>, q: nat, x: seq<byte>)
    requires q + |x| <= |f|
    ensures At(Patch(f, q, x), q, x)
  {
    var g := Patch(f, q, x);
    assert g[q..q + |x|] == x;
  }

  lemma AtJoin(f: seq<byte>, p: nat, a: seq<byte>, b: seq<byte>)
    ensures At(f, p, a + b) <==> At(f, p, a) && At(f, p + |a|, b)
  {
    if p + |a| + |b| <= |f| {
      var u, v, w := f[p..p + |a|], f[p + |a|..p + |a| + |b|], f[p..p + |a| + |b|];
      assert w == u + v;
      assert w[..|a|] == u && w[|a|..] == v;
      assert (a + b)[..|a|] == a && (a + b)[|a|..] == b;
    }
  }

  lemma AtWord(f: seq<byte>, p: nat, v: nat)
    requires v < WORD && At(f, p, Enc32(v))
    ensures p + 4 <= |f| && U32(f, p) == v
  {
    var e := Enc32(v);
    assert e[0..4] == e;
    U32Local(f, p, e, 0);
    Dec32(v);
  }

  lemma AtSame(f: seq<byte>, p: nat, d: seq<byte>, d': seq<byte>)
    requires At(f, p, d) && At(f, p, d') && |d| == |d'|
    ensures d == d'
  {
  }

  /** A copy of a stretch holds what the stretch held. */
  lemma AtTaken(f: seq<byte>, p: nat, d: seq<byte>)
    requires At(f, p, d)
    ensures p + |d| <= |f| && f[p..p + |d|] == d
  {
  }
}
