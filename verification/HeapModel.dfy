/** The blocks of the kernel heap in address order, and what allocation and release do to them. */
module HeapModel {

  const HEAP_SIZE: nat := 128 * 1024 * 1024
  const HDR: nat := 48            // header of 40 bytes, rounded up to the alignment of 16
  const CANARY: nat := 4
  const MIN_PAYLOAD: nat := HDR + 16

  datatype Block = Block(addr: nat, size: nat, free: bool) {
    function End(): nat { addr + size }
  }

  /** The blocks cover the addresses from a up to b without gap or overlap, each with room for a
      header and a canary. */
  ghost predicate Tiled(bs: seq<Block>, a: nat, b: nat) {
    if bs == [] then a == b
    else bs[0].addr == a && bs[0].size >= HDR + CANARY && Tiled(bs[1..], bs[0].End(), b)
  }

  /** No two neighbours are free. */
  ghost predicate Merged(bs: seq<Block>) {
    forall i :: 0 <= i && i + 1 < |bs| ==> !(bs[i].free && bs[i + 1].free)
  }

  ghost predicate HeapOk(bs: seq<Block>) {
    Tiled(bs, 0, HEAP_SIZE) && Merged(bs)
  }

  ghost function Live(bs: seq<Block>): set<Block> {
    set i | 0 <= i < |bs| && !bs[i].free :: bs[i]
  }

  function LiveBytes(bs: seq<Block>): nat {
    if bs == [] then 0 else (if bs[0].free then 0 else bs[0].size) + LiveBytes(bs[1..])
  }

  /** Addresses and sizes are whole words. */
  ghost predicate WordSized(bs: seq<Block>) {
    forall i :: 0 <= i < |bs| ==> bs[i].addr % 4 == 0 && bs[i].size % 4 == 0
  }

  // ----- Tilings

  lemma {:induction false} TiledAppend(x: seq<Block>, y: seq<Block>, a: nat, m: nat, b: nat)
    requires Tiled(x, a, m) && Tiled(y, m, b)
    ensures Tiled(x + y, a, b)
    decreases |x|
  {
    if x == [] {
      assert x + y == y;
    } else {
      TiledAppend(x[1..], y, x[0].End(), m, b);
      assert (x + y)[1..] == x[1..] + y;
    }
  }

  lemma {:induction false} TiledSplit(bs: seq<Block>, a: nat, b: nat, i: nat)
    requires Tiled(bs, a, b) && i < |bs|
    ensures a <= bs[i].addr && bs[i].End() <= b && bs[i].size >= HDR + CANARY
    ensures Tiled(bs[..i], a, bs[i].addr) && Tiled(bs[i + 1..], bs[i].End(), b)
    ensures i + 1 < |bs| ==> bs[i + 1].addr == bs[i].End()
    ensures i + 1 == |bs| ==> bs[i].End() == b
    decreases |bs|
  {
    if i == 0 {
      TiledBounds(bs[1..], bs[0].End(), b);
    } else {
      TiledSplit(bs[1..], bs[0].End(), b, i - 1);
      assert bs[..i][1..] == bs[1..][..i - 1];
      assert bs[i + 1..] == bs[1..][i..];
    }
  }

  lemma {:induction false} TiledBounds(bs: seq<Block>, a: nat, b: nat)
    requires Tiled(bs, a, b)
    ensures a <= b
    decreases |bs|
  {
    if bs != [] {
      TiledBounds(bs[1..], bs[0].End(), b);
    }
  }

  lemma TiledOrdered(bs: seq<Block>, a: nat, b: nat, i: nat, j: nat)
    requires Tiled(bs, a, b) && i < j < |bs|
    ensures bs[i].End() <= bs[j].addr
  {
    TiledSplit(bs, a, b, i);
    TiledSplit(bs[i + 1..], bs[i].End(), b, j - i - 1);
    assert bs[i + 1..][j - i - 1] == bs[j];
  }

  /** Blocks with the same address are the same block. */
  lemma AddressUnique(bs: seq<Block>, a: nat, b: nat, i: nat, j: nat)
    requires Tiled(bs, a, b) && i < |bs| && j < |bs| && bs[i].addr == bs[j].addr
    ensures i == j
  {
    if i < j {
      TiledSplit(bs, a, b, i);
      TiledOrdered(bs, a, b, i, j);
    } else if j < i {
      TiledSplit(bs, a, b, j);
      TiledOrdered(bs, a, b, j, i);
    }
  }

  /** Replacing block i by blocks that cover the same addresses. */
  lemma Retile(bs: seq<Block>, a: nat, b: nat, i: nat, mid: seq<Block>)
    requires Tiled(bs, a, b) && i < |bs| && Tiled(mid, bs[i].addr, bs[i].End())
    ensures Tiled(bs[..i] + mid + bs[i + 1..], a, b)
  {
    TiledSplit(bs, a, b, i);
    TiledAppend(bs[..i], mid, a, bs[i].addr, bs[i].End());
    TiledAppend(bs[..i] + mid, bs[i + 1..], a, bs[i].End(), b);
  }

  lemma {:induction false} LiveBytesAppend(x: seq<Block>, y: seq<Block>)
    ensures LiveBytes(x + y) == LiveBytes(x) + LiveBytes(y)
    decreases |x|
  {
    if x == [] {
      assert x + y == y;
    } else {
      LiveBytesAppend(x[1..], y);
      assert (x + y)[1..] == x[1..] + y;
    }
  }

  // ----- Allocation

  /** Block i, which is free, after need bytes of it were claimed. */
  function Claim(bs: seq<Block>, i: nat, need: nat): (r: seq<Block>)
    requires i < |bs| && need <= bs[i].size
  {
    var b := bs[i];
    if b.size >= need + MIN_PAYLOAD then
      bs[..i] + [Block(b.addr, need, false), Block(b.addr + need, b.size - need, true)] + bs[i + 1..]
    else
      bs[i := b.(free := false)]
  }

  /** The block that Claim makes live. */
  function Claimed(bs: seq<Block>, i: nat, need: nat): (r: Block)
    requires i < |bs|
  {
    var b := bs[i];
    Block(b.addr, if b.size >= need + MIN_PAYLOAD then need else b.size, false)
  }

  /** Claiming part of a free block keeps the heap tiled and merged, and adds exactly that block to
      the live ones. */
  lemma ClaimOk(bs: seq<Block>, i: nat, need: nat)
    requires HeapOk(bs) && i < |bs| && bs[i].free && HDR + CANARY <= need <= bs[i].size
    ensures HeapOk(Claim(bs, i, need))
    ensures Live(Claim(bs, i, need)) == Live(bs) + {Claimed(bs, i, need)}
    ensures Claimed(bs, i, need) !in Live(bs)
    ensures LiveBytes(Claim(bs, i, need)) == LiveBytes(bs) + Claimed(bs, i, need).size
  {
    hide Tiled, Live, LiveBytes, Merged;
    var b, c := bs[i], Claimed(bs, i, need);
    var mid := if b.size >= need + MIN_PAYLOAD then [c, Block(b.addr + need, b.size - need, true)] else [c];
    assert Claim(bs, i, need) == bs[..i] + mid + bs[i + 1..];
    MidTiled(b, need);
    Retile(bs, 0, HEAP_SIZE, i, mid);
    ReplaceLive(bs, i, mid);
    ClaimMerged(bs, i, mid);
    FreshAddress(bs, i, c);
  }

  lemma ClaimMerged(bs: seq<Block>, i: nat, mid: seq<Block>)
    requires Merged(bs) && i < |bs| && bs[i].free && 1 <= |mid| <= 2 && !mid[0].free
    ensures Merged(bs[..i] + mid + bs[i + 1..])
  {
    var r := bs[..i] + mid + bs[i + 1..];
    forall j | 0 <= j && j + 1 < |r| ensures !(r[j].free && r[j + 1].free) {
      if j + 1 < i {
        Neighbours(bs, j);
      } else if j >= i + |mid| - 1 {
        Neighbours(bs, j - |mid| + 1);
      }
    }
  }

  /** A live block with the address of a free one does not exist. */
  lemma FreshAddress(bs: seq<Block>, i: nat, c: Block)
    requires Tiled(bs, 0, HEAP_SIZE) && i < |bs| && bs[i].free && c.addr == bs[i].addr
    ensures c !in Live(bs)
  {
    if c in Live(bs) {
      var j :| 0 <= j < |bs| && !bs[j].free && bs[j] == c;
      AddressUnique(bs, 0, HEAP_SIZE, i, j);
      assert false;
    }
  }

  lemma MidTiled(b: Block, need: nat)
    requires HDR + CANARY <= need <= b.size
    ensures var c := Claimed([b], 0, need);
            var mid := if b.size >= need + MIN_PAYLOAD then [c, Block(b.addr + need, b.size - need, true)] else [c];
            && Tiled(mid, b.addr, b.End()) && LiveBytes(mid) == c.size && Live(mid) == {c}
            && (forall j :: 1 <= j < |mid| ==> mid[j].free) && !mid[0].free && |mid| <= 2
  {
    var c := Claimed([b], 0, need);
    if b.size >= need + MIN_PAYLOAD {
      var rest := Block(b.addr + need, b.size - need, true);
      var mid := [c, rest];
      assert mid[1..] == [rest] && [rest][1..] == [];
      assert mid[0] == c && mid[1] == rest;
      assert LiveBytes([rest]) == 0;
      assert Live(mid) == {c};
    } else {
      assert [c][1..] == [] && [c][0] == c;
      assert Live([c]) == {c};
    }
  }

  /** Live blocks and bytes after a free block was replaced. */
  lemma ReplaceLive(bs: seq<Block>, i: nat, mid: seq<Block>)
    requires i < |bs| && bs[i].free
    ensures var r := bs[..i] + mid + bs[i + 1..];
            Live(r) == Live(bs) + Live(mid) && LiveBytes(r) == LiveBytes(bs) + LiveBytes(mid)
  {
    var x, y := bs[..i], bs[i + 1..];
    var r := x + mid + y;
    assert bs == x + [bs[i]] + y;
    LiveBytesAppend(x + mid, y);
    LiveBytesAppend(x, mid);
    LiveBytesAppend(x + [bs[i]], y);
    LiveBytesAppend(x, [bs[i]]);
    assert LiveBytes([bs[i]]) == 0 by { assert [bs[i]][1..] == []; }
    LiveAppend(x + mid, y);
    LiveAppend(x, mid);
    LiveAppend(x + [bs[i]], y);
    LiveAppend(x, [bs[i]]);
    assert Live([bs[i]]) == {};
  }

  lemma LiveAppend(x: seq<Block>, y: seq<Block>)
    ensures Live(x + y) == Live(x) + Live(y)
  {
    forall b | b in Live(x) ensures b in Live(x + y) {
      var i :| 0 <= i < |x| && !x[i].free && x[i] == b;
      assert (x + y)[i] == b;
    }
    forall b | b in Live(y) ensures b in Live(x + y) {
      var i :| 0 <= i < |y| && !y[i].free && y[i] == b;
      assert (x + y)[|x| + i] == b;
    }
  }

  // ----- Release

  /** Blocks i and i + 1 made one. */
  function Merge(bs: seq<Block>, i: nat): (r: seq<Block>)
    requires i + 1 < |bs|
  {
    bs[..i] + [Block(bs[i].addr, bs[i].size + bs[i + 1].size, true)] + bs[i + 2..]
  }

  function MergeForward(bs: seq<Block>, i: nat): (r: seq<Block>)
    requires i < |bs|
  {
    if i + 1 < |bs| && bs[i + 1].free then Merge(bs, i) else bs
  }

  /** Block i freed and merged with free neighbours on both sides. */
  function Release(bs: seq<Block>, i: nat): (r: seq<Block>)
    requires i < |bs|
  {
    var f := MergeForward(bs[i := bs[i].(free := true)], i);
    if i > 0 && f[i - 1].free then Merge(f, i - 1) else f
  }

  /** Merging two free blocks keeps the tiling, the live blocks and the live bytes. */
  lemma MergeOk(bs: seq<Block>, a: nat, b: nat, i: nat)
    requires Tiled(bs, a, b) && i + 1 < |bs| && bs[i].free && bs[i + 1].free
    ensures Tiled(Merge(bs, i), a, b)
    ensures Live(Merge(bs, i)) == Live(bs) && LiveBytes(Merge(bs, i)) == LiveBytes(bs)
  {
    MergeTiled(bs, a, b, i);
    hide Tiled, Live, LiveBytes;
    var x, y, p, q := bs[..i], bs[i + 2..], bs[i], bs[i + 1];
    assert bs == x + [p] + ([q] + y);
    FreeBlockAdds(x, Block(p.addr, p.size + q.size, true), y);
    FreeBlockAdds(x, p, [q] + y);
    FreeBlockAdds(x, q, y);
    assert x + [q] + y == x + ([q] + y);
  }

  lemma MergeTiled(bs: seq<Block>, a: nat, b: nat, i: nat)
    requires Tiled(bs, a, b) && i + 1 < |bs|
    ensures Tiled(Merge(bs, i), a, b)
  {
    var x, y, p, q := bs[..i], bs[i + 2..], bs[i], bs[i + 1];
    var m := Block(p.addr, p.size + q.size, true);
    TiledSplit(bs, a, b, i);
    TiledSplit(bs, a, b, i + 1);
    assert [m][1..] == [];
    TiledAppend(x, [m], a, p.addr, q.End());
    TiledAppend(x + [m], y, a, q.End(), b);
  }

  /** A free block adds nothing to the live blocks. */
  lemma FreeBlockAdds(x: seq<Block>, f: Block, y: seq<Block>)
    requires f.free
    ensures Live(x + [f] + y) == Live(x + y) && LiveBytes(x + [f] + y) == LiveBytes(x + y)
  {
    LiveAppend(x + [f], y);
    LiveAppend(x, [f]);
    LiveAppend(x, y);
    LiveBytesAppend(x + [f], y);
    LiveBytesAppend(x, [f]);
    LiveBytesAppend(x, y);
    assert [f][1..] == [] && Live([f]) == {};
  }

  lemma LiveBlockAdds(x: seq<Block>, l: Block, y: seq<Block>)
    requires !l.free
    ensures Live(x + [l] + y) == Live(x + y) + {l} && LiveBytes(x + [l] + y) == LiveBytes(x + y) + l.size
  {
    LiveAppend(x + [l], y);
    LiveAppend(x, [l]);
    LiveAppend(x, y);
    LiveBytesAppend(x + [l], y);
    LiveBytesAppend(x, [l]);
    LiveBytesAppend(x, y);
    assert [l][1..] == [] && [l][0] == l && Live([l]) == {l};
  }

  /** Marking block i free, before any merging. */
  lemma MarkOk(bs: seq<Block>, a: nat, b: nat, i: nat)
    requires Tiled(bs, a, b) && i < |bs| && !bs[i].free
    ensures var r := bs[i := bs[i].(free := true)];
            && Tiled(r, a, b) && Live(r) == Live(bs) - {bs[i]} && LiveBytes(r) == LiveBytes(bs) - bs[i].size
  {
    var x, y, l := bs[..i], bs[i + 1..], bs[i];
    var f := l.(free := true);
    assert bs == x + [l] + y && bs[i := f] == x + [f] + y;
    assert [f][1..] == [];
    TiledSplit(bs, a, b, i);
    Retile(bs, a, b, i, [f]);
    FreeBlockAdds(x, f, y);
    LiveBlockAdds(x, l, y);
    assert l !in Live(x + y) by {
      if l in Live(x + y) {
        var j :| 0 <= j < |x + y| && !(x + y)[j].free && (x + y)[j] == l;
        var j' := if j < i then j else j + 1;
        assert bs[j'] == l;
        AddressUnique(bs, a, b, i, j');
      }
    }
  }

  /** Releasing a live block keeps the heap tiled and merged, and takes exactly that block from the
      live ones. */
  lemma ReleaseOk(bs: seq<Block>, i: nat)
    requires HeapOk(bs) && i < |bs| && !bs[i].free
    ensures HeapOk(Release(bs, i))
    ensures Live(Release(bs, i)) == Live(bs) - {bs[i]}
    ensures LiveBytes(Release(bs, i)) == LiveBytes(bs) - bs[i].size
  {
    var m := bs[i := bs[i].(free := true)];
    MarkOk(bs, 0, HEAP_SIZE, i);
    var f := MergeForward(m, i);
    if i + 1 < |m| && m[i + 1].free {
      MergeOk(m, 0, HEAP_SIZE, i);
    }
    ForwardMerged(bs, i);
    if i > 0 && f[i - 1].free {
      MergeOk(f, 0, HEAP_SIZE, i - 1);
    }
  }

  /** After merging forward only block i and the one before it may be free neighbours. */
  lemma ForwardMerged(bs: seq<Block>, i: nat)
    requires Merged(bs) && i < |bs| && !bs[i].free
    ensures var f := MergeForward(bs[i := bs[i].(free := true)], i);
            && i < |f| && f[i].free && (i > 0 ==> f[i - 1] == bs[i - 1])
            && forall j :: 0 <= j && j + 1 < |f| && j != i - 1 ==> !(f[j].free && f[j + 1].free)
    ensures Merged(Release(bs, i))
  {
    var m := bs[i := bs[i].(free := true)];
    var f := MergeForward(m, i);
    forall j | 0 <= j && j + 1 < |f| && j != i - 1 ensures !(f[j].free && f[j + 1].free) {
      var j' := if j <= i then j else j + |bs| - |f|;
      assert !(bs[j'].free && bs[j' + 1].free);
      if j == i && |f| < |bs| {
        assert !(bs[i + 1].free && bs[i + 1 + 1].free);
      }
    }
    var r := Release(bs, i);
    if i > 0 && f[i - 1].free {
      forall j | 0 <= j && j + 1 < |r| ensures !(r[j].free && r[j + 1].free) {
        var j' := if j < i then j else j + 1;
        assert j' != i - 1 ==> !(f[j'].free && f[j' + 1].free);
        if j == i - 1 {
          assert !(f[i].free && f[i + 1].free);
        }
      }
    }
  }

  // ----- Completeness

  /** The block that contains address x. */
  lemma {:induction false} BlockAt(bs: seq<Block>, a: nat, b: nat, x: nat) returns (i: nat)
    requires Tiled(bs, a, b) && a <= x < b
    ensures i < |bs| && bs[i].addr <= x < bs[i].End()
    decreases |bs|
  {
    if x < bs[0].End() {
      i := 0;
    } else {
      i := BlockAt(bs[1..], bs[0].End(), b, x);
      i := i + 1;
    }
  }

  /** If no free block holds need bytes, no need contiguous bytes are free: every such stretch of the
      heap meets a live block. */
  lemma NoFreeRun(bs: seq<Block>, need: nat, x: nat)
    requires HeapOk(bs) && 0 < need && x + need <= HEAP_SIZE
    requires forall i :: 0 <= i < |bs| && bs[i].free ==> bs[i].size < need
    ensures exists i :: 0 <= i < |bs| && !bs[i].free && bs[i].addr < x + need && x < bs[i].End()
  {
    var i := BlockAt(bs, 0, HEAP_SIZE, x);
    if bs[i].free {
      TiledSplit(bs, 0, HEAP_SIZE, i);
      assert !(bs[i].free && bs[i + 1].free);
      TiledSplit(bs, 0, HEAP_SIZE, i + 1);
    }
  }

  lemma InLive(bs: seq<Block>, i: nat)
    requires i < |bs|
    ensures bs[i].free || bs[i] in Live(bs)
  {
  }

  lemma Neighbours(bs: seq<Block>, k: nat)
    requires Merged(bs) && k + 1 < |bs|
    ensures !(bs[k].free && bs[k + 1].free)
  {
  }

  /** A heap without live blocks is one free block. */
  lemma AllFree(bs: seq<Block>)
    requires HeapOk(bs) && Live(bs) == {}
    ensures bs == [Block(0, HEAP_SIZE, true)] && LiveBytes(bs) == 0
  {
    forall i: nat | i < |bs| ensures bs[i].free {
      InLive(bs, i);
    }
    if |bs| > 1 {
      Neighbours(bs, 0);
      assert false;
    }
    assert |bs| == 1 && bs[1..] == [];
    TiledSplit(bs, 0, HEAP_SIZE, 0);
    assert bs == [bs[0]] && bs[0].free;
  }

  /** User bytes of a live block: disjoint from the header and the canary of every block, and from
      the user bytes of every other one. */
  lemma PayloadApart(bs: seq<Block>, i: nat, j: nat, size: nat)
    requires HeapOk(bs) && i < |bs| && j < |bs| && HDR + size + CANARY <= bs[i].size
    ensures var lo, hi := bs[i].addr + HDR, bs[i].addr + HDR + size;
            && (hi <= bs[j].addr || bs[j].addr + HDR <= lo)
            && (hi <= bs[j].End() - CANARY || bs[j].End() <= lo)
            && (i != j ==> hi <= bs[j].addr || bs[j].End() <= lo)
  {
    if i < j {
      TiledOrdered(bs, 0, HEAP_SIZE, i, j);
    } else if j < i {
      TiledOrdered(bs, 0, HEAP_SIZE, j, i);
    }
    TiledSplit(bs, 0, HEAP_SIZE, j);
  }

  /** Live bytes fill the heap exactly when no block is free. */
  lemma {:induction false} FullHeap(bs: seq<Block>, a: nat, b: nat)
    requires Tiled(bs, a, b)
    ensures LiveBytes(bs) <= b - a
    ensures LiveBytes(bs) == b - a <==> forall i :: 0 <= i < |bs| ==> !bs[i].free
    decreases |bs|
  {
    if bs != [] {
      FullHeap(bs[1..], bs[0].End(), b);
      assert forall i :: 0 < i < |bs| ==> bs[i] == bs[1..][i - 1];
    }
  }

  // ----- Alignment

  lemma ClaimWords(bs: seq<Block>, i: nat, need: nat)
    requires WordSized(bs) && i < |bs| && need <= bs[i].size && need % 4 == 0
    ensures WordSized(Claim(bs, i, need))
  {
    var r := Claim(bs, i, need);
    forall k | 0 <= k < |r|
      ensures r[k].addr % 4 == 0 && r[k].size % 4 == 0
    {
      assert k > i + 1 && |r| == |bs| + 1 ==> r[k] == bs[k - 1];
    }
  }

  lemma WordSum(a: nat, b: nat)
    requires a % 4 == 0 && b % 4 == 0
    ensures (a + b) % 4 == 0
  {
  }

  lemma MergeWords(bs: seq<Block>, i: nat)
    requires WordSized(bs) && i + 1 < |bs|
    ensures WordSized(Merge(bs, i))
  {
    var r := Merge(bs, i);
    forall k | 0 <= k < |r|
      ensures r[k].addr % 4 == 0 && r[k].size % 4 == 0
    {
      if k < i {
        assert r[k] == bs[k];
      } else if k > i {
        assert r[k] == bs[k + 1];
      } else {
        WordSum(bs[i].size, bs[i + 1].size);
      }
    }
  }

  lemma ReleaseWords(bs: seq<Block>, i: nat)
    requires WordSized(bs) && i < |bs|
    ensures WordSized(Release(bs, i))
  {
    hide WordSized, Merge;
    var m := bs[i := bs[i].(free := true)];
    assert WordSized(m) by { MarkedWords(bs, i); }
    var f := MergeForward(m, i);
    if i + 1 < |m| && m[i + 1].free {
      MergeWords(m, i);
    }
    assert |f| >= i + 1 by { MergeLength(m, i); }
    if i > 0 && f[i - 1].free {
      MergeWords(f, i - 1);
    }
  }

  lemma MarkedWords(bs: seq<Block>, i: nat)
    requires WordSized(bs) && i < |bs|
    ensures WordSized(bs[i := bs[i].(free := true)])
  {
  }

  lemma MergeLength(bs: seq<Block>, i: nat)
    requires i < |bs|
    ensures |MergeForward(bs, i)| >= i + 1
  {
  }

  /** k live blocks of 4 bytes more than a multiple of 16 each, and then the rest of the heap. */
  ghost predicate Serial(bs: seq<Block>, k: nat) {
    && |bs| == k + 1 && bs[k].free
    && forall i :: 0 <= i < k ==> !bs[i].free && bs[i].size % 16 == 4
  }

  /** A request takes the rest of the heap, or cuts the next such block from it. */
  lemma SerialNext(bs: seq<Block>, k: nat, i: nat, need: nat)
    requires Serial(bs, k) && i < |bs| && bs[i].free && need <= bs[i].size && need % 16 == 4
    ensures i == k
    ensures bs[i].size >= need + MIN_PAYLOAD ==> Serial(Claim(bs, i, need), k + 1)
  {
    assert i == k;
    if bs[i].size >= need + MIN_PAYLOAD {
      var r := Claim(bs, i, need);
      assert forall j :: 0 <= j < k ==> r[j] == bs[j];
      assert r[k] == Block(bs[k].addr, need, false);
    }
  }

  /** The payload of block i of such a heap is 16-byte aligned exactly when i is a multiple of 4. */
  lemma {:induction false} SerialAligned(bs: seq<Block>, k: nat, i: nat)
    requires Tiled(bs, 0, HEAP_SIZE) && Serial(bs, k) && i <= k
    ensures (bs[i].addr - 4 * i) % 16 == 0
    ensures (bs[i].addr + HDR) % 16 == 0 <==> i % 4 == 0
    decreases i
  {
    hide Tiled;
    if i == 0 {
      assert bs[0].addr == 0 by { FirstAtZero(bs); }
    } else {
      SerialAligned(bs, k, i - 1);
      TiledSplit(bs, 0, HEAP_SIZE, i - 1);
      FourMore(bs[i - 1].addr, bs[i - 1].size, i);
    }
  }

  lemma FourMore(a: nat, s: nat, i: nat)
    requires i > 0 && (a - 4 * (i - 1)) % 16 == 0 && s % 16 == 4
    ensures (a + s - 4 * i) % 16 == 0
    ensures (a + s + HDR) % 16 == 0 <==> i % 4 == 0
  {
    var m, n := (a - 4 * (i - 1)) / 16, s / 16;
    assert a + s - 4 * i == 16 * (m + n);
    var c, d := i / 4, i % 4;
    assert a + s + HDR == 16 * (m + n + c + 3) + 4 * d;
  }

  lemma FirstAtZero(bs: seq<Block>)
    requires Tiled(bs, 0, HEAP_SIZE) && bs != []
    ensures bs[0].addr == 0
  {
  }
}
