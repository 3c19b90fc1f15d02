/** kernel/malloc.c: first-fit allocation over headers that lie in the heap itself. */
module KernelHeaps {
  import opened Arithmetic
  import opened HeapModel

  const NULL: int := -1
  const HDR_MAGIC: nat := 0xFEEDC0DE
  const TAIL_MAGIC: nat := 0xDEADC0DE
  const SIZE_MAX: nat := 0x1_0000_0000_0000_0000   // one more than the largest size_t

  /** A block header. Pointers are offsets into the heap, or NULL. */
  datatype Hdr = Hdr(magic: nat, free: bool, size: nat, prevPhys: int, nextFree: int, prevFree: int)

  type Memory = map<int, Hdr>

  function AlignUp(n: nat): nat { (n + 15) / 16 * 16 }

  /** Bytes kmalloc needs for a request, header and canary included. */
  function Need(size: nat): nat { HDR + AlignUp(size) + CANARY }

  // ----- The doubly linked free list

  function At(l: seq<int>, j: int): int { if 0 <= j < |l| then l[j] else NULL }

  ghost predicate Distinct(l: seq<int>) {
    forall i, j :: 0 <= i < j < |l| ==> l[i] != l[j]
  }

  /** The link fields of entry k of a list. */
  ghost predicate LinksAt(mem: Memory, l: seq<int>, k: int)
    requires 0 <= k < |l|
  {
    l[k] in mem && l[k] != NULL && mem[l[k]].nextFree == At(l, k + 1) && mem[l[k]].prevFree == At(l, k - 1)
  }

  /** The links in memory spell out the list l. */
  ghost predicate Links(mem: Memory, head: int, l: seq<int>) {
    && Distinct(l) && head == At(l, 0)
    && forall j :: 0 <= j < |l| ==> LinksAt(mem, l, j)
  }

  /** Memory changed in free-list links only. */
  ghost predicate SameButLinks(mem: Memory, mem': Memory) {
    && mem.Keys == mem'.Keys
    && forall a :: a in mem ==> mem'[a] == mem[a].(nextFree := mem'[a].nextFree, prevFree := mem'[a].prevFree)
  }

  /** No header went, and none changed its mark or turned from free to used or back. */
  ghost predicate SameFree(mem: Memory, mem': Memory) {
    forall a :: a in mem ==> a in mem' && mem'[a].free == mem[a].free && mem'[a].magic == mem[a].magic
  }

  lemma LinksSameFree(m: Memory, m': Memory)
    requires SameButLinks(m, m')
    ensures SameFree(m, m')
  {
  }

  function Without(l: seq<int>, j: nat): (r: seq<int>)
    requires j < |l|
  {
    l[..j] + l[j + 1..]
  }

  /** Memory after free_list_remove took b out of its list. */
  function Unlinked(mem: Memory, b: int): (m: Memory)
    requires b in mem
    requires mem[b].prevFree != NULL ==> mem[b].prevFree in mem
    requires mem[b].nextFree != NULL ==> mem[b].nextFree in mem
  {
    var p, n := mem[b].prevFree, mem[b].nextFree;
    var m1 := if p != NULL then mem[p := mem[p].(nextFree := n)] else mem;
    var m2 := if n != NULL then m1[n := m1[n].(prevFree := p)] else m1;
    m2[b := m2[b].(nextFree := NULL, prevFree := NULL)]
  }

  ghost predicate Linked(mem: Memory, b: int) {
    && b in mem && (mem[b].prevFree != NULL ==> mem[b].prevFree in mem)
    && (mem[b].nextFree != NULL ==> mem[b].nextFree in mem)
  }

  lemma LinkedEntry(mem: Memory, head: int, l: seq<int>, j: nat)
    requires Links(mem, head, l) && j < |l|
    ensures Linked(mem, l[j]) && LinksAt(mem, l, j)
  {
    assert LinksAt(mem, l, j);
    assert j > 0 ==> LinksAt(mem, l, j - 1);
    assert j + 1 < |l| ==> LinksAt(mem, l, j + 1);
  }

  lemma UnlinkedAt(mem: Memory, head: int, l: seq<int>, j: nat, k: nat)
    requires Links(mem, head, l) && j < |l| && k < |l| - 1 && Linked(mem, l[j])
    ensures LinksAt(Unlinked(mem, l[j]), Without(l, j), k)
  {
    var i := if k < j then k else k + 1;
    assert Without(l, j)[k] == l[i];
    assert LinksAt(mem, l, i) && LinksAt(mem, l, j);
  }

  lemma UnlinkedSame(mem: Memory, b: int)
    requires Linked(mem, b)
    ensures SameButLinks(mem, Unlinked(mem, b))
  {
  }

  lemma WithoutDistinct(l: seq<int>, j: nat)
    requires Distinct(l) && j < |l|
    ensures Distinct(Without(l, j)) && l[j] !in Without(l, j)
  {
    var r := Without(l, j);
    assert forall k :: 0 <= k < |r| ==> r[k] == l[if k < j then k else k + 1];
  }

  /** Taking entry j out leaves a well linked list. */
  lemma UnlinkedOk(mem: Memory, head: int, l: seq<int>, j: nat)
    requires Links(mem, head, l) && j < |l|
    ensures Linked(mem, l[j])
    ensures var b := l[j];
            var head' := if mem[b].prevFree != NULL then head else mem[b].nextFree;
            Links(Unlinked(mem, b), head', Without(l, j))
  {
    hide Unlinked;
    LinkedEntry(mem, head, l, j);
    WithoutDistinct(l, j);
    var r := Without(l, j);
    forall k | 0 <= k < |r| ensures LinksAt(Unlinked(mem, l[j]), r, k) {
      UnlinkedAt(mem, head, l, j, k);
    }
    if j > 0 {
      LinkedEntry(mem, head, l, j - 1);
      assert r[0] == l[0];
    }
  }

  /** Two headers agree in everything but the free-list links. */
  ghost predicate SameBlock(h: Hdr, h': Hdr) {
    h.magic == h'.magic && h.free == h'.free && h.size == h'.size && h.prevPhys == h'.prevPhys
  }

  /** The header of block k of bs. */
  ghost predicate HeaderAt(mem: Memory, bs: seq<Block>, k: nat)
    requires k < |bs|
  {
    && bs[k].addr in mem
    && SameBlock(mem[bs[k].addr],
                 Hdr(HDR_MAGIC, bs[k].free, bs[k].size, if k == 0 then NULL else bs[k - 1].addr, NULL, NULL))
  }

  /** The headers in memory describe the blocks bs. */
  ghost predicate Headers(mem: Memory, bs: seq<Block>) {
    forall k :: 0 <= k < |bs| ==> HeaderAt(mem, bs, k)
  }

  // ----- Free blocks and list entries

  ghost function FreeAddrs(bs: seq<Block>): set<int> {
    set i | 0 <= i < |bs| && bs[i].free :: bs[i].addr as int
  }

  ghost function Entries(l: seq<int>): set<int> {
    set i | 0 <= i < |l| :: l[i]
  }

  lemma FreeAddrsAppend(x: seq<Block>, y: seq<Block>)
    ensures FreeAddrs(x + y) == FreeAddrs(x) + FreeAddrs(y)
  {
    forall a | a in FreeAddrs(x) ensures a in FreeAddrs(x + y) {
      var i :| 0 <= i < |x| && x[i].free && x[i].addr == a;
      assert (x + y)[i].free && (x + y)[i].addr == a;
    }
    forall a | a in FreeAddrs(y) ensures a in FreeAddrs(x + y) {
      var i :| 0 <= i < |y| && y[i].free && y[i].addr == a;
      assert (x + y)[|x| + i].free && (x + y)[|x| + i].addr == a;
    }
  }

  lemma InFreeAddrs(bs: seq<Block>, i: nat)
    requires i < |bs| && bs[i].free
    ensures bs[i].addr in FreeAddrs(bs)
  {
  }

  lemma FreeAddrsOne(b: Block)
    ensures FreeAddrs([b]) == if b.free then {b.addr as int} else {}
  {
    assert [b][0] == b;
  }

  lemma EntriesOf(l: seq<int>, b: int, j: nat)
    requires Distinct(l)
    ensures Entries([b] + l) == Entries(l) + {b}
    ensures j < |l| ==> Entries(Without(l, j)) == Entries(l) - {l[j]}
    ensures b in Entries(l) <==> b in l
  {
    forall a | a in Entries(l) ensures a in Entries([b] + l) {
      var i :| 0 <= i < |l| && l[i] == a;
      assert ([b] + l)[i + 1] == a;
    }
    assert ([b] + l)[0] == b;
    if j < |l| {
      var r := Without(l, j);
      WithoutDistinct(l, j);
      forall a | a in Entries(l) - {l[j]} ensures a in Entries(r) {
        var i :| 0 <= i < |l| && l[i] == a;
        assert r[if i < j then i else i - 1] == a;
      }
      forall a | a in Entries(r) ensures a in Entries(l) - {l[j]} {
        var i :| 0 <= i < |r| && r[i] == a;
        assert a == l[if i < j then i else i + 1] && a in r;
      }
    }
  }

  /** Addresses of different blocks differ. */
  lemma AddrNotIn(bs: seq<Block>, i: nat)
    requires Tiled(bs, 0, HEAP_SIZE) && i < |bs|
    ensures bs[i].addr !in FreeAddrs(bs[..i]) && bs[i].addr !in FreeAddrs(bs[i + 1..])
  {
    forall k | 0 <= k < i ensures bs[k].addr != bs[i].addr {
      TiledOrdered(bs, 0, HEAP_SIZE, k, i);
      TiledSplit(bs, 0, HEAP_SIZE, k);
    }
    forall k | i < k < |bs| ensures bs[k].addr != bs[i].addr {
      TiledOrdered(bs, 0, HEAP_SIZE, i, k);
      TiledSplit(bs, 0, HEAP_SIZE, i);
    }
  }

  /** Free addresses around block i. */
  lemma FreeAddrsAround(bs: seq<Block>, i: nat)
    requires i < |bs|
    ensures FreeAddrs(bs) == FreeAddrs(bs[..i]) + FreeAddrs([bs[i]]) + FreeAddrs(bs[i + 1..])
  {
    assert bs == bs[..i] + [bs[i]] + bs[i + 1..];
    FreeAddrsAppend(bs[..i] + [bs[i]], bs[i + 1..]);
    FreeAddrsAppend(bs[..i], [bs[i]]);
  }

  lemma FreeAddrsMark(bs: seq<Block>, i: nat, v: bool)
    requires Tiled(bs, 0, HEAP_SIZE) && i < |bs|
    ensures FreeAddrs(bs[i := bs[i].(free := v)]) ==
            if v then FreeAddrs(bs) + {bs[i].addr as int} else FreeAddrs(bs) - {bs[i].addr as int}
  {
    hide FreeAddrs, Tiled;
    var r := bs[i := bs[i].(free := v)];
    assert r[..i] == bs[..i] && r[i + 1..] == bs[i + 1..] && r[i] == bs[i].(free := v);
    FreeAddrsAround(bs, i);
    FreeAddrsAround(r, i);
    FreeAddrsOne(bs[i]);
    FreeAddrsOne(r[i]);
    AddrNotIn(bs, i);
  }

  lemma FreeAddrsMerge(bs: seq<Block>, i: nat)
    requires Tiled(bs, 0, HEAP_SIZE) && i + 1 < |bs| && bs[i].free && bs[i + 1].free
    ensures FreeAddrs(Merge(bs, i)) == FreeAddrs(bs) - {bs[i + 1].addr as int}
  {
    hide FreeAddrs, Tiled;
    var r := Merge(bs, i);
    assert r[..i] == bs[..i] && r[i + 1..] == bs[i + 2..] && bs[..i + 1][..i] == bs[..i] && bs[..i + 1][i + 1..] == [];
    FreeAddrsAround(r, i);
    FreeAddrsAround(bs, i + 1);
    FreeAddrsAround(bs[..i + 1], i);
    FreeAddrsOne(bs[i]);
    FreeAddrsOne(bs[i + 1]);
    FreeAddrsOne(r[i]);
    AddrNotIn(bs, i + 1);
    FreeAddrsNone();
  }

  lemma FreeAddrsNone()
    ensures FreeAddrs([]) == {}
  {
  }

  lemma FreeAddrsCut(bs: seq<Block>, i: nat, need: nat)
    requires i < |bs| && bs[i].free && need < bs[i].size
    ensures FreeAddrs(Cut(bs, i, need)) == FreeAddrs(bs) + {bs[i].addr + need as int}
  {
    hide FreeAddrs;
    var r := Cut(bs, i, need);
    assert r[..i] == bs[..i] && r[..i + 1][..i] == bs[..i] && r[..i + 1][i + 1..] == [] && r[i + 2..] == bs[i + 1..];
    FreeAddrsAround(bs, i);
    FreeAddrsAround(r, i + 1);
    FreeAddrsAround(r[..i + 1], i);
    FreeAddrsOne(bs[i]);
    FreeAddrsOne(r[i]);
    FreeAddrsOne(r[i + 1]);
    FreeAddrsNone();
  }

  // ----- Headers and list after an allocation

  lemma LinksKeepHeaders(mem: Memory, mem': Memory, bs: seq<Block>)
    requires Headers(mem, bs) && SameButLinks(mem, mem')
    ensures Headers(mem', bs)
  {
    forall k: nat | k < |bs| ensures HeaderAt(mem', bs, k) {
      assert HeaderAt(mem, bs, k);
    }
  }

  /** Memory after a free block was cut in two: header of the second half, back link of the block
      behind it, and the new size of the first half. */
  function CutHeaders(mem: Memory, b: Block, need: nat): (m: Memory)
    requires b.addr in mem && need < b.size
  {
    var s := b.addr + need;
    var m1 := mem[s := Hdr(HDR_MAGIC, true, b.size - need, b.addr, NULL, NULL)];
    var m2 := if b.End() < HEAP_SIZE && b.End() in m1 then m1[b.End() := m1[b.End()].(prevPhys := s)] else m1;
    m2[b.addr := m2[b.addr].(size := need)]
  }

  /** Block i of bs cut in two free blocks. */
  function Cut(bs: seq<Block>, i: nat, need: nat): (r: seq<Block>)
    requires i < |bs| && need < bs[i].size
  {
    bs[..i] + [Block(bs[i].addr, need, true), Block(bs[i].addr + need, bs[i].size - need, true)] + bs[i + 1..]
  }

  /** Headers before the cut keep their place. */
  lemma CutBefore(mem: Memory, bs: seq<Block>, i: nat, need: nat, k: nat)
    requires Tiled(bs, 0, HEAP_SIZE) && k < i < |bs| && 0 < need < bs[i].size && bs[i].addr in mem
    requires HeaderAt(mem, bs, k)
    ensures HeaderAt(CutHeaders(mem, bs[i], need), Cut(bs, i, need), k)
  {
    hide Tiled;
    var r := Cut(bs, i, need);
    assert r[k] == bs[k] && (k > 0 ==> r[k - 1] == bs[k - 1]);
    TiledOrdered(bs, 0, HEAP_SIZE, k, i);
    TiledSplit(bs, 0, HEAP_SIZE, k);
  }

  /** Headers behind the cut move up by one; the first of them points back to the second half. */
  lemma CutAfter(mem: Memory, bs: seq<Block>, i: nat, need: nat, k: nat)
    requires Tiled(bs, 0, HEAP_SIZE) && i < k < |bs| && 0 < need < bs[i].size && bs[i].addr in mem
    requires HeaderAt(mem, bs, k)
    ensures HeaderAt(CutHeaders(mem, bs[i], need), Cut(bs, i, need), k + 1)
  {
    hide Tiled;
    var r := Cut(bs, i, need);
    assert r[k + 1] == bs[k] && (k > i + 1 ==> r[k] == bs[k - 1]);
    TiledSplit(bs, 0, HEAP_SIZE, i);
    TiledSplit(bs, 0, HEAP_SIZE, k);
    TiledOrdered(bs, 0, HEAP_SIZE, i, k);
    if k > i + 1 {
      TiledOrdered(bs, 0, HEAP_SIZE, i + 1, k);
      TiledSplit(bs, 0, HEAP_SIZE, i + 1);
    }
  }

  lemma CutHere(mem: Memory, bs: seq<Block>, i: nat, need: nat)
    requires i < |bs| && 0 < need < bs[i].size && bs[i].free && HeaderAt(mem, bs, i)
    ensures HeaderAt(CutHeaders(mem, bs[i], need), Cut(bs, i, need), i)
    ensures HeaderAt(CutHeaders(mem, bs[i], need), Cut(bs, i, need), i + 1)
  {
    var r := Cut(bs, i, need);
    assert r[i] == Block(bs[i].addr, need, true) && r[i + 1] == Block(bs[i].addr + need, bs[i].size - need, true);
    assert i > 0 ==> r[i - 1] == bs[i - 1];
  }

  lemma CutHeadersOk(mem: Memory, bs: seq<Block>, i: nat, need: nat)
    requires Tiled(bs, 0, HEAP_SIZE) && Headers(mem, bs) && i < |bs| && bs[i].free && 0 < need < bs[i].size
    ensures bs[i].addr in mem && Headers(CutHeaders(mem, bs[i], need), Cut(bs, i, need))
  {
    hide HeaderAt, CutHeaders, Tiled;
    assert bs[i].addr in mem by { assert HeaderAt(mem, bs, i); HeaderThere(mem, bs, i); }
    var m, r := CutHeaders(mem, bs[i], need), Cut(bs, i, need);
    forall k: nat | k < |r| ensures HeaderAt(m, r, k) {
      if k < i {
        CutBefore(mem, bs, i, need, k);
      } else if k > i + 1 {
        CutAfter(mem, bs, i, need, k - 1);
      } else {
        CutHere(mem, bs, i, need);
      }
    }
  }

  lemma HeaderThere(mem: Memory, bs: seq<Block>, k: nat)
    requires k < |bs| && HeaderAt(mem, bs, k)
    ensures bs[k].addr in mem
    ensures SameBlock(mem[bs[k].addr], Hdr(HDR_MAGIC, bs[k].free, bs[k].size, if k == 0 then NULL else bs[k - 1].addr, NULL, NULL))
  {
  }

  lemma MarkHeaders(mem: Memory, bs: seq<Block>, i: nat, v: bool)
    requires Tiled(bs, 0, HEAP_SIZE) && Headers(mem, bs) && i < |bs|
    ensures bs[i].addr in mem
    ensures Headers(mem[bs[i].addr := mem[bs[i].addr].(free := v)], bs[i := bs[i].(free := v)])
  {
    HeaderThere(mem, bs, i);
    var m, r := mem[bs[i].addr := mem[bs[i].addr].(free := v)], bs[i := bs[i].(free := v)];
    forall k: nat | k < |r| ensures HeaderAt(m, r, k) {
      assert HeaderAt(mem, bs, k);
      if bs[k].addr == bs[i].addr {
        AddressUnique(bs, 0, HEAP_SIZE, i, k);
      }
    }
  }

  /** Memory after block q was joined to block p before it. */
  function JoinHeaders(mem: Memory, p: Block, q: Block): (m: Memory)
    requires p.addr in mem
  {
    var m1 := mem[p.addr := mem[p.addr].(size := p.size + q.size)];
    if q.End() < HEAP_SIZE && q.End() in m1 then m1[q.End() := m1[q.End()].(prevPhys := p.addr)] else m1
  }

  lemma JoinBefore(mem: Memory, bs: seq<Block>, i: nat, k: nat)
    requires Tiled(bs, 0, HEAP_SIZE) && k < i && i + 1 < |bs| && bs[i].addr in mem && HeaderAt(mem, bs, k)
    ensures HeaderAt(JoinHeaders(mem, bs[i], bs[i + 1]), Merge(bs, i), k)
  {
    hide Tiled;
    var r := Merge(bs, i);
    assert r[k] == bs[k] && (k > 0 ==> r[k - 1] == bs[k - 1]);
    TiledSplit(bs, 0, HEAP_SIZE, k);
    TiledOrdered(bs, 0, HEAP_SIZE, k, i);
    TiledOrdered(bs, 0, HEAP_SIZE, k, i + 1);
  }

  lemma JoinHere(mem: Memory, bs: seq<Block>, i: nat)
    requires Tiled(bs, 0, HEAP_SIZE) && i + 1 < |bs| && bs[i].free && HeaderAt(mem, bs, i)
    ensures HeaderAt(JoinHeaders(mem, bs[i], bs[i + 1]), Merge(bs, i), i)
  {
    var r := Merge(bs, i);
    assert r[i] == Block(bs[i].addr, bs[i].size + bs[i + 1].size, true) && (i > 0 ==> r[i - 1] == bs[i - 1]);
    TiledSplit(bs, 0, HEAP_SIZE, i);
    TiledSplit(bs, 0, HEAP_SIZE, i + 1);
  }

  lemma JoinAfter(mem: Memory, bs: seq<Block>, i: nat, k: nat)
    requires Tiled(bs, 0, HEAP_SIZE) && i + 1 < k < |bs| && bs[i].addr in mem && HeaderAt(mem, bs, k)
    ensures HeaderAt(JoinHeaders(mem, bs[i], bs[i + 1]), Merge(bs, i), k - 1)
  {
    hide Tiled;
    var r := Merge(bs, i);
    assert r[k - 1] == bs[k] && (k > i + 2 ==> r[k - 2] == bs[k - 1]) && r[i].addr == bs[i].addr;
    TiledSplit(bs, 0, HEAP_SIZE, i);
    TiledSplit(bs, 0, HEAP_SIZE, i + 1);
    TiledSplit(bs, 0, HEAP_SIZE, k);
    TiledOrdered(bs, 0, HEAP_SIZE, i + 1, k);
    if k > i + 2 {
      TiledOrdered(bs, 0, HEAP_SIZE, i + 2, k);
      TiledSplit(bs, 0, HEAP_SIZE, i + 2);
    }
  }

  lemma JoinHeadersOk(mem: Memory, bs: seq<Block>, i: nat)
    requires Tiled(bs, 0, HEAP_SIZE) && Headers(mem, bs) && i + 1 < |bs| && bs[i].free
    ensures bs[i].addr in mem && Headers(JoinHeaders(mem, bs[i], bs[i + 1]), Merge(bs, i))
  {
    HeaderThere(mem, bs, i);
    hide HeaderAt, JoinHeaders, Tiled;
    var m, r := JoinHeaders(mem, bs[i], bs[i + 1]), Merge(bs, i);
    forall k: nat | k < |r| ensures HeaderAt(m, r, k) {
      if k < i {
        JoinBefore(mem, bs, i, k);
      } else if k == i {
        JoinHere(mem, bs, i);
      } else {
        JoinAfter(mem, bs, i, k + 1);
      }
    }
  }

  /** Links survive any change that leaves the link fields of the entries alone. */
  lemma LinksFrame(mem: Memory, mem': Memory, head: int, l: seq<int>)
    requires Links(mem, head, l)
    requires forall a :: a in l && a in mem ==> a in mem' && mem'[a].nextFree == mem[a].nextFree && mem'[a].prevFree == mem[a].prevFree
    ensures Links(mem', head, l)
  {
    forall k | 0 <= k < |l| ensures LinksAt(mem', l, k) {
      assert LinksAt(mem, l, k) && l[k] in l;
    }
  }

  /** No block starts inside another one. */
  lemma NotInside(bs: seq<Block>, i: nat, s: int)
    requires Tiled(bs, 0, HEAP_SIZE) && i < |bs| && bs[i].addr < s < bs[i].End()
    ensures s !in FreeAddrs(bs)
  {
    forall k | 0 <= k < |bs| ensures bs[k].addr != s {
      if k < i {
        TiledOrdered(bs, 0, HEAP_SIZE, k, i);
        TiledSplit(bs, 0, HEAP_SIZE, k);
      } else if i < k {
        TiledOrdered(bs, 0, HEAP_SIZE, i, k);
      }
    }
  }

  lemma CutTiled(bs: seq<Block>, i: nat, need: nat)
    requires Tiled(bs, 0, HEAP_SIZE) && i < |bs|
    requires HDR + CANARY <= need && need + MIN_PAYLOAD <= bs[i].size
    ensures Tiled(Cut(bs, i, need), 0, HEAP_SIZE)
    ensures Cut(bs, i, need)[i] == Block(bs[i].addr, need, true)
    ensures Claim(bs, i, need) == Cut(bs, i, need)[i := Block(bs[i].addr, need, false)]
  {
    var x, y := Block(bs[i].addr, need, true), Block(bs[i].addr + need, bs[i].size - need, true);
    assert [x, y][1..] == [y] && [y][1..] == [];
    Retile(bs, 0, HEAP_SIZE, i, [x, y]);
  }

  class KernelHeap {
    var mem: Memory
    var freeListHead: int
    var heapAllocated: int
    var tails: map<int, nat>      // canary words planted at the end of blocks
    ghost var blocks: seq<Block>
    ghost var list: seq<int>

    /** Not set up yet, or: headers, free list and counter all describe one tiled and merged heap. */
    ghost predicate Valid()
      reads this
    {
      && Links(mem, freeListHead, list)
      && heapAllocated == LiveBytes(blocks)
      && WordSized(blocks)
      && if blocks == [] then list == []
         else HeapOk(blocks) && Headers(mem, blocks) && FreeAddrs(blocks) == Entries(list)
    }

    constructor ()
      ensures Valid() && blocks == [] && freeListHead == NULL
    {
      mem, freeListHead, heapAllocated, tails := map[], NULL, 0, map[];
      blocks, list := [], [];
    }

    method FreeListInsert(b: int)
      requires Links(mem, freeListHead, list) && b in mem && b !in list && b != NULL
      modifies this
      ensures Links(mem, freeListHead, list) && list == [b] + old(list)
      ensures SameButLinks(old(mem), mem)
      ensures heapAllocated == old(heapAllocated) && tails == old(tails) && blocks == old(blocks)
    {
      ghost var before, l := mem, list;
      assert l != [] ==> LinksAt(mem, l, 0);
      mem := mem[b := mem[b].(nextFree := freeListHead, prevFree := NULL)];
      if freeListHead != NULL {
        mem := mem[freeListHead := mem[freeListHead].(prevFree := b)];
      }
      freeListHead := b;
      list := [b] + list;
      forall k | 0 <= k < |list| ensures LinksAt(mem, list, k) {
        assert k > 0 ==> LinksAt(before, l, k - 1);
      }
    }

    method FreeListRemove(b: int, ghost j: nat)
      requires Links(mem, freeListHead, list) && j < |list| && list[j] == b
      modifies this
      ensures Links(mem, freeListHead, list) && list == Without(old(list), j) && b !in list
      ensures SameButLinks(old(mem), mem)
      ensures heapAllocated == old(heapAllocated) && tails == old(tails) && blocks == old(blocks)
    {
      UnlinkedOk(mem, freeListHead, list, j);
      UnlinkedSame(mem, b);
      WithoutDistinct(list, j);
      ghost var before := mem;
      var p, n := mem[b].prevFree, mem[b].nextFree;
      if p != NULL {
        mem := mem[p := mem[p].(nextFree := n)];
      } else {
        freeListHead := n;
      }
      if n != NULL {
        mem := mem[n := mem[n].(prevFree := p)];
      }
      mem := mem[b := mem[b].(nextFree := NULL, prevFree := NULL)];
      assert mem == Unlinked(before, b);
      list := Without(list, j);
    }

    /** Headers, list and blocks agree while block b is marked free but not listed. */
    ghost predicate Pending(b: int, i: nat)
      reads this
    {
      && Tiled(blocks, 0, HEAP_SIZE) && Headers(mem, blocks) && Links(mem, freeListHead, list)
      && i < |blocks| && blocks[i].addr == b && blocks[i].free
      && b !in Entries(list) && FreeAddrs(blocks) == Entries(list) + {b}
    }

    /** Joins the free block behind b to b. */
    method CoalesceForward(b: int, ghost i: nat)
      requires Pending(b, i)
      modifies this
      ensures Pending(b, i) && blocks == MergeForward(old(blocks), i)
      ensures heapAllocated == old(heapAllocated) && tails == old(tails) && SameFree(old(mem), mem)
    {
      HeaderThere(mem, blocks, i);
      TiledSplit(blocks, 0, HEAP_SIZE, i);
      var nx := b + mem[b].size;
      if nx >= HEAP_SIZE {
        if i + 1 < |blocks| {
          TiledSplit(blocks, 0, HEAP_SIZE, i + 1);
        }
        return;
      }
      HeaderThere(mem, blocks, i + 1);
      if mem[nx].magic != HDR_MAGIC || !mem[nx].free {
        return;
      }
      Absorb(b, nx, i);
    }

    /** Takes the free block nx off the list and joins it to b, the block before it. */
    method Absorb(b: int, nx: int, ghost i: nat)
      requires Pending(b, i) && i + 1 < |blocks| && blocks[i + 1].addr == nx && blocks[i + 1].free
      modifies this
      ensures Pending(b, i) && blocks == Merge(old(blocks), i)
      ensures heapAllocated == old(heapAllocated) && tails == old(tails) && SameFree(old(mem), mem)
    {
      hide Tiled, FreeAddrs, LinksAt;
      ghost var bs := blocks;
      TiledSplit(bs, 0, HEAP_SIZE, i);
      InFreeAddrs(bs, i + 1);
      ghost var j := ListIndex(nx, i + 1);
      EntriesOf(list, nx, j);
      ghost var m0 := mem;
      FreeListRemove(nx, j);
      LinksKeepHeaders(m0, mem, bs);
      HeaderThere(mem, bs, i);
      HeaderThere(mem, bs, i + 1);
      TiledSplit(bs, 0, HEAP_SIZE, i);
      TiledSplit(bs, 0, HEAP_SIZE, i + 1);
      JoinHeadersOk(mem, bs, i);
      FreeAddrsMerge(bs, i);
      MergeTiled(bs, 0, HEAP_SIZE, i);
      ghost var m1 := mem;
      mem := mem[b := mem[b].(size := mem[b].size + mem[nx].size)];
      var after := b + mem[b].size;
      if after < HEAP_SIZE {
        HeaderThere(m1, bs, i + 2);
        if mem[after].magic == HDR_MAGIC {
          mem := mem[after := mem[after].(prevPhys := b)];
        }
      }
      assert mem == JoinHeaders(m1, bs[i], bs[i + 1]);
      JoinSameFree(m0, m1, bs[i], bs[i + 1]);
      JoinKeepsLinks(m1, bs, i, freeListHead, list);
      blocks := Merge(bs, i);
    }

    /** Where a free block stands in the list. */
    lemma ListIndex(a: int, i: nat) returns (j: nat)
      requires i < |blocks| && blocks[i].free && blocks[i].addr == a && a in Entries(list)
      ensures j < |list| && list[j] == a
    {
      j :| 0 <= j < |list| && list[j] == a;
    }

    lemma JoinSameFree(m0: Memory, m1: Memory, p: Block, q: Block)
      requires SameButLinks(m0, m1) && p.addr in m1
      ensures SameFree(m0, JoinHeaders(m1, p, q))
    {
    }

    lemma JoinKeepsLinks(m: Memory, bs: seq<Block>, i: nat, head: int, l: seq<int>)
      requires Links(m, head, l) && i + 1 < |bs| && bs[i].addr in m
      ensures Links(JoinHeaders(m, bs[i], bs[i + 1]), head, l)
    {
      var m' := JoinHeaders(m, bs[i], bs[i + 1]);
      forall k | 0 <= k < |l| ensures LinksAt(m', l, k) {
        assert LinksAt(m, l, k);
      }
    }

    /** One free block of the whole heap, whatever was there before. */
    method MallocInit()
      modifies this
      ensures Valid() && blocks == [Block(0, HEAP_SIZE, true)] && list == [0] && freeListHead == 0
      ensures tails == old(tails)
    {
      mem := mem[0 := Hdr(HDR_MAGIC, true, HEAP_SIZE, NULL, NULL, NULL)];
      freeListHead, heapAllocated := 0, 0;
      blocks, list := [Block(0, HEAP_SIZE, true)], [0];
      FreshHeap(mem);
    }

    lemma FreshHeap(m: Memory)
      requires 0 in m && m[0] == Hdr(HDR_MAGIC, true, HEAP_SIZE, NULL, NULL, NULL)
      ensures var bs := [Block(0, HEAP_SIZE, true)];
              && HeapOk(bs) && Headers(m, bs) && Links(m, 0, [0]) && LiveBytes(bs) == 0
              && FreeAddrs(bs) == Entries([0])
    {
      var bs := [Block(0, HEAP_SIZE, true)];
      assert bs[1..] == [];
      assert HeaderAt(m, bs, 0) && LinksAt(m, [0], 0);
      assert bs[0].free && bs[0].addr == 0 && [0][0] == 0;
    }

    /** First fit: the first listed block of at least need bytes, or NULL if no block is large enough. */
    method FirstFit(need: nat) returns (b: int, ghost j: nat, ghost i: nat)
      requires Valid() && blocks != []
      ensures b == NULL ==> forall k :: 0 <= k < |blocks| && blocks[k].free ==> blocks[k].size < need
      ensures b != NULL ==>
                && j < |list| && list[j] == b && i < |blocks| && blocks[i].addr == b && blocks[i].free
                && blocks[i].size >= need
                && forall k :: 0 <= k < j ==> list[k] in mem && mem[list[k]].size < need
    {
      b, j, i := freeListHead, 0, 0;
      assert list != [] ==> LinksAt(mem, list, 0);
      while b != NULL && mem[b].size < need
        invariant 0 <= j <= |list| && b == At(list, j) && (b == NULL ==> j == |list|) && (b != NULL ==> b in mem)
        invariant forall k :: 0 <= k < j ==> list[k] in mem && mem[list[k]].size < need
        decreases |list| - j
      {
        assert LinksAt(mem, list, j);
        b, j := mem[b].nextFree, j + 1;
        assert j < |list| ==> LinksAt(mem, list, j);
      }
      if b == NULL {
        forall k: nat | k < |blocks| && blocks[k].free ensures blocks[k].size < need {
          InFreeAddrs(blocks, k);
          var n := ListIndex(blocks[k].addr, k);
          HeaderThere(mem, blocks, k);
        }
      } else {
        assert list[j] in Entries(list);
        i :| 0 <= i < |blocks| && blocks[i].free && blocks[i].addr == b;
        HeaderThere(mem, blocks, i);
      }
    }

    /** Everything Valid asks for but the merging of neighbours and the counter. */
    ghost predicate Consistent()
      reads this
    {
      && Tiled(blocks, 0, HEAP_SIZE) && Headers(mem, blocks) && Links(mem, freeListHead, list)
      && FreeAddrs(blocks) == Entries(list)
    }

    /** The header of the second half and the back link of the block behind it. */
    method WriteSplit(b: int, need: nat, ghost i: nat)
      requires Tiled(blocks, 0, HEAP_SIZE) && Headers(mem, blocks) && i < |blocks| && blocks[i].addr == b
      requires 0 < need < blocks[i].size && b in mem
      modifies `mem
      ensures b in mem && b + need in mem && mem[b := mem[b].(size := need)] == CutHeaders(old(mem), blocks[i], need)
      ensures forall a :: a in old(mem) && a != b + need ==>
                a in mem && mem[a].nextFree == old(mem[a].nextFree) && mem[a].prevFree == old(mem[a].prevFree)
    {
      hide Tiled;
      ghost var bs, m0 := blocks, mem;
      HeaderThere(mem, bs, i);
      TiledSplit(bs, 0, HEAP_SIZE, i);
      var split := b + need;
      mem := mem[split := Hdr(HDR_MAGIC, true, mem[b].size - need, b, NULL, NULL)];
      var after := split + mem[split].size;
      if after < HEAP_SIZE {
        HeaderThere(m0, bs, i + 1);
        if mem[after].magic == HDR_MAGIC {
          mem := mem[after := mem[after].(prevPhys := split)];
        }
      }
    }

    /** Cuts the free block b behind need bytes; the second half goes to the head of the list. */
    method SplitBlock(b: int, need: nat, ghost i: nat)
      requires Consistent() && i < |blocks| && blocks[i].addr == b && blocks[i].free
      requires HDR + CANARY <= need && need + MIN_PAYLOAD <= blocks[i].size
      modifies this
      ensures Consistent() && blocks == Cut(old(blocks), i, need) && list == [b + need] + old(list)
      ensures heapAllocated == old(heapAllocated) && tails == old(tails)
    {
      hide Tiled, FreeAddrs, Cut, LinksAt;
      ghost var bs, m0, l := blocks, mem, list;
      HeaderThere(mem, bs, i);
      TiledSplit(bs, 0, HEAP_SIZE, i);
      CutHeadersOk(mem, bs, i, need);
      CutTiled(bs, i, need);
      FreeAddrsCut(bs, i, need);
      NotInside(bs, i, b + need);
      EntriesOf(l, b + need, 0);
      var split := b + need;
      WriteSplit(b, need, i);
      LinksFrame(m0, mem, freeListHead, l);
      ghost var m1 := mem;
      FreeListInsert(split);
      ghost var m2 := mem;
      mem := mem[b := mem[b].(size := need)];
      assert m1[b := m1[b].(size := need)] == CutHeaders(m0, bs[i], need);
      LinksKeepHeaders(CutHeaders(m0, bs[i], need), mem, Cut(bs, i, need));
      LinksFrame(m2, mem, freeListHead, list);
      blocks := Cut(bs, i, need);
    }

    /** Takes block b off the list and marks it used. */
    method TakeBlock(b: int, ghost i: nat, ghost j: nat)
      requires Consistent() && i < |blocks| && blocks[i].addr == b && blocks[i].free
      requires j < |list| && list[j] == b
      modifies this
      ensures Consistent() && blocks == old(blocks)[i := old(blocks)[i].(free := false)]
      ensures list == Without(old(list), j)
      ensures heapAllocated == old(heapAllocated) + old(blocks)[i].size
      ensures tails == old(tails)[b + old(blocks)[i].size - CANARY := TAIL_MAGIC]
    {
      hide FreeAddrs, LinksAt;
      ghost var bs, m0 := blocks, mem;
      EntriesOf(list, b, j);
      FreeListRemove(b, j);
      LinksKeepHeaders(m0, mem, bs);
      ghost var m1 := mem;
      MarkHeaders(mem, bs, i, false);
      FreeAddrsMark(bs, i, false);
      HeaderThere(mem, bs, i);
      TiledSplit(bs, 0, HEAP_SIZE, i);
      Retile(bs, 0, HEAP_SIZE, i, [bs[i].(free := false)]);
      assert [bs[i].(free := false)][1..] == [];
      assert bs[..i] + [bs[i].(free := false)] + bs[i + 1..] == bs[i := bs[i].(free := false)];
      mem := mem[b := mem[b].(free := false)];
      LinksFrame(m1, mem, freeListHead, list);
      heapAllocated := heapAllocated + mem[b].size;
      tails := tails[b + mem[b].size - CANARY := TAIL_MAGIC];
      blocks := bs[i := bs[i].(free := false)];
    }

    /** Allocates: the blocks become the Claim of the first listed block that is large enough. If the
        free list is empty the heap is set up afresh first, and live blocks are forgotten. */
    method Kmalloc(size: nat) returns (p: int, ghost i: nat)
      requires Valid() && Need(size) < SIZE_MAX
      modifies this
      ensures Valid()
      ensures size == 0 ==> p == NULL && blocks == old(blocks) && list == old(list)
      ensures p != NULL ==> p % 4 == 0
      ensures size > 0 ==>
                var base := if old(freeListHead) == NULL then [Block(0, HEAP_SIZE, true)] else old(blocks);
                && HeapOk(base)
                && (p == NULL ==> blocks == base && forall k :: 0 <= k < |base| && base[k].free ==> base[k].size < Need(size))
                && (p != NULL ==>
                      && i < |base| && base[i].free && Need(size) <= base[i].size && p == base[i].addr + HDR
                      && blocks == Claim(base, i, Need(size))
                      && Live(blocks) == Live(base) + {Claimed(base, i, Need(size))}
                      && Claimed(base, i, Need(size)) !in Live(base)
                      && var at := base[i].addr + Claimed(base, i, Need(size)).size - CANARY;
                         p + size <= at && at in tails && tails[at] == TAIL_MAGIC)
    {
      hide Tiled, Live, LiveBytes, Merged;
      p, i := NULL, 0;
      if size == 0 {
        return;
      }
      if freeListHead == NULL {
        MallocInit();
      }
      ghost var base := blocks;
      var need := Need(size);
      ghost var j;
      var b;
      b, j, i := FirstFit(need);
      if b == NULL {
        return;
      }
      HeaderThere(mem, blocks, i);
      ClaimOk(base, i, need);
      ClaimWords(base, i, need);
      if mem[b].size >= need + MIN_PAYLOAD {
        CutTiled(base, i, need);
        SplitBlock(b, need, i);
        j := j + 1;
      }
      TakeBlock(b, i, j);
      p := b + HDR;
    }

    /** A pointer that kmalloc gave out: its header still says free, or it is the header of a block. */
    ghost predicate Freeable(ptr: int)
      reads this
    {
      && ptr - HDR in mem && mem[ptr - HDR].magic == HDR_MAGIC
      && (mem[ptr - HDR].free || exists k :: 0 <= k < |blocks| && blocks[k].addr + HDR == ptr)
    }

    /** Nothing changed. */
    twostate predicate Untouched()
      reads this
    {
      && mem == old(mem) && freeListHead == old(freeListHead) && heapAllocated == old(heapAllocated)
      && tails == old(tails) && blocks == old(blocks) && list == old(list)
    }

    /** Frees a block and joins it to its free neighbours. NULL and a pointer whose header already says
        free are left alone; that header may have been swallowed by another block long ago. */
    method Kfree(ptr: int) returns (ghost i: nat)
      requires Valid() && (ptr == NULL || Freeable(ptr))
      modifies this
      ensures Valid() && tails == old(tails)
      ensures ptr == NULL || old(mem[ptr - HDR].free) ==> Untouched()
      ensures ptr != NULL && !old(mem[ptr - HDR].free) ==>
                && i < |old(blocks)| && old(blocks)[i].addr + HDR == ptr && !old(blocks)[i].free
                && blocks == Release(old(blocks), i) && Live(blocks) == Live(old(blocks)) - {old(blocks)[i]}
                && ptr - HDR in mem && mem[ptr - HDR].free && mem[ptr - HDR].magic == HDR_MAGIC
    {
      hide Tiled, Live, LiveBytes, FreeAddrs, Entries, Links, Merged, SameFree;
      i := 0;
      if ptr == NULL {
        return;
      }
      var b := ptr - HDR;
      if mem[b].magic != HDR_MAGIC || mem[b].free {
        return;
      }
      i :| 0 <= i < |blocks| && blocks[i].addr + HDR == ptr;
      HeaderThere(mem, blocks, i);
      ReleaseOk(blocks, i);
      ReleaseWords(blocks, i);
      FreeBlock(b, i);
    }

    /** Marks b free, joins it to its free neighbours and lists the result. */
    method FreeBlock(b: int, ghost i: nat)
      requires Consistent() && Merged(blocks) && i < |blocks| && blocks[i].addr == b && !blocks[i].free
      modifies this
      ensures Consistent() && blocks == Release(old(blocks), i)
      ensures heapAllocated == old(heapAllocated) - old(blocks)[i].size && tails == old(tails)
      ensures b in mem && mem[b].free && mem[b].magic == HDR_MAGIC
    {
      hide Tiled, Live, LiveBytes, FreeAddrs, Entries, Links, Merged, Headers, Consistent;
      ForwardMerged(blocks, i);
      MarkFree(b, i);
      CoalesceForward(b, i);
      ghost var joined := i > 0 && blocks[i - 1].free;
      var c := CoalesceBackward(b, i);
      ListBlock(c, if joined then i - 1 else i);
    }

    /** Freeing a pointer twice in a row is freeing it once. */
    method FreeTwice(ptr: int) returns (ghost i: nat)
      requires Valid() && ptr != NULL && Freeable(ptr)
      modifies this
      ensures Valid()
      ensures !old(mem[ptr - HDR].free) ==>
                i < |old(blocks)| && old(blocks)[i].addr + HDR == ptr && blocks == Release(old(blocks), i)
      ensures old(mem[ptr - HDR].free) ==> Untouched()
    {
      i := Kfree(ptr);
      label Once:
      ghost var j := Kfree(ptr);
      assert Untouched@Once();
    }

    /** Joins b to the block before it if that one is free; the answer is the joined block. */
    method CoalesceBackward(b: int, ghost i: nat) returns (c: int)
      requires Pending(b, i)
      modifies this
      ensures heapAllocated == old(heapAllocated) && tails == old(tails) && SameFree(old(mem), mem)
      ensures var joined := i > 0 && old(blocks)[i - 1].free;
              && blocks == (if joined then Merge(old(blocks), i - 1) else old(blocks))
              && c == (if joined then old(blocks)[i - 1].addr else b)
              && Pending(c, if joined then i - 1 else i)
    {
      c := b;
      HeaderThere(mem, blocks, i);
      var prev := mem[b].prevPhys;
      if prev != NULL {
        HeaderThere(mem, blocks, i - 1);
        if mem[prev].magic == HDR_MAGIC && mem[prev].free {
          JoinPrevious(prev, b, i);
          c := prev;
        }
      }
    }

    /** Puts a free block that is not listed yet on the list. */
    method ListBlock(b: int, ghost i: nat)
      requires Pending(b, i)
      modifies this
      ensures Consistent() && blocks == old(blocks)
      ensures heapAllocated == old(heapAllocated) && tails == old(tails) && SameFree(old(mem), mem)
    {
      HeaderThere(mem, blocks, i);
      EntriesOf(list, b, 0);
      ghost var m0 := mem;
      FreeListInsert(b);
      LinksKeepHeaders(m0, mem, blocks);
      LinksSameFree(m0, mem);
    }

    /** Marks the live block b free without listing it yet. */
    method MarkFree(b: int, ghost i: nat)
      requires Consistent() && i < |blocks| && blocks[i].addr == b && !blocks[i].free
      modifies this
      ensures Pending(b, i) && blocks == old(blocks)[i := old(blocks)[i].(free := true)]
      ensures heapAllocated == old(heapAllocated) - old(blocks)[i].size && tails == old(tails)
      ensures b in mem && mem[b].free && mem[b].magic == HDR_MAGIC
    {
      ghost var bs, m0 := blocks, mem;
      HeaderThere(mem, bs, i);
      MarkHeaders(mem, bs, i, true);
      FreeAddrsMark(bs, i, true);
      MarkOk(bs, 0, HEAP_SIZE, i);
      LiveNotListed(bs, i);
      EntriesOf(list, b, 0);
      heapAllocated := heapAllocated - mem[b].size;
      mem := mem[b := mem[b].(free := true)];
      LinksFrame(m0, mem, freeListHead, list);
      blocks := bs[i := bs[i].(free := true)];
    }

    lemma LiveNotListed(bs: seq<Block>, i: nat)
      requires Tiled(bs, 0, HEAP_SIZE) && i < |bs| && !bs[i].free
      ensures bs[i].addr !in FreeAddrs(bs)
    {
      FreeAddrsAround(bs, i);
      FreeAddrsOne(bs[i]);
      AddrNotIn(bs, i);
    }

    /** Takes the free block before b off the list and joins b to it. */
    method JoinPrevious(prev: int, b: int, ghost i: nat)
      requires Pending(b, i) && i > 0 && blocks[i - 1].addr == prev && blocks[i - 1].free
      modifies this
      ensures Pending(prev, i - 1) && blocks == Merge(old(blocks), i - 1)
      ensures heapAllocated == old(heapAllocated) && tails == old(tails) && SameFree(old(mem), mem)
    {
      hide Tiled, FreeAddrs, LinksAt;
      ghost var bs, m0 := blocks, mem;
      TiledSplit(bs, 0, HEAP_SIZE, i - 1);
      TiledSplit(bs, 0, HEAP_SIZE, i);
      InFreeAddrs(bs, i - 1);
      ghost var j := ListIndex(prev, i - 1);
      EntriesOf(list, prev, j);
      FreeListRemove(prev, j);
      LinksKeepHeaders(m0, mem, bs);
      HeaderThere(mem, bs, i);
      HeaderThere(mem, bs, i - 1);
      JoinHeadersOk(mem, bs, i - 1);
      FreeAddrsMerge(bs, i - 1);
      MergeTiled(bs, 0, HEAP_SIZE, i - 1);
      ghost var m1 := mem;
      mem := mem[prev := mem[prev].(size := mem[prev].size + mem[b].size)];
      var after := prev + mem[prev].size;
      if after < HEAP_SIZE {
        HeaderThere(m1, bs, i + 1);
        if mem[after].magic == HDR_MAGIC {
          mem := mem[after := mem[after].(prevPhys := prev)];
        }
      }
      assert mem == JoinHeaders(m1, bs[i - 1], bs[i]);
      JoinSameFree(m0, m1, bs[i - 1], bs[i]);
      JoinKeepsLinks(m1, bs, i - 1, freeListHead, list);
      blocks := Merge(bs, i - 1);
    }

    /** Frees every live block, in whatever order: the heap is one free block again. */
    method FreeAll(ptrs: seq<int>)
      requires Valid() && blocks != [] && Distinct(ptrs) && Payloads(blocks) == Entries(ptrs)
      modifies this
      ensures Valid() && blocks == [Block(0, HEAP_SIZE, true)] && heapAllocated == 0
    {
      var n := 0;
      assert ptrs[0..] == ptrs;
      while n < |ptrs|
        invariant 0 <= n <= |ptrs| && Valid() && blocks != []
        invariant Payloads(blocks) == Entries(ptrs[n..])
      {
        ghost var bs := blocks;
        ghost var k := PayloadIndex(bs, ptrs, n);
        HeaderThere(mem, bs, k);
        ghost var i := Kfree(ptrs[n]);
        AddressUnique(bs, 0, HEAP_SIZE, i, k);
        PayloadsRelease(bs, i);
        NextEntries(ptrs, n);
        EmptyIsNotTiled(blocks);
        n := n + 1;
      }
      assert Live(blocks) == {} by {
        NoPayload(blocks);
      }
      AllFree(blocks);
    }
  }

  /** The pointers that kmalloc returned for the live blocks. */
  ghost function Payloads(bs: seq<Block>): set<int> {
    set l | l in Live(bs) :: l.addr + HDR
  }

  lemma NoPayload(bs: seq<Block>)
    requires Payloads(bs) == Entries([])
    ensures Live(bs) == {}
  {
    forall l: Block ensures l !in Live(bs) {
      PayloadIn(bs, l);
    }
  }

  lemma PayloadIn(bs: seq<Block>, l: Block)
    ensures l !in Live(bs) || l.addr + HDR in Payloads(bs)
  {
  }

  lemma PayloadIndex(bs: seq<Block>, ptrs: seq<int>, n: nat) returns (k: nat)
    requires n < |ptrs| && Payloads(bs) == Entries(ptrs[n..])
    ensures k < |bs| && bs[k].addr + HDR == ptrs[n] && !bs[k].free && ptrs[n] != NULL
  {
    assert ptrs[n..][0] == ptrs[n];
    assert ptrs[n] in Payloads(bs);
    var l :| l in Live(bs) && l.addr + HDR == ptrs[n];
    k :| 0 <= k < |bs| && !bs[k].free && bs[k] == l;
  }

  lemma NextEntries(ptrs: seq<int>, n: nat)
    requires n < |ptrs| && Distinct(ptrs)
    ensures Entries(ptrs[n + 1..]) == Entries(ptrs[n..]) - {ptrs[n]}
  {
    var l := ptrs[n..];
    EntriesOf(l, 0, 0);
    assert Without(l, 0) == ptrs[n + 1..] && l[0] == ptrs[n];
  }

  lemma PayloadsRelease(bs: seq<Block>, i: nat)
    requires HeapOk(bs) && i < |bs| && !bs[i].free
    ensures Payloads(Release(bs, i)) == Payloads(bs) - {bs[i].addr + HDR}
  {
    ReleaseOk(bs, i);
    hide Release;
    forall l | l in Live(bs) && l.addr == bs[i].addr ensures l == bs[i] {
      var k :| 0 <= k < |bs| && !bs[k].free && bs[k] == l;
      AddressUnique(bs, 0, HEAP_SIZE, i, k);
    }
    InLive(bs, i);
  }

  lemma EmptyIsNotTiled(bs: seq<Block>)
    ensures bs == [] ==> !HeapOk(bs)
  {
  }

  /** Every request needs 4 bytes more than a multiple of 16. */
  lemma NeedResidue(size: nat)
    ensures Need(size) % 16 == 4
  {
    ModDrop(4, (size + 15) / 16 + 3, 16);
    assert Need(size) == 4 + ((size + 15) / 16 + 3) * 16;
  }

  lemma SerialStart()
    ensures Serial([Block(0, HEAP_SIZE, true)], 0)
  {
  }

  /** As long as a block is listed the last request did not take the rest of the heap. */
  lemma StillSerial(base: seq<Block>, l: seq<int>, k: nat, need: nat)
    requires Serial(base, k) && need <= base[k].size && need % 16 == 4
    requires l != [] && FreeAddrs(Claim(base, k, need)) == Entries(l)
    ensures Serial(Claim(base, k, need), k + 1)
  {
    SerialNext(base, k, k, need);
    assert l[0] in Entries(l);
  }

  /** Requests to a heap that was never set up, without any kfree, until one fails or the heap is full. */
  method AllocateAll(h: KernelHeap, sizes: seq<nat>) returns (ptrs: seq<int>)
    requires h.Valid() && h.blocks == [] && h.freeListHead == NULL
    requires forall k :: 0 <= k < |sizes| ==> 0 < sizes[k] && Need(sizes[k]) < SIZE_MAX
    modifies h
    ensures h.Valid() && |ptrs| <= |sizes|
    ensures |ptrs| < |sizes| && h.freeListHead != NULL ==>
              forall k :: 0 <= k < |h.blocks| && h.blocks[k].free ==> h.blocks[k].size < Need(sizes[|ptrs|])
    ensures forall k :: 0 <= k < |ptrs| ==> ptrs[k] != NULL && (ptrs[k] % 16 == 0 <==> k % 4 == 0)
  {
    hide HeapOk, Claim, Serial, WordSized, AlignUp, Need, Live, Links, Headers, FreeAddrs, Entries, LiveBytes;
    ptrs := [];
    while |ptrs| < |sizes|
      invariant h.Valid() && |ptrs| <= |sizes|
      invariant forall k :: 0 <= k < |ptrs| ==> ptrs[k] != NULL && (ptrs[k] % 16 == 0 <==> k % 4 == 0)
      invariant if |ptrs| == 0 then h.freeListHead == NULL
                else h.freeListHead != NULL && HeapOk(h.blocks) && Serial(h.blocks, |ptrs|)
      decreases |sizes| - |ptrs|
    {
      var k := |ptrs|;
      ghost var base := if k == 0 then [Block(0, HEAP_SIZE, true)] else h.blocks;
      SerialStart();
      NeedResidue(sizes[k]);
      var p;
      ghost var i;
      p, i := h.Kmalloc(sizes[k]);
      if p == NULL {
        return;
      }
      SerialNext(base, k, i, Need(sizes[k]));
      SerialPayload(base, k);
      ptrs := ptrs + [p];
      if h.freeListHead == NULL {
        return;
      }
      assert h.list != [] && HeapOk(h.blocks) && FreeAddrs(h.blocks) == Entries(h.list) by {
        ListedHeap(h.mem, h.freeListHead, h.list);
        EmptyIsNotTiled(h.blocks);
        ClaimNotEmpty(base, i, Need(sizes[k]));
      }
      StillSerial(base, h.list, k, Need(sizes[k]));
    }
  }

  lemma SerialPayload(bs: seq<Block>, k: nat)
    requires HeapOk(bs) && Serial(bs, k)
    ensures (bs[k].addr + HDR) % 16 == 0 <==> k % 4 == 0
  {
    SerialAligned(bs, k, k);
  }

  lemma ListedHeap(m: Memory, head: int, l: seq<int>)
    requires Links(m, head, l) && head != NULL
    ensures l != []
  {
  }

  lemma ClaimNotEmpty(bs: seq<Block>, i: nat, need: nat)
    requires i < |bs| && need <= bs[i].size
    ensures Claim(bs, i, need) != []
  {
  }

  /** Two requests for one byte each on a fresh heap. */
  method TwoLive() returns (h: KernelHeap, p: int, q: int)
    ensures fresh(h) && h.Valid() && p == 48 && q == 116
    ensures h.blocks == [Block(0, 68, false), Block(68, 68, false), Block(136, HEAP_SIZE - 136, true)]
  {
    hide Merged, WordSized;
    h := new KernelHeap();
    ghost var i, k;
    p, i := h.Kmalloc(1);
    assert h.blocks == [Block(0, 68, false), Block(68, HEAP_SIZE - 68, true)];
    EmptyListMeansFull(h.blocks, h.list);
    SomeFree(h.blocks);
    assert h.list != [] && LinksAt(h.mem, h.list, 0);
    q, k := h.Kmalloc(1);
  }

  lemma SomeFree(bs: seq<Block>)
    requires bs == [Block(0, 68, false), Block(68, HEAP_SIZE - 68, true)]
    ensures LiveBytes(bs) == 68
  {
    var rest := bs[1..];
    assert rest == [Block(68, HEAP_SIZE - 68, true)] && rest[1..] == [];
    assert LiveBytes(rest[1..]) == 0 && LiveBytes(rest) == 0;
    assert bs[0].size == 68;
  }

  /** The second of two requests for one byte gets a pointer that is not a multiple of 16. */
  method SecondPointer() returns (p: int, q: int)
    ensures p == 48 && q == 116 && q % 16 == 4
  {
    var h;
    h, p, q := TwoLive();
  }

  /** A second kfree of a block that was merged into the block before it: the heap does not change. */
  method FreeMergedTwice() returns (h: KernelHeap)
    ensures fresh(h) && h.Valid() && h.blocks == [Block(0, HEAP_SIZE, true)]
  {
    hide KernelHeap.Valid, Live;
    var p, q;
    h, p, q := TwoLive();
    assert h.Freeable(p) && !h.mem[0].free by { BlockFreeable(h, 0); }
    ghost var i := h.Kfree(p);
    assert h.blocks == [Block(0, 68, true), Block(68, 68, false), Block(136, HEAP_SIZE - 136, true)];
    assert h.Freeable(q) && !h.mem[68].free by { BlockFreeable(h, 1); }
    i := h.FreeTwice(q);
    assert h.blocks == [Block(0, HEAP_SIZE, true)];
  }

  lemma BlockFreeable(h: KernelHeap, k: nat)
    requires h.Valid() && k < |h.blocks|
    ensures h.Freeable(h.blocks[k].addr + HDR) && h.mem[h.blocks[k].addr].free == h.blocks[k].free
  {
    HeaderThere(h.mem, h.blocks, k);
  }

  /** The free list is empty exactly when the live blocks fill the heap. */
  lemma EmptyListMeansFull(bs: seq<Block>, l: seq<int>)
    requires HeapOk(bs) && FreeAddrs(bs) == Entries(l)
    ensures l == [] <==> LiveBytes(bs) == HEAP_SIZE
  {
    FullHeap(bs, 0, HEAP_SIZE);
    if l == [] {
      forall i: nat | i < |bs| ensures !bs[i].free {
        if bs[i].free {
          InFreeAddrs(bs, i);
        }
      }
    } else {
      assert l[0] in Entries(l);
    }
  }

  /** The set-up that kmalloc repeats on an empty free list hands out live memory: one request for
      all of the heap, then another request, and both return the same pointer. */
  method ReissueLiveMemory() returns (p: int, q: int)
    ensures p == q == HDR
  {
    var h := new KernelHeap();
    ghost var i, k;
    p, i := h.Kmalloc(HEAP_SIZE - 112);
    ghost var bs := h.blocks;
    assert bs == [Block(0, HEAP_SIZE, false)];
    EmptyListMeansFull(bs, h.list);
    q, k := h.Kmalloc(16);
  }
}
