/** discreader/Map.c: the doubly linked list of free space, entered from its tail. */
module FreeLists {
  import opened DiscScan

  /** s_freeinfo */
  class Node {
    var zone: nat
    var start: nat
    var len: nat
    var prev: Node?
    var next: Node?

    constructor (zone: nat, start: nat, len: nat)
      ensures this.zone == zone && this.start == start && this.len == len
    {
      this.zone, this.start, this.len, prev, next := zone, start, len, null, null;
    }
  }

  function After(q: seq<Node>, i: nat): Node?
    requires i < |q|
  {
    if i + 1 < |q| then q[i + 1] else null
  }

  function Before(q: seq<Node>, i: nat): Node?
    requires i < |q|
  {
    if i > 0 then q[i - 1] else null
  }

  function Last(q: seq<Node>): Node? {
    if q == [] then null else q[|q| - 1]
  }

  ghost predicate Distinct(q: seq<Node>) {
    forall i, j :: 0 <= i < j < |q| ==> q[i] != q[j]
  }

  /** The pointers of the nodes follow the order of q. */
  ghost predicate Chained(q: seq<Node>)
    reads q`next, q`prev
  {
    forall i :: 0 <= i < |q| ==> q[i].next == After(q, i) && q[i].prev == Before(q, i)
  }

  /** The node at place i after node k was taken out of q. */
  lemma Moved(q: seq<Node>, k: nat, r: seq<Node>, i: nat)
    requires k < |q| && r == q[..k] + q[k + 1..] && i < |r|
    ensures r[i] == q[if i < k then i else i + 1]
    ensures After(r, i) == if i + 1 == k then After(q, k) else After(q, if i < k then i else i + 1)
    ensures Before(r, i) == if i == k then Before(q, k) else Before(q, if i < k then i else i + 1)
  {
  }

  /** What the pointers look like after node k was taken out of q. */
  lemma Shortened(q: seq<Node>, k: nat, r: seq<Node>)
    requires Distinct(q) && k < |q| && r == q[..k] + q[k + 1..]
    requires forall i :: 0 <= i < |q| && i != k ==> q[i].next == if i + 1 == k then After(q, k) else After(q, i)
    requires forall i :: 0 <= i < |q| && i != k ==> q[i].prev == if i == k + 1 then Before(q, k) else Before(q, i)
    ensures Distinct(r) && Chained(r)
    ensures Last(r) == if k + 1 == |q| then Before(q, k) else Last(q)
  {
    hide After, Before;
    forall i | 0 <= i < |r| ensures r[i].next == After(r, i) && r[i].prev == Before(r, i) {
      Moved(q, k, r, i);
    }
    ShorterDistinct(q, k, r);
    ShorterLast(q, k, r);
  }

  lemma ShorterDistinct(q: seq<Node>, k: nat, r: seq<Node>)
    requires Distinct(q) && k < |q| && r == q[..k] + q[k + 1..]
    ensures Distinct(r)
  {
    forall i, j | 0 <= i < j < |r| ensures r[i] != r[j] {
      Apart(q, if i < k then i else i + 1, if j < k then j else j + 1);
    }
  }

  lemma ShorterLast(q: seq<Node>, k: nat, r: seq<Node>)
    requires k < |q| && r == q[..k] + q[k + 1..]
    ensures Last(r) == if k + 1 == |q| then Before(q, k) else Last(q)
  {
  }

  /** The entries that the nodes hold. */
  ghost function Entries(q: seq<Node>): (l: seq<FreeInfo>)
    reads q`zone, q`start, q`len
    ensures |l| == |q| && forall i :: 0 <= i < |q| ==> l[i] == FreeInfo(q[i].zone, q[i].start, q[i].len)
  {
    if q == [] then [] else Entries(q[..|q| - 1]) + [FreeInfo(q[|q| - 1].zone, q[|q| - 1].start, q[|q| - 1].len)]
  }

  lemma EntriesWithout(q: seq<Node>, k: nat)
    requires k < |q|
    ensures Entries(q[..k] + q[k + 1..]) == Entries(q)[..k] + Entries(q)[k + 1..]
  {
    hide Entries;
    var r, l := q[..k] + q[k + 1..], Entries(q);
    var m := l[..k] + l[k + 1..];
    forall i | 0 <= i < |r| ensures Entries(r)[i] == m[i] {
      var j := if i < k then i else i + 1;
      assert r[i] == q[j] && m[i] == l[j];
      EntryAt(q, j);
      EntryAt(r, i);
    }
    assert |Entries(r)| == |m|;
  }

  lemma EntryAt(q: seq<Node>, i: nat)
    requires i < |q|
    ensures Entries(q)[i] == FreeInfo(q[i].zone, q[i].start, q[i].len)
  {
  }

  lemma Ends(q: seq<Node>, k: nat)
    requires k < |q|
    ensures After(q, k) == if k + 1 < |q| then q[k + 1] else null
    ensures Before(q, k) == if k > 0 then q[k - 1] else null
  {
  }

  lemma Apart(q: seq<Node>, i: nat, j: nat)
    requires Distinct(q) && i < |q| && j < |q| && i != j
    ensures q[i] != q[j]
  {
  }

  class FreeList {
    var tail: Node?
    ghost var nodes: seq<Node>
    ghost var repr: set<Node>   // the nodes, and those that have left the list

    ghost predicate Valid()
      reads this, repr
    {
      (forall n :: n in nodes ==> n in repr) && Distinct(nodes) && tail == Last(nodes) && Chained(nodes)
    }

    /** The entries, in list order. */
    ghost function Contents(): (l: seq<FreeInfo>)
      reads this, nodes`zone, nodes`start, nodes`len
      ensures |l| == |nodes|
    {
      Entries(nodes)
    }

    lemma At(k: nat)
      requires k < |nodes|
      ensures Contents()[k] == FreeInfo(nodes[k].zone, nodes[k].start, nodes[k].len)
    {
      hide Entries;
    }

    constructor ()
      ensures Valid() && nodes == [] && Contents() == [] && repr == {}
    {
      tail, nodes, repr := null, [], {};
    }

    /** AddFree: the new entry goes behind the tail. */
    method Append(zone: nat, start: nat, len: nat)
      requires Valid()
      modifies this, repr
      ensures Valid() && fresh(repr - old(repr))
      ensures |nodes| == |old(nodes)| + 1 && nodes[..|old(nodes)|] == old(nodes)
      ensures Contents() == old(Contents()) + [FreeInfo(zone, start, len)]
    {
      ghost var q := nodes;
      var node := new Node(zone, start, len);
      if tail != null {
        tail.next := node;
      }
      node.prev := tail;
      node.next := null;
      tail := node;
      nodes, repr := q + [node], repr + {node};
      assert nodes[..|q|] == q;
    }

    /** The start of the entry before the node, if it lies in the same zone. */
    method PrevStart(node: Node, ghost k: nat) returns (same: bool, start: nat)
      requires Valid() && k < |nodes| && nodes[k] == node
      ensures same <==> k > 0 && Contents()[k - 1].zone == Contents()[k].zone
      ensures start == if same then Contents()[k - 1].start else 0
    {
      same, start := false, 0;
      if node.prev != null && node.prev.zone == node.zone {
        same, start := true, node.prev.start;
      }
    }

    /** The start of the entry behind the node, if it lies in the same zone. */
    method NextStart(node: Node, ghost k: nat) returns (same: bool, start: nat)
      requires Valid() && k < |nodes| && nodes[k] == node
      ensures same <==> k + 1 < |nodes| && Contents()[k + 1].zone == Contents()[k].zone
      ensures start == if same then Contents()[k + 1].start else 0
    {
      same, start := false, 0;
      if node.next != null && node.next.zone == node.zone {
        same, start := true, node.next.start;
      }
    }

    /** MakeID on the list: the first n bits of an entry are taken; an entry taken whole leaves the list. */
    method Take(node: Node, n: nat, ghost k: nat)
      requires Valid() && k < |nodes| && nodes[k] == node && n <= node.len
      modifies this, repr
      ensures Valid() && repr == old(repr) && Contents() == TakeFree(old(Contents()), k, n)
      ensures nodes == if n < old(node.len) then old(nodes) else old(nodes)[..k] + old(nodes)[k + 1..]
    {
      hide Chained, Distinct;
      if n < node.len {
        Shrink(node, n, k);
      } else {
        Unlink(node, k);
      }
    }

    method Shrink(node: Node, n: nat, ghost k: nat)
      requires Distinct(nodes) && k < |nodes| && nodes[k] == node && n <= node.len
      modifies node`start, node`len
      ensures Contents() == old(Contents())[k := FreeInfo(node.zone, old(node.start) + n, old(node.len) - n)]
    {
      node.start := node.start + n;
      node.len := node.len - n;
      forall i | 0 <= i < |nodes| && i != k ensures nodes[i] != node {
        Apart(nodes, i, k);
      }
    }

    method Unlink(node: Node, ghost k: nat)
      requires Valid() && k < |nodes| && nodes[k] == node
      modifies `tail, `nodes, repr`next, repr`prev
      ensures Valid() && nodes == old(nodes)[..k] + old(nodes)[k + 1..]
      ensures Contents() == old(Contents())[..k] + old(Contents())[k + 1..]
    {
      hide Distinct, Chained, Before, Last, Entries;
      Bypass(node, k);
      ghost var q := nodes;
      nodes := q[..k] + q[k + 1..];
      Shortened(q, k, nodes);
      EntriesWithout(q, k);
    }

    /** The pointers around a node lead past it. */
    method Bypass(node: Node, ghost k: nat)
      requires Valid() && k < |nodes| && nodes[k] == node
      modifies `tail, repr`next, repr`prev
      ensures Distinct(nodes) && tail == if k + 1 == |nodes| then Before(nodes, k) else Last(nodes)
      ensures forall i :: 0 <= i < |nodes| && i != k ==>
                nodes[i].next == if i + 1 == k then After(nodes, k) else After(nodes, i)
      ensures forall i :: 0 <= i < |nodes| && i != k ==>
                nodes[i].prev == if i == k + 1 then Before(nodes, k) else Before(nodes, i)
    {
      hide Distinct, After, Before;
      assert forall i :: 0 <= i < |nodes| ==> nodes[i].next == After(nodes, i) && nodes[i].prev == Before(nodes, i);
      Ends(nodes, k);
      if node.next != null {
        node.next.prev := node.prev;
      } else {
        tail := node.prev;
      }
      assert node.next == After(nodes, k) && node.prev == Before(nodes, k) by {
        if k + 1 < |nodes| { Apart(nodes, k, k + 1); }
      }
      if node.prev != null {
        node.prev.next := node.next;
      }
      forall i | 0 <= i < |nodes| && i != k
        ensures nodes[i].next == if i + 1 == k then After(nodes, k) else After(nodes, i)
        ensures nodes[i].prev == if i == k + 1 then Before(nodes, k) else Before(nodes, i)
      {
        if k + 1 < |nodes| && i != k + 1 { Apart(nodes, i, k + 1); }
        if k > 0 && i != k - 1 { Apart(nodes, i, k - 1); }
      }
    }
  }
}
