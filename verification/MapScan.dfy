/** The zone scan of ReadMapContents as a function on the bits of one zone. */
module MapScan {
  import opened Bits

  /** One fragment of a zone: first bit, length in bits and the number in its id field. */
  datatype Frag = Frag(start: nat, len: nat, id: nat) {
    function End(): nat { start + len }
  }

  /** One past the first one bit at or after p, or the end of the zone. */
  function SkipZeros(bits: seq<bool>, p: nat): (q: nat)
    requires p < |bits|
    ensures p < q <= |bits|
    ensures forall i :: p <= i < q - 1 ==> !bits[i]
    ensures q < |bits| ==> bits[q - 1]
    decreases |bits| - p
  {
    if bits[p] || p + 1 == |bits| then p + 1 else SkipZeros(bits, p + 1)
  }

  /** A fragment may start at p: p is the end of the zone, or an id and a terminator fit behind it. */
  predicate Room(bits: seq<bool>, p: nat, idlen: nat) {
    p == |bits| || p + idlen < |bits|
  }

  /** Where the fragment that starts at p ends; a rest too small for another id is swallowed. */
  function FragEnd(bits: seq<bool>, p: nat, idlen: nat): (e: nat)
    requires p + idlen < |bits|
    ensures p + idlen < e <= |bits|
    ensures Room(bits, e, idlen)
  {
    var q := SkipZeros(bits, p + idlen);
    if q != |bits| && |bits| - q < idlen + 1 then |bits| else q
  }

  function FragAt(bits: seq<bool>, p: nat, idlen: nat): (f: Frag)
    requires p + idlen < |bits|
  {
    Frag(p, FragEnd(bits, p, idlen) - p, Field(bits, p, idlen))
  }

  /** All fragments from p to the end of the zone. */
  function Fragments(bits: seq<bool>, p: nat, idlen: nat): (fs: seq<Frag>)
    requires p <= |bits| && Room(bits, p, idlen)
    decreases |bits| - p
  {
    if p == |bits| then []
    else
      var f := FragAt(bits, p, idlen);
      [f] + Fragments(bits, f.End(), idlen)
  }

  /** fs covers the bits from p up to end without gap or overlap, each fragment being at least min long. */
  ghost predicate Tiles(fs: seq<Frag>, p: nat, end: nat, min: nat) {
    if fs == [] then p == end
    else fs[0].start == p && fs[0].len >= min && Tiles(fs[1..], fs[0].End(), end, min)
  }

  /** Whatever the bits are, the scan tiles the allocation area. */
  lemma {:induction false} FragmentsTile(bits: seq<bool>, p: nat, idlen: nat)
    requires p <= |bits| && Room(bits, p, idlen)
    ensures Tiles(Fragments(bits, p, idlen), p, |bits|, idlen + 1)
    decreases |bits| - p
  {
    if p < |bits| {
      var f := FragAt(bits, p, idlen);
      FragmentsTile(bits, f.End(), idlen);
      assert Fragments(bits, p, idlen)[1..] == Fragments(bits, f.End(), idlen);
    }
  }

  /** What tiling means index by index. */
  lemma {:induction false} TilesAt(fs: seq<Frag>, p: nat, end: nat, min: nat, i: nat)
    requires Tiles(fs, p, end, min) && i < |fs|
    ensures p <= fs[i].start && fs[i].End() <= end && fs[i].len >= min
    ensures i == 0 ==> fs[i].start == p
    ensures Tiles(fs[i..], fs[i].start, end, min)
    ensures Tiles(fs[i + 1..], fs[i].End(), end, min)
    ensures i + 1 < |fs| ==> fs[i + 1].start == fs[i].End()
    ensures i + 1 == |fs| ==> fs[i].End() == end
    decreases |fs|
  {
    if i > 0 {
      TilesAt(fs[1..], fs[0].End(), end, min, i - 1);
      assert fs[i..] == fs[1..][i - 1..];
      assert fs[i + 1..] == fs[1..][i..];
    } else {
      assert fs[0..] == fs;
      TilesNonneg(fs[1..], fs[0].End(), end, min);
    }
  }

  lemma {:induction false} TilesNonneg(fs: seq<Frag>, p: nat, end: nat, min: nat)
    requires Tiles(fs, p, end, min)
    ensures p <= end
    decreases |fs|
  {
    if fs != [] {
      TilesNonneg(fs[1..], fs[0].End(), end, min);
    }
  }

  /** Fragments of a tiling lie in disc order without overlap. */
  lemma {:induction false} TilesOrdered(fs: seq<Frag>, p: nat, end: nat, min: nat, i: nat, j: nat)
    requires Tiles(fs, p, end, min) && i < j < |fs|
    ensures fs[i].End() <= fs[j].start
  {
    TilesAt(fs, p, end, min, i);
    TilesAt(fs[i + 1..], fs[i].End(), end, min, j - i - 1);
    assert fs[i + 1..][j - i - 1] == fs[j];
  }

  /** Every fragment of a scan is the one that parsing at its start gives. */
  lemma {:induction false} FragmentsAt(bits: seq<bool>, p: nat, idlen: nat, i: nat)
    requires p <= |bits| && Room(bits, p, idlen)
    requires i < |Fragments(bits, p, idlen)|
    ensures var fs := Fragments(bits, p, idlen);
            && p <= fs[i].start && fs[i].start + idlen < |bits|
            && fs[i] == FragAt(bits, fs[i].start, idlen)
            && fs[i].End() == FragEnd(bits, fs[i].start, idlen)
            && fs[i..] == Fragments(bits, fs[i].start, idlen)
            && fs[i + 1..] == Fragments(bits, fs[i].End(), idlen)
    decreases |bits| - p
  {
    var fs := Fragments(bits, p, idlen);
    var rest := Fragments(bits, fs[0].End(), idlen);
    assert fs[1..] == rest;
    if i > 0 {
      FragmentsAt(bits, fs[0].End(), idlen, i - 1);
      assert fs[i..] == rest[i - 1..];
      assert fs[i + 1..] == rest[i..];
    }
  }

  lemma FragmentsOrder(bits: seq<bool>, p: nat, idlen: nat, i: nat)
    requires p <= |bits| && Room(bits, p, idlen)
    requires 0 < i < |Fragments(bits, p, idlen)|
    ensures var fs := Fragments(bits, p, idlen); fs[0].End() <= fs[i].start
  {
    FragmentsTile(bits, p, idlen);
    TilesOrdered(Fragments(bits, p, idlen), p, |bits|, idlen + 1, 0, i);
  }

  // ----- How far a fragment depends on the bits

  lemma {:induction false} SkipZerosLocal(bits: seq<bool>, bits': seq<bool>, p: nat)
    requires p < |bits| == |bits'|
    requires forall i :: p <= i < SkipZeros(bits, p) ==> bits'[i] == bits[i]
    ensures SkipZeros(bits', p) == SkipZeros(bits, p)
    decreases |bits| - p
  {
    if !(bits[p] || p + 1 == |bits|) {
      SkipZerosLocal(bits, bits', p + 1);
    }
  }

  /** The first one bit at or after p ends the skip. */
  lemma {:induction false} SkipZerosIs(bits: seq<bool>, p: nat, q: nat)
    requires p < q <= |bits|
    requires forall i :: p <= i < q - 1 ==> !bits[i]
    requires q == |bits| || bits[q - 1]
    ensures SkipZeros(bits, p) == q
    decreases |bits| - p
  {
    if p + 1 < q {
      SkipZerosIs(bits, p + 1, q);
    }
  }

  /** The end of a fragment depends on the bits behind its id field only. */
  lemma FragEndLocal(bits: seq<bool>, bits': seq<bool>, p: nat, idlen: nat)
    requires p + idlen < |bits| == |bits'|
    requires forall i :: p + idlen <= i < FragEnd(bits, p, idlen) ==> bits'[i] == bits[i]
    ensures FragEnd(bits', p, idlen) == FragEnd(bits, p, idlen)
  {
    SkipZerosLocal(bits, bits', p + idlen);
  }

  lemma FragAtLocal(bits: seq<bool>, bits': seq<bool>, p: nat, idlen: nat)
    requires p + idlen < |bits| == |bits'|
    requires forall i :: p <= i < FragEnd(bits, p, idlen) ==> bits'[i] == bits[i]
    ensures FragAt(bits', p, idlen) == FragAt(bits, p, idlen)
  {
    FragEndLocal(bits, bits', p, idlen);
    FieldLocal(bits, bits', p, idlen);
  }

  /** Fragments from p on depend on the bits from p on. */
  lemma {:induction false} FragmentsLocal(bits: seq<bool>, bits': seq<bool>, p: nat, idlen: nat)
    requires p <= |bits| == |bits'| && Room(bits, p, idlen)
    requires forall i :: p <= i < |bits| ==> bits'[i] == bits[i]
    ensures Fragments(bits', p, idlen) == Fragments(bits, p, idlen)
    decreases |bits| - p
  {
    if p < |bits| {
      hide Field, SkipZeros, FragEnd;
      FragAtLocal(bits, bits', p, idlen);
      FragmentsLocal(bits, bits', FragEnd(bits, p, idlen), idlen);
    }
  }

  /** Bits from fragment i on may change without touching the fragments before it. */
  lemma {:induction false} FragmentsPrefix(bits: seq<bool>, bits': seq<bool>, p: nat, idlen: nat, i: nat)
    requires p <= |bits| == |bits'| && Room(bits, p, idlen)
    requires i < |Fragments(bits, p, idlen)|
    requires var s := Fragments(bits, p, idlen)[i].start;
             forall k :: p <= k < s && k < |bits| ==> bits'[k] == bits[k]
    ensures var fs := Fragments(bits, p, idlen);
            && fs[i].start + idlen < |bits|
            && Fragments(bits', p, idlen) == fs[..i] + Fragments(bits', fs[i].start, idlen)
    decreases |bits| - p
  {
    var fs := Fragments(bits, p, idlen);
    FragmentsAt(bits, p, idlen, i);
    if i > 0 {
      var e := fs[0].End();
      var rest := Fragments(bits, e, idlen);
      assert fs[1..] == rest && fs[i] == rest[i - 1];
      FragmentsAt(bits, e, idlen, i - 1);
      FragmentsOrder(bits, p, idlen, i);
      FragAtLocal(bits, bits', p, idlen);
      FragmentsPrefix(bits, bits', e, idlen, i - 1);
      assert fs[..i] == [fs[0]] + rest[..i - 1];
    }
  }

  /** Rewriting the bits of fragment i only, so that they parse as mid, puts mid in its place. */
  lemma ReplaceFrag(bits: seq<bool>, bits': seq<bool>, p: nat, idlen: nat, i: nat, mid: seq<Frag>)
    requires p <= |bits| == |bits'| && Room(bits, p, idlen)
    requires i < |Fragments(bits, p, idlen)|
    requires var f := Fragments(bits, p, idlen)[i];
             && f.start + idlen < |bits|
             && f.End() <= |bits| && Room(bits, f.End(), idlen)
             && (forall k :: p <= k < |bits| && !(f.start <= k < f.End()) ==> bits'[k] == bits[k])
             && Fragments(bits', f.start, idlen) == mid + Fragments(bits', f.End(), idlen)
    ensures var fs := Fragments(bits, p, idlen);
            Fragments(bits', p, idlen) == fs[..i] + mid + fs[i + 1..]
  {
    hide Fragments, Field, SkipZeros, FragEnd;
    var fs := Fragments(bits, p, idlen);
    FragmentsAt(bits, p, idlen, i);
    FragmentsPrefix(bits, bits', p, idlen, i);
    FragmentsLocal(bits, bits', fs[i].End(), idlen);
  }

  // ----- Terminators

  /** The fragment f of a scan ends in its terminator bit and holds no other bit behind its id. */
  ghost predicate Terminated(bits: seq<bool>, f: Frag, idlen: nat) {
    && f.start + idlen < f.End() <= |bits|
    && SkipZeros(bits, f.start + idlen) == f.End() && bits[f.End() - 1]
  }

  /** Every fragment from p on is terminated. */
  ghost predicate Closed(bits: seq<bool>, p: nat, idlen: nat)
    requires p <= |bits| && Room(bits, p, idlen)
  {
    forall f :: f in Fragments(bits, p, idlen) ==> Terminated(bits, f, idlen)
  }

  /** The clear bits that a cut behind n bits of the run at start leaves for the id of the second half,
      and those before them. */
  ghost predicate ClearTo(bits: seq<bool>, start: nat, idlen: nat, n: nat) {
    forall i :: start + idlen <= i < start + n + idlen && i < |bits| ==> !bits[i]
  }

  /** Only the last fragment of a zone can lack its terminator. */
  lemma TerminatedOrLast(bits: seq<bool>, p: nat, idlen: nat, i: nat)
    requires p <= |bits| && Room(bits, p, idlen) && i < |Fragments(bits, p, idlen)|
    ensures var f := Fragments(bits, p, idlen)[i]; f.End() == |bits| || Terminated(bits, f, idlen)
  {
    hide Fragments, SkipZeros;
    FragmentsAt(bits, p, idlen, i);
  }

  lemma ClosedAt(bits: seq<bool>, p: nat, idlen: nat, i: nat)
    requires p <= |bits| && Room(bits, p, idlen) && i < |Fragments(bits, p, idlen)| && Closed(bits, p, idlen)
    ensures Terminated(bits, Fragments(bits, p, idlen)[i], idlen)
  {
    hide Fragments, Terminated;
    assert Fragments(bits, p, idlen)[i] in Fragments(bits, p, idlen);
  }

  lemma TerminatedLocal(bits: seq<bool>, bits': seq<bool>, f: Frag, idlen: nat)
    requires Terminated(bits, f, idlen) && |bits'| == |bits|
    requires forall k :: f.start + idlen <= k < f.End() ==> bits'[k] == bits[k]
    ensures Terminated(bits', f, idlen)
  {
    hide SkipZeros;
    SkipZerosLocal(bits, bits', f.start + idlen);
  }

  /** A zone stays terminated when one of its fragments is replaced by terminated ones. */
  lemma ReplaceClosed(bits: seq<bool>, bits': seq<bool>, p: nat, idlen: nat, i: nat, mid: seq<Frag>)
    requires p <= |bits| == |bits'| && Room(bits, p, idlen)
    requires i < |Fragments(bits, p, idlen)| && Closed(bits, p, idlen)
    requires var fs := Fragments(bits, p, idlen);
             && (forall k :: p <= k < |bits| && !(fs[i].start <= k < fs[i].End()) ==> bits'[k] == bits[k])
             && Fragments(bits', p, idlen) == fs[..i] + mid + fs[i + 1..]
    requires forall f :: f in mid ==> Terminated(bits', f, idlen)
    ensures Closed(bits', p, idlen)
  {
    hide Fragments, Terminated;
    var fs := Fragments(bits, p, idlen);
    forall f | f in Fragments(bits', p, idlen) ensures Terminated(bits', f, idlen) {
      if f !in mid {
        var j :| 0 <= j < |fs| && j != i && fs[j] == f;
        OtherTerminated(bits, bits', p, idlen, i, j);
      }
    }
  }

  lemma OtherTerminated(bits: seq<bool>, bits': seq<bool>, p: nat, idlen: nat, i: nat, j: nat)
    requires p <= |bits| == |bits'| && Room(bits, p, idlen)
    requires i < |Fragments(bits, p, idlen)| && j < |Fragments(bits, p, idlen)| && i != j
    requires var fs := Fragments(bits, p, idlen);
             && Terminated(bits, fs[j], idlen)
             && (forall k :: p <= k < |bits| && !(fs[i].start <= k < fs[i].End()) ==> bits'[k] == bits[k])
    ensures Terminated(bits', Fragments(bits, p, idlen)[j], idlen)
  {
    hide Fragments, SkipZeros;
    var fs := Fragments(bits, p, idlen);
    FragmentsTile(bits, p, idlen);
    TilesAt(fs, p, |bits|, idlen + 1, j);
    if i < j {
      TilesOrdered(fs, p, |bits|, idlen + 1, i, j);
    } else {
      TilesOrdered(fs, p, |bits|, idlen + 1, j, i);
    }
    TerminatedLocal(bits, bits', fs[j], idlen);
  }

  // ----- The two edits MakeID makes to the bits of a zone

  lemma FragAtRewrite(bits: seq<bool>, bits': seq<bool>, p: nat, idlen: nat)
    requires p + idlen < |bits| == |bits'|
    requires forall k :: p + idlen <= k < |bits| ==> bits'[k] == bits[k]
    ensures FragAt(bits', p, idlen) == FragAt(bits, p, idlen).(id := Field(bits', p, idlen))
    ensures Fragments(bits', p, idlen) == [FragAt(bits', p, idlen)] + Fragments(bits', FragEnd(bits, p, idlen), idlen)
  {
    FragEndLocal(bits, bits', p, idlen);
  }

  lemma RewriteIdAux(bits: seq<bool>, bits': seq<bool>, p: nat, idlen: nat, i: nat)
    requires p <= |bits| == |bits'| && Room(bits, p, idlen)
    requires i < |Fragments(bits, p, idlen)|
    requires var f := Fragments(bits, p, idlen)[i];
             && f.start + idlen < |bits|
             && forall k :: p <= k < |bits| && !(f.start <= k < f.start + idlen) ==> bits'[k] == bits[k]
    ensures var fs := Fragments(bits, p, idlen);
            Fragments(bits', p, idlen) == fs[i := fs[i].(id := Field(bits', fs[i].start, idlen))]
  {
    hide Field, SkipZeros, Fragments, FragEnd;
    var fs := Fragments(bits, p, idlen);
    FragmentsAt(bits, p, idlen, i);
    var s := fs[i].start;
    assert fs[i].End() == FragEnd(bits, s, idlen);
    FragAtRewrite(bits, bits', s, idlen);
    var f' := FragAt(bits', s, idlen);
    assert Fragments(bits', s, idlen) == [f'] + Fragments(bits', fs[i].End(), idlen);
    assert forall k :: p <= k < |bits| && !(s <= k < fs[i].End()) ==> bits'[k] == bits[k];
    ReplaceFrag(bits, bits', p, idlen, i, [f']);
    assert fs[i := f'] == fs[..i] + [f'] + fs[i + 1..];
  }

  /** Another number in an id field leaves a terminated zone terminated. */
  lemma RewriteClosed(bits: seq<bool>, bits': seq<bool>, p: nat, idlen: nat, i: nat, id: nat)
    requires p <= |bits| == |bits'| && Room(bits, p, idlen)
    requires i < |Fragments(bits, p, idlen)| && Closed(bits, p, idlen)
    requires var fs := Fragments(bits, p, idlen);
             && (forall k :: p <= k < |bits| && !(fs[i].start <= k < fs[i].start + idlen) ==> bits'[k] == bits[k])
             && Fragments(bits', p, idlen) == fs[i := fs[i].(id := id)]
    ensures Closed(bits', p, idlen)
  {
    hide Fragments, SkipZeros, Field;
    var fs := Fragments(bits, p, idlen);
    FragmentsAt(bits, p, idlen, i);
    assert Terminated(bits, fs[i], idlen);
    TerminatedLocal(bits, bits', fs[i].(id := id), idlen);
    assert fs[i := fs[i].(id := id)] == fs[..i] + [fs[i].(id := id)] + fs[i + 1..];
    ReplaceClosed(bits, bits', p, idlen, i, [fs[i].(id := id)]);
  }

  /** Storing v in the id field of fragment i changes that id and nothing else; a zone stays terminated. */
  lemma RewriteId(bits: seq<bool>, p: nat, idlen: nat, i: nat, v: nat)
    requires p <= |bits| && Room(bits, p, idlen)
    requires i < |Fragments(bits, p, idlen)| && v < Pow2(idlen)
    ensures var fs := Fragments(bits, p, idlen);
            && fs[i].start + idlen < |bits|
            && Fragments(SetField(bits, fs[i].start, idlen, v), p, idlen) == fs[i := fs[i].(id := v)]
            && (Closed(bits, p, idlen) ==> Closed(SetField(bits, fs[i].start, idlen, v), p, idlen))
  {
    hide Closed;
    var fs := Fragments(bits, p, idlen);
    FragmentsAt(bits, p, idlen, i);
    FieldOfSetField(bits, fs[i].start, idlen, v);
    RewriteIdAux(bits, SetField(bits, fs[i].start, idlen, v), p, idlen, i);
    if Closed(bits, p, idlen) {
      RewriteClosed(bits, SetField(bits, fs[i].start, idlen, v), p, idlen, i, v);
    }
  }

  /** In a fragment that can be cut behind n bits the bits before the cut are clear. Those behind it
      are too, unless the zero bits stop short of the fragment's end, which is the end of the zone. */
  lemma ClearToCut(bits: seq<bool>, p: nat, idlen: nat, n: nat)
    requires p + idlen < |bits|
    requires idlen < n && p + n + idlen < FragEnd(bits, p, idlen)
    ensures forall k :: p + idlen <= k < p + n ==> !bits[k]
    ensures SkipZeros(bits, p + idlen) == FragEnd(bits, p, idlen) ==> ClearTo(bits, p, idlen, n)
    ensures SkipZeros(bits, p + idlen) != FragEnd(bits, p, idlen) ==> FragEnd(bits, p, idlen) == |bits|
  {
  }

  /** The second half of a cut fragment ends where the fragment did. */
  lemma CutEnd(bits: seq<bool>, p: nat, idlen: nat, n: nat)
    requires p + idlen < |bits|
    requires idlen < n && p + n + idlen < FragEnd(bits, p, idlen)
    ensures var bits' := bits[p + n - 1 := true];
            && FragEnd(bits', p + n, idlen) == FragEnd(bits, p, idlen)
            && (SkipZeros(bits, p + idlen) == FragEnd(bits, p, idlen) ==>
                SkipZeros(bits', p + n + idlen) == FragEnd(bits, p, idlen))
  {
    hide SkipZeros;
    var bits' := bits[p + n - 1 := true];
    ClearToCut(bits, p, idlen, n);
    if SkipZeros(bits, p + idlen) == FragEnd(bits, p, idlen) {
      SkipTail(bits, bits', p + idlen, p + n + idlen);
    } else if SkipZeros(bits, p + idlen) > p + n + idlen {
      SkipTail(bits, bits', p + idlen, p + n + idlen);
    }
  }

  lemma FragAtSplit(bits: seq<bool>, p: nat, idlen: nat, n: nat)
    requires p + idlen < |bits|
    requires idlen < n && p + n + idlen < FragEnd(bits, p, idlen)
    ensures var bits' := bits[p + n - 1 := true];
            && FragAt(bits', p, idlen) == FragAt(bits, p, idlen).(len := n)
            && SkipZeros(bits', p + idlen) == p + n
            && FragAt(bits', p + n, idlen) ==
               Frag(p + n, FragEnd(bits, p, idlen) - (p + n), Field(bits, p + n, idlen))
  {
    hide Field, SkipZeros;
    var bits' := bits[p + n - 1 := true];
    ClearToCut(bits, p, idlen, n);
    SkipZerosIs(bits', p + idlen, p + n);
    FieldLocal(bits, bits', p, idlen);
    FieldLocal(bits, bits', p + n, idlen);
    CutEnd(bits, p, idlen, n);
  }

  lemma TwoSteps(bits: seq<bool>, p: nat, idlen: nat, u: Frag, g: Frag)
    requires p + idlen < |bits| && u == FragAt(bits, p, idlen)
    requires u.End() + idlen < |bits| && g == FragAt(bits, u.End(), idlen)
    ensures g.End() <= |bits| && Room(bits, g.End(), idlen)
    ensures Fragments(bits, p, idlen) == [u, g] + Fragments(bits, g.End(), idlen)
  {
    assert Fragments(bits, u.End(), idlen) == [g] + Fragments(bits, g.End(), idlen);
  }

  /** Setting the last bit of the first n bits of fragment i cuts the fragment there; the second half
      has for its id what the bits behind the cut hold. */
  lemma SplitFrag(bits: seq<bool>, p: nat, idlen: nat, i: nat, n: nat)
    requires p <= |bits| && Room(bits, p, idlen)
    requires i < |Fragments(bits, p, idlen)|
    requires var f := Fragments(bits, p, idlen)[i];
             idlen < n && n + idlen < f.len && f.End() <= |bits|
    ensures var fs := Fragments(bits, p, idlen);
            var f := fs[i];
            && Fragments(bits[f.start + n - 1 := true], p, idlen) ==
                 fs[..i] + [Frag(f.start, n, f.id), Frag(f.start + n, f.len - n, Field(bits, f.start + n, idlen))] + fs[i + 1..]
            && (Closed(bits, p, idlen) ==> Closed(bits[f.start + n - 1 := true], p, idlen))
  {
    hide Field, SkipZeros, Fragments, FragEnd, Closed, Terminated;
    var fs := Fragments(bits, p, idlen);
    var f := fs[i];
    FragmentsAt(bits, p, idlen, i);
    FragAtSplit(bits, f.start, idlen, n);
    var bits' := bits[f.start + n - 1 := true];
    var u, g := Frag(f.start, n, f.id), Frag(f.start + n, f.len - n, Field(bits, f.start + n, idlen));
    assert f.id == Field(bits, f.start, idlen);
    TwoSteps(bits', f.start, idlen, u, g);
    ReplaceFrag(bits, bits', p, idlen, i, [u, g]);
    if Closed(bits, p, idlen) {
      ClosedAt(bits, p, idlen, i);
      SplitTerminated(bits, f, idlen, n, u, g);
      ReplaceClosed(bits, bits', p, idlen, i, [u, g]);
    }
  }

  /** Both halves of a terminated fragment are terminated. */
  lemma SplitTerminated(bits: seq<bool>, f: Frag, idlen: nat, n: nat, u: Frag, g: Frag)
    requires Terminated(bits, f, idlen) && FragEnd(bits, f.start, idlen) == f.End()
    requires idlen < n && n + idlen < f.len
    requires u.start == f.start && u.End() == f.start + n == g.start && g.End() == f.End()
    ensures Terminated(bits[u.End() - 1 := true], u, idlen) && Terminated(bits[u.End() - 1 := true], g, idlen)
  {
    hide Field, SkipZeros, FragEnd;
    FragAtSplit(bits, f.start, idlen, n);
    CutEnd(bits, f.start, idlen, n);
  }

  /** A skip over clear bits may as well begin behind them. */
  lemma {:induction false} SkipTail(bits: seq<bool>, bits': seq<bool>, p: nat, q: nat)
    requires p <= q < |bits| == |bits'|
    requires forall i :: p <= i < q ==> !bits[i]
    requires forall i :: q <= i < |bits| ==> bits'[i] == bits[i]
    ensures SkipZeros(bits, p) == SkipZeros(bits', q)
    decreases q - p
  {
    if p == q {
      SkipZerosLocal(bits, bits', p);
    } else {
      SkipTail(bits, bits', p + 1, q);
    }
  }
}
