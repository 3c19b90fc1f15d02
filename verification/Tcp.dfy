/** The TCP client of net/tcp.c: one connection, what it sends and what it delivers (section 3 of RFC 793). */
module Tcp {
  import opened Arithmetic
  import opened Words

  const RING: nat := 4096
  const MSS: nat := 1460
  const ISN_STEP: nat := 64000
  const FIRST_PORT: nat := 49152

  datatype Phase = Closed | SynSent | Established | CloseWait | FinWait1 | FinWait2 | TimeWait

  /** A segment, sent or received, without its ports and window. */
  datatype Segment = Segment(seqno: nat, ackno: nat, syn: bool, ack: bool, fin: bool, rst: bool, data: seq<byte>)

  /** A transmission control block; the window and the addresses play no part in the state machine. */
  datatype Tcb = Tcb(used: bool, phase: Phase, iss: nat, una: nat, nxt: nat, rcvNxt: nat,
                     ring: seq<byte>, head: nat, tail: nat) {
    ghost predicate Ok() {
      && iss < WORD && una < WORD && nxt < WORD && rcvNxt < WORD
      && |ring| == RING && head < RING && tail < RING
    }
  }

  function Plus(a: nat, n: nat): (r: nat)
    ensures r < WORD
  {
    (a + n) % WORD
  }

  // ----- The receive ring

  function Count(c: Tcb): (n: nat)
    requires c.Ok()
    ensures n < RING
  {
    (c.tail - c.head + RING) % RING
  }

  /** The bytes between the consumer and the producer index. */
  ghost function Contents(c: Tcb): (s: seq<byte>)
    requires c.Ok()
    ensures |s| == Count(c)
  {
    seq(Count(c), i requires 0 <= i < Count(c) => c.ring[(c.head + i) % RING])
  }

  lemma Wrap(h: nat, i: nat)
    requires h < RING && i <= RING
    ensures (h + i) % RING == if h + i < RING then h + i else h + i - RING
  {
  }

  lemma CountIs(c: Tcb)
    requires c.Ok()
    ensures Count(c) == if c.tail >= c.head then c.tail - c.head else c.tail + RING - c.head
  {
  }

  function Room(c: Tcb): (n: nat)
    requires c.Ok()
  {
    RING - 1 - Count(c)
  }

  function PushOne(c: Tcb, b: byte): (r: Tcb)
    requires c.Ok()
    ensures r.Ok()
  {
    if (c.tail + 1) % RING == c.head then c
    else c.(ring := c.ring[c.tail := b], tail := (c.tail + 1) % RING)
  }

  /** One slot stays empty: a push adds the byte exactly when there is room. */
  lemma PushOneContents(c: Tcb, b: byte)
    requires c.Ok()
    ensures PushOne(c, b).Ok()
    ensures Contents(PushOne(c, b)) == if Room(c) > 0 then Contents(c) + [b] else Contents(c)
    ensures Room(c) > 0 ==> Room(PushOne(c, b)) == Room(c) - 1
  {
    hide Count;
    var d, n := PushOne(c, b), Count(c);
    CountIs(c);
    CountIs(d);
    Wrap(c.tail, 1);
    if Room(c) > 0 {
      Wrap(c.head, n);
      forall i | 0 <= i < n
        ensures Contents(d)[i] == Contents(c)[i]
      {
        Wrap(c.head, i);
      }
    }
  }

  /** rcvbuf_push on values: it stops at the first byte that finds the ring full. */
  function Push(c: Tcb, data: seq<byte>): (r: Tcb)
    requires c.Ok()
    ensures r.Ok()
    decreases |data|
  {
    if data == [] || (c.tail + 1) % RING == c.head then c else Push(PushOne(c, data[0]), data[1..])
  }

  lemma {:induction false} PushContents(c: Tcb, data: seq<byte>)
    requires c.Ok()
    ensures var k := if |data| <= Room(c) then |data| else Room(c);
            Contents(Push(c, data)) == Contents(c) + data[..k]
    ensures Push(c, data) == c.(ring := Push(c, data).ring, tail := Push(c, data).tail)
    decreases |data|
  {
    hide Contents;
    PushOneContents(c, if data == [] then 0 else data[0]);
    if data != [] && (c.tail + 1) % RING != c.head {
      PushContents(PushOne(c, data[0]), data[1..]);
      var k := if |data| <= Room(c) then |data| else Room(c);
      assert Room(c) > 0;
      assert data[..k] == [data[0]] + data[1..][..k - 1];
    } else {
      FullOrNot(c);
      assert data[..if |data| <= Room(c) then |data| else Room(c)] == [];
    }
  }

  lemma FullOrNot(c: Tcb)
    requires c.Ok()
    ensures (c.tail + 1) % RING == c.head <==> Room(c) == 0
  {
  }

  /** The push keeps every byte exactly when the payload fits. */
  lemma PushExact(c: Tcb, data: seq<byte>)
    requires c.Ok()
    ensures Contents(Push(c, data)) == Contents(c) + data <==> |data| <= Room(c)
  {
    hide Contents, Push;
    PushContents(c, data);
    if |data| > Room(c) {
      assert |Contents(c) + data[..Room(c)]| < |Contents(c) + data|;
    } else {
      assert data[..|data|] == data;
    }
  }

  function Taken(c: Tcb, n: nat): (r: Tcb)
    requires c.Ok() && n <= Count(c)
    ensures r.Ok()
  {
    c.(head := (c.head + n) % RING)
  }

  lemma TakenContents(c: Tcb, n: nat)
    requires c.Ok() && n <= Count(c)
    ensures Contents(Taken(c, n)) == Contents(c)[n..]
  {
    hide Count;
    var d := Taken(c, n);
    CountIs(c);
    CountIs(d);
    Wrap(c.head, n);
    forall i | 0 <= i < Count(d)
      ensures Contents(d)[i] == Contents(c)[n + i]
    {
      Wrap(d.head, i);
      Wrap(c.head, n + i);
    }
  }

  // ----- The state machine on values: the new block and the segments handed to send_segment

  datatype Out = Out(c: Tcb, segs: seq<Segment>)

  function Syn(c: Tcb): Segment {
    Segment(c.iss, c.rcvNxt, true, false, false, false, [])
  }

  function Ack(c: Tcb): Segment {
    Segment(c.nxt, c.rcvNxt, false, true, false, false, [])
  }

  function Fin(c: Tcb): Segment {
    Segment(c.nxt, c.rcvNxt, false, true, true, false, [])
  }

  function Opened(c: Tcb, isn: nat): (r: Out)
    requires c.Ok() && isn < WORD
    ensures r.c.Ok()
  {
    var d := c.(used := true, phase := SynSent, iss := isn, una := isn, nxt := Plus(isn, 1), rcvNxt := 0, head := 0, tail := 0);
    Out(d, [Syn(d)])
  }

  function Ticked(c: Tcb): (r: Out) {
    Out(c, if c.used && c.phase == SynSent then [Syn(c)] else [])
  }

  function Sendable(data: seq<byte>): (d: seq<byte>)
    ensures |d| <= MSS && d <= data
  {
    if |data| > MSS then data[..MSS] else data
  }

  function Written(c: Tcb, data: seq<byte>): (r: Out)
    requires c.Ok()
    ensures r.c.Ok()
  {
    if !c.used || c.phase != Established || data == [] then Out(c, [])
    else
      var d := Sendable(data);
      Out(c.(nxt := Plus(c.nxt, |d|)), [Segment(c.nxt, c.rcvNxt, false, true, false, false, d)])
  }

  function Ended(c: Tcb): (r: Out)
    requires c.Ok()
    ensures r.c.Ok()
  {
    if !c.used then Out(c, [])
    else if c.phase == Established || c.phase == CloseWait then Out(c.(phase := FinWait1, nxt := Plus(c.nxt, 1)), [Fin(c)])
    else Out(c.(used := false, phase := Closed), [])
  }

  /** Data at the expected sequence number is taken in. */
  function Accept(c: Tcb, s: Segment): (r: Tcb)
    requires c.Ok()
    ensures r.Ok()
  {
    if s.data != [] && s.seqno == c.rcvNxt then Push(c, s.data).(rcvNxt := Plus(c.rcvNxt, |s.data|)) else c
  }

  predicate Accepts(c: Tcb, s: Segment) {
    s.data != [] && s.seqno == c.rcvNxt
  }

  function Acked(c: Tcb, s: Segment): (r: Tcb)
    requires c.Ok() && s.ackno < WORD
    ensures r.Ok()
  {
    if s.ack then c.(una := s.ackno) else c
  }

  function GotEstablished(c: Tcb, s: Segment): (r: Out)
    requires c.Ok() && s.ackno < WORD
    ensures r.c.Ok()
  {
    var d := Accept(Acked(c, s), s);
    var acks := if Accepts(c, s) then [Ack(d)] else [];
    if !s.fin then Out(d, acks)
    else
      var e := d.(rcvNxt := Plus(d.rcvNxt, 1), phase := FinWait1);
      Out(e.(nxt := Plus(e.nxt, 1)), acks + [Ack(e), Fin(e)])
  }

  function GotFinWait1(c: Tcb, s: Segment): (r: Out)
    requires c.Ok() && s.ackno < WORD
    ensures r.c.Ok()
  {
    var a := if s.ack && s.ackno == c.nxt then Acked(c, s).(phase := FinWait2) else Acked(c, s);
    var d := Accept(a, s);
    if !s.fin then Out(d, [])
    else
      var e := d.(rcvNxt := Plus(d.rcvNxt, 1), phase := TimeWait);
      Out(e, [Ack(e)])
  }

  function GotFinWait2(c: Tcb, s: Segment): (r: Out)
    requires c.Ok()
    ensures r.c.Ok()
  {
    var d := Accept(c, s);
    var acks := if Accepts(c, s) then [Ack(d)] else [];
    if !s.fin then Out(d, acks)
    else
      var e := d.(rcvNxt := Plus(d.rcvNxt, 1), phase := TimeWait);
      Out(e, acks + [Ack(e)])
  }

  /** tcp_rx once the connection is found. */
  function Got(c: Tcb, s: Segment): (r: Out)
    requires c.Ok() && s.ackno < WORD && s.seqno < WORD
    ensures r.c.Ok()
  {
    if s.rst then Out(c.(used := false, phase := Closed), [])
    else match c.phase
      case SynSent =>
        if s.syn && s.ack then
          var d := c.(rcvNxt := Plus(s.seqno, 1), una := s.ackno, phase := Established);
          Out(d, [Ack(d)])
        else Out(c, [])
      case Established => GotEstablished(c, s)
      case FinWait1 => GotFinWait1(c, s)
      case FinWait2 => GotFinWait2(c, s)
      case TimeWait => Out(c.(used := false, phase := Closed), [])
      case _ => Out(c, [])
  }

  // ----- What a connection has sent

  ghost function Data(segs: seq<Segment>): (d: seq<byte>) {
    if segs == [] then [] else Data(segs[..|segs| - 1]) + segs[|segs| - 1].data
  }

  ghost function Fins(segs: seq<Segment>): (n: nat) {
    if segs == [] then 0 else Fins(segs[..|segs| - 1]) + if segs[|segs| - 1].fin then 1 else 0
  }

  /** The sequence number behind the SYN, the data and the FINs sent so far. */
  ghost function Due(segs: seq<Segment>, iss: nat): nat {
    Plus(iss, 1 + |Data(segs)| + Fins(segs))
  }

  /** One more segment: a SYN carries the initial number, anything else the next one; nothing but ACKs follows a FIN. */
  ghost predicate Fitting(segs: seq<Segment>, x: Segment, iss: nat) {
    && (x.syn ==> x.seqno == iss && x.data == [] && !x.fin)
    && (!x.syn ==> x.seqno == Due(segs, iss))
    && (x.fin || x.data != [] ==> Fins(segs) == 0)
    && (x.fin ==> x.data == [])
  }

  ghost predicate Trace(segs: seq<Segment>, iss: nat) {
    forall i :: 0 <= i < |segs| ==> Fitting(segs[..i], segs[i], iss)
  }

  ghost predicate Closing(p: Phase) {
    p == FinWait1 || p == FinWait2 || p == TimeWait
  }

  /** The books of a connection in use are balanced. */
  ghost predicate Accounted(c: Tcb, segs: seq<Segment>) {
    c.used ==>
      && (c.phase == SynSent || c.phase == Established || Closing(c.phase))
      && c.nxt == Due(segs, c.iss)
      && Fins(segs) == (if Closing(c.phase) then 1 else 0)
      && Trace(segs, c.iss)
  }

  lemma TraceAdd(segs: seq<Segment>, x: Segment, iss: nat)
    requires Trace(segs, iss) && Fitting(segs, x, iss)
    ensures Trace(segs + [x], iss)
    ensures Data(segs + [x]) == Data(segs) + x.data && Fins(segs + [x]) == Fins(segs) + if x.fin then 1 else 0
  {
    hide Fitting;
    var all := segs + [x];
    assert all[..|all| - 1] == segs;
    forall i | 0 <= i < |all|
      ensures Fitting(all[..i], all[i], iss)
    {
      if i < |segs| {
        assert all[..i] == segs[..i] && all[i] == segs[i];
      } else {
        assert all[..i] == segs;
      }
    }
  }

  lemma DueAdd(segs: seq<Segment>, x: Segment, iss: nat, n: nat)
    requires Data(segs + [x]) == Data(segs) + x.data && Fins(segs + [x]) == Fins(segs) + if x.fin then 1 else 0
    requires n == |x.data| + if x.fin then 1 else 0
    ensures Due(segs + [x], iss) == Plus(Due(segs, iss), n)
  {
    hide Data, Fins;
    PlusPlus(iss, 1 + |Data(segs)| + Fins(segs), n);
  }

  lemma PlusPlus(a: nat, m: nat, n: nat)
    ensures Plus(Plus(a, m), n) == Plus(a, m + n)
  {
    var k := (a + m) / WORD;
    assert a + m == Plus(a, m) + k * WORD;
    ModDrop(Plus(a, m) + n, k, WORD);
  }

  /** A segment sent by a connection in order: what Fitting asks for, and the numbers behind it. */
  lemma Sent(segs: seq<Segment>, x: Segment, iss: nat, n: nat)
    requires Trace(segs, iss) && Fitting(segs, x, iss) && n == |x.data| + if x.fin then 1 else 0
    ensures Trace(segs + [x], iss) && Due(segs + [x], iss) == Plus(Due(segs, iss), n)
    ensures Fins(segs + [x]) == Fins(segs) + if x.fin then 1 else 0
  {
    hide Data, Fins, Fitting, Due, Trace;
    TraceAdd(segs, x, iss);
    DueAdd(segs, x, iss, n);
  }

  lemma PlusZero(a: nat)
    requires a < WORD
    ensures Plus(a, 0) == a
  {
  }

  lemma OpenedAccounted(c: Tcb, isn: nat)
    requires c.Ok() && isn < WORD
    ensures Accounted(Opened(c, isn).c, Opened(c, isn).segs)
  {
    var x := Opened(c, isn).segs[0];
    assert [] + [x] == [x];
    Sent([], x, isn, 0);
    PlusZero(Due([], isn));
  }

  lemma TickedAccounted(c: Tcb, segs: seq<Segment>)
    requires c.Ok() && Accounted(c, segs)
    ensures Accounted(Ticked(c).c, segs + Ticked(c).segs)
  {
    hide Data, Due, Trace;
    if c.used && c.phase == SynSent {
      Sent(segs, Syn(c), c.iss, 0);
      PlusZero(c.nxt);
    } else {
      assert segs + [] == segs;
    }
  }

  lemma WrittenAccounted(c: Tcb, segs: seq<Segment>, data: seq<byte>)
    requires c.Ok() && Accounted(c, segs)
    ensures Accounted(Written(c, data).c, segs + Written(c, data).segs)
  {
    hide Data, Due, Trace;
    var o := Written(c, data);
    if o.segs == [] {
      assert segs + [] == segs;
    } else {
      Sent(segs, o.segs[0], c.iss, |Sendable(data)|);
      assert o.segs == [o.segs[0]];
    }
  }

  lemma EndedAccounted(c: Tcb, segs: seq<Segment>)
    requires c.Ok() && Accounted(c, segs)
    ensures Accounted(Ended(c).c, segs + Ended(c).segs)
  {
    hide Data, Due, Trace;
    if c.used && c.phase == Established {
      Sent(segs, Fin(c), c.iss, 1);
    } else {
      assert segs + [] == segs;
    }
  }

  lemma AckSent(c: Tcb, d: Tcb, segs: seq<Segment>)
    requires c.Ok() && d.Ok() && Accounted(c, segs) && c.used
    requires d.used && d.iss == c.iss && d.nxt == c.nxt && (d.phase == c.phase || (c.phase == SynSent && d.phase == Established))
    ensures Accounted(d, segs + [Ack(d)])
  {
    hide Data, Due, Trace;
    Sent(segs, Ack(d), c.iss, 0);
    PlusZero(c.nxt);
  }

  /** Accepting data changes the ring and the next number expected, nothing that concerns sending. */
  lemma AcceptLeaves(c: Tcb, s: Segment)
    requires c.Ok()
    ensures var d := Accept(c, s);
            d.used == c.used && d.phase == c.phase && d.iss == c.iss && d.una == c.una && d.nxt == c.nxt && d.head == c.head
  {
    hide Push;
    PushContents(c, s.data);
  }

  lemma EstablishedAccounted(c: Tcb, s: Segment, segs: seq<Segment>)
    requires c.Ok() && s.ackno < WORD && Accounted(c, segs) && c.used && c.phase == Established
    ensures Accounted(GotEstablished(c, s).c, segs + GotEstablished(c, s).segs)
  {
    hide Data, Due, Trace, Accept, Fins;
    var d := Accept(Acked(c, s), s);
    AcceptLeaves(Acked(c, s), s);
    var acks := if Accepts(c, s) then [Ack(d)] else [];
    var mid := segs + acks;
    assert Accounted(d, mid) by {
      if Accepts(c, s) {
        AckSent(c, d, segs);
      } else {
        assert segs + [] == segs;
      }
    }
    if s.fin {
      var e := d.(rcvNxt := Plus(d.rcvNxt, 1));
      AckSent(d, e, mid);
      var f := e.(phase := FinWait1);
      assert Ack(f) == Ack(e) && Fin(f) == Fin(e);
      Sent(mid + [Ack(e)], Fin(e), c.iss, 1);
      assert segs + (acks + [Ack(f), Fin(f)]) == mid + [Ack(e)] + [Fin(e)];
    }
  }

  lemma FinWait1Accounted(c: Tcb, s: Segment, segs: seq<Segment>)
    requires c.Ok() && s.ackno < WORD && Accounted(c, segs) && c.used && c.phase == FinWait1
    ensures Accounted(GotFinWait1(c, s).c, segs + GotFinWait1(c, s).segs)
  {
    hide Data, Due, Trace, Accept, Fins;
    var a := if s.ack && s.ackno == c.nxt then Acked(c, s).(phase := FinWait2) else Acked(c, s);
    AcceptLeaves(a, s);
    var d := Accept(a, s);
    assert segs + [] == segs;
    if s.fin {
      var e := d.(rcvNxt := Plus(d.rcvNxt, 1), phase := TimeWait);
      assert Accounted(e, segs);
      AckSent(e, e, segs);
    }
  }

  lemma FinWait2Accounted(c: Tcb, s: Segment, segs: seq<Segment>)
    requires c.Ok() && Accounted(c, segs) && c.used && c.phase == FinWait2
    ensures Accounted(GotFinWait2(c, s).c, segs + GotFinWait2(c, s).segs)
  {
    hide Data, Due, Trace, Accept, Fins;
    AcceptLeaves(c, s);
    var d := Accept(c, s);
    var acks := if Accepts(c, s) then [Ack(d)] else [];
    var mid := segs + acks;
    assert Accounted(d, mid) by {
      if Accepts(c, s) {
        AckSent(c, d, segs);
      } else {
        assert segs + [] == segs;
      }
    }
    if s.fin {
      var e := d.(rcvNxt := Plus(d.rcvNxt, 1), phase := TimeWait);
      assert Accounted(e, mid);
      AckSent(e, e, mid);
      assert segs + (acks + [Ack(e)]) == mid + [Ack(e)];
    }
  }

  /** Whatever arrives, the books stay balanced. */
  lemma GotAccounted(c: Tcb, s: Segment, segs: seq<Segment>)
    requires c.Ok() && s.ackno < WORD && s.seqno < WORD && Accounted(c, segs)
    ensures c.used ==> Accounted(Got(c, s).c, segs + Got(c, s).segs)
  {
    hide Data, Due, Trace, Fins, GotEstablished, GotFinWait1, GotFinWait2;
    assert segs + [] == segs;
    if c.used && !s.rst {
      match c.phase
      case SynSent =>
        if s.syn && s.ack {
          AckSent(c, Got(c, s).c, segs);
        }
      case Established => EstablishedAccounted(c, s, segs);
      case FinWait1 => FinWait1Accounted(c, s, segs);
      case FinWait2 => FinWait2Accounted(c, s, segs);
      case _ =>
    }
  }

  // ----- What balanced books mean

  lemma {:induction false} FinsGrow(segs: seq<Segment>, i: nat)
    requires i <= |segs|
    ensures Fins(segs[..i]) <= Fins(segs)
    decreases |segs|
  {
    if i < |segs| {
      FinsGrow(segs[..|segs| - 1], i);
      assert segs[..|segs| - 1][..i] == segs[..i];
    } else {
      assert segs[..i] == segs;
    }
  }

  /** Behind a FIN there is no second FIN and no data. */
  lemma NothingAfterFin(segs: seq<Segment>, iss: nat, i: nat, j: nat)
    requires Trace(segs, iss) && i < j < |segs| && segs[i].fin
    ensures !segs[j].fin && segs[j].data == []
  {
    hide Due;
    var before := segs[..j];
    assert before[..i + 1][..i] == before[..i] && before[..i + 1][i] == segs[i];
    assert Fins(before[..i + 1]) >= 1;
    FinsGrow(before, i + 1);
    assert Fitting(segs[..j], segs[j], iss);
  }

  lemma {:induction false} DataGrows(segs: seq<Segment>, i: nat)
    requires i <= |segs|
    ensures |Data(segs[..i])| <= |Data(segs)| && Data(segs)[..|Data(segs[..i])|] == Data(segs[..i])
    decreases |segs|
  {
    if i < |segs| {
      var init := segs[..|segs| - 1];
      DataGrows(init, i);
      assert init[..i] == segs[..i];
      assert Data(segs)[..|Data(init[..i])|] == Data(init)[..|Data(init[..i])|];
    } else {
      assert segs[..i] == segs;
    }
  }

  /** Every data segment is the piece of the written stream that its sequence number says. */
  lemma DataInPlace(segs: seq<Segment>, iss: nat, i: nat)
    requires Trace(segs, iss) && i < |segs| && segs[i].data != []
    ensures var o := |Data(segs[..i])|;
            && o + |segs[i].data| <= |Data(segs)| && Data(segs)[o..o + |segs[i].data|] == segs[i].data
            && segs[i].seqno == Plus(iss, 1 + o)
  {
    var o, n := |Data(segs[..i])|, |segs[i].data|;
    var upto := segs[..i + 1];
    assert upto[..i] == segs[..i] && upto[i] == segs[i];
    assert Data(upto) == Data(segs[..i]) + segs[i].data;
    DataGrows(segs, i + 1);
    assert Data(segs)[..o + n][o..] == Data(segs)[o..o + n];
    assert Fitting(segs[..i], segs[i], iss);
  }

  // ----- Runs of one connection

  /** What can happen to a connection: calls of its owner and segments that arrive. */
  datatype Event = Tick | Write(data: seq<byte>) | Read(max: nat) | Close | Arrive(s: Segment) {
    ghost predicate Ok() {
      Arrive? ==> s.seqno < WORD && s.ackno < WORD
    }
  }

  ghost predicate AllOk(es: seq<Event>) {
    forall i :: 0 <= i < |es| ==> es[i].Ok()
  }

  /** How many bytes a read of at most max bytes returns. */
  function ReadSize(c: Tcb, max: nat): (n: nat)
    requires c.Ok()
    ensures n <= Count(c)
  {
    if !c.used then 0 else if Count(c) > max then max else Count(c)
  }

  /** One event: the block, the segments handed over, the bytes returned to the owner. */
  ghost function Stepped(c: Tcb, e: Event): (r: (Out, seq<byte>))
    requires c.Ok() && e.Ok()
    ensures r.0.c.Ok()
  {
    match e
    case Tick => (Ticked(c), [])
    case Write(data) => (Written(c, data), [])
    case Read(max) => (Out(Taken(c, ReadSize(c, max)), []), Contents(c)[..ReadSize(c, max)])
    case Close => (Ended(c), [])
    case Arrive(s) => (if c.used then Got(c, s) else Out(c, []), [])
  }

  /** A run so far: the block, the segments sent, the bytes read, the FINs of the peer taken up. */
  datatype Run = Run(c: Tcb, segs: seq<Segment>, out: seq<byte>, fins: nat)

  predicate TakesData(p: Phase) {
    p == Established || p == FinWait1 || p == FinWait2
  }

  predicate TakesFin(c: Tcb, e: Event) {
    e.Arrive? && c.used && TakesData(c.phase) && e.s.fin && !e.s.rst
  }

  ghost function Next(r: Run, e: Event): (n: Run)
    requires r.c.Ok() && e.Ok()
    ensures n.c.Ok()
  {
    var t := Stepped(r.c, e);
    Run(t.0.c, r.segs + t.0.segs, r.out + t.1, r.fins + if TakesFin(r.c, e) then 1 else 0)
  }

  lemma NextAccounted(r: Run, e: Event)
    requires r.c.Ok() && e.Ok() && Accounted(r.c, r.segs)
    ensures Accounted(Next(r, e).c, Next(r, e).segs)
  {
    hide Data, Due, Trace, Fins, Got, Written, Ended, Ticked;
    assert r.segs + [] == r.segs;
    match e
    case Tick => TickedAccounted(r.c, r.segs);
    case Write(data) => WrittenAccounted(r.c, r.segs, data);
    case Read(max) =>
    case Close => EndedAccounted(r.c, r.segs);
    case Arrive(s) => GotAccounted(r.c, s, r.segs);
  }

  /** The run of a list of events on a connection opened in a free slot. */
  ghost function After(slot: Tcb, isn: nat, es: seq<Event>): (r: Run)
    requires slot.Ok() && isn < WORD && AllOk(es)
    ensures r.c.Ok()
  {
    if es == [] then Run(Opened(slot, isn).c, Opened(slot, isn).segs, [], 0)
    else Next(After(slot, isn, es[..|es| - 1]), es[|es| - 1])
  }

  /** Send accounting over every run. */
  lemma {:induction false} RunAccounted(slot: Tcb, isn: nat, es: seq<Event>)
    requires slot.Ok() && isn < WORD && AllOk(es)
    ensures Accounted(After(slot, isn, es).c, After(slot, isn, es).segs)
    decreases |es|
  {
    hide Accounted, Next, Opened;
    if es == [] {
      OpenedAccounted(slot, isn);
    } else {
      RunAccounted(slot, isn, es[..|es| - 1]);
      NextAccounted(After(slot, isn, es[..|es| - 1]), es[|es| - 1]);
    }
  }
}
