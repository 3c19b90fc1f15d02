/** What a TCP connection of net/tcp.c delivers to its owner (section 3.9 of RFC 793). */
module TcpDelivery {
  import opened Tcp
  import opened Words

  /**
   * A segment of a peer that opened with isn and sends the stream, then its FIN:
   * its SYN, or any piece of the stream; the FIN stands behind the last byte.
   */
  ghost predicate FromPeer(s: Segment, stream: seq<byte>, isn: nat, o: nat) {
    && !s.rst && s.ackno < WORD && s.seqno < WORD
    && (if s.syn then s.seqno == isn && s.data == [] && !s.fin
        else o + |s.data| <= |stream| && s.data == stream[o..o + |s.data|] && s.seqno == Plus(isn, 1 + o))
    && (s.fin ==> o + |s.data| == |stream| && |stream| + 1 < WORD)
  }

  /**
   * What was read is the beginning of the stream, the ring holds what follows, and the next number
   * expected counts both and the FINs; a FIN was taken only when all of the stream was.
   */
  ghost predicate Receiving(r: Run, stream: seq<byte>, isn: nat)
    requires r.c.Ok()
  {
    && r.out <= stream
    && (r.c.used ==>
          var got := |r.out| + Count(r.c);
          && got <= |stream| && Contents(r.c) == stream[|r.out|..got]
          && (if r.c.phase == SynSent then got == 0 && r.fins == 0 else r.c.rcvNxt == Plus(isn, 1 + got + r.fins))
          && r.c.phase != CloseWait
          && (r.fins > 0 ==> got == |stream| && |stream| + 1 < WORD && r.c.phase != Established)
          && (r.fins > 1 ==> !TakesData(r.c.phase)))
  }

  lemma PlusInjective(a: nat, m: nat, n: nat)
    requires m < WORD && n < WORD && Plus(a, 1 + m) == Plus(a, 1 + n)
    ensures m == n
  {
    var j, k := (a + 1 + m) / WORD, (a + 1 + n) / WORD;
    assert m - n == (j - k) * WORD;
  }

  // ----- Data

  /** A piece is accepted only at its place, and then the ring grows by it. */
  lemma AcceptDelivers(c: Tcb, s: Segment, stream: seq<byte>, isn: nat, o: nat, done: nat, got: nat)
    requires c.Ok() && |stream| < WORD && !s.syn && FromPeer(s, stream, isn, o)
    requires done <= got <= |stream| && Contents(c) == stream[done..got] && c.rcvNxt == Plus(isn, 1 + got)
    requires Accepts(c, s) ==> |s.data| <= Room(c)
    ensures var got' := if Accepts(c, s) then got + |s.data| else got;
            got' <= |stream| && Contents(Accept(c, s)) == stream[done..got'] && Accept(c, s).rcvNxt == Plus(isn, 1 + got')
    ensures Accepts(c, s) ==> o == got
  {
    hide Contents, Push, Room, Count;
    if Accepts(c, s) {
      PlusInjective(isn, o, got);
      PushExact(c, s.data);
      PlusPlus(isn, 1 + got, |s.data|);
      assert stream[done..got] + stream[got..got + |s.data|] == stream[done..got + |s.data|];
      RingOnly(Push(c, s.data), Plus(c.rcvNxt, |s.data|));
    }
  }

  lemma RingOnly(c: Tcb, n: nat)
    requires c.Ok() && n < WORD
    ensures Contents(c.(rcvNxt := n)) == Contents(c)
  {
  }

  /** What the ring holds depends on the ring and its indices alone. */
  lemma SameRing(c: Tcb, d: Tcb)
    requires c.Ok() && d.Ok() && c.ring == d.ring && c.head == d.head && c.tail == d.tail
    ensures Contents(c) == Contents(d) && Room(c) == Room(d)
  {
  }

  /** Behind the FIN no piece of the stream is in its place any more. */
  lemma NothingBehindFin(c: Tcb, s: Segment, stream: seq<byte>, isn: nat, o: nat)
    requires !s.syn && FromPeer(s, stream, isn, o) && |stream| + 1 < WORD && c.rcvNxt == Plus(isn, 1 + |stream| + 1)
    ensures !Accepts(c, s)
  {
    if Accepts(c, s) {
      PlusInjective(isn, o, |stream| + 1);
      assert false;
    }
  }

  /** An accepted payload fits the ring; a full ring drops bytes while the number expected still advances. */
  ghost predicate Fits(c: Tcb, s: Segment)
    requires c.Ok()
  {
    c.used && c.phase != SynSent && Accepts(c, s) ==> |s.data| <= Room(c)
  }

  lemma ReadReceiving(r: Run, max: nat, stream: seq<byte>, isn: nat)
    requires r.c.Ok() && Receiving(r, stream, isn)
    ensures Receiving(Next(r, Read(max)), stream, isn)
  {
    hide Contents, Plus;
    var n := ReadSize(r.c, max);
    TakenContents(r.c, n);
    var r' := Next(r, Read(max));
    if r.c.used {
      assert r'.out == r.out + stream[|r.out|..|r.out| + Count(r.c)][..n] == stream[..|r.out| + n];
      assert Count(r'.c) == Count(r.c) - n;
    } else {
      assert r'.out == r.out;
    }
  }

  /** Calls that only send leave the receiving side alone. */
  lemma SendReceiving(r: Run, e: Event, stream: seq<byte>, isn: nat)
    requires r.c.Ok() && e.Ok() && (e.Tick? || e.Write? || e.Close?) && Receiving(r, stream, isn)
    ensures Receiving(Next(r, e), stream, isn)
  {
    hide Contents, Plus;
    var d := Next(r, e).c;
    assert r.out + [] == r.out;
    SameRing(r.c, d);
  }

  /** The same block but for fields that receiving does not use. */
  lemma ReceivingSame(r: Run, q: Run, stream: seq<byte>, isn: nat)
    requires r.c.Ok() && q.c.Ok() && Receiving(r, stream, isn) && r.out == q.out && r.fins == q.fins
    requires q.c.used ==> r.c.used && r.c.ring == q.c.ring && r.c.head == q.c.head && r.c.tail == q.c.tail
    requires q.c.used ==> r.c.rcvNxt == q.c.rcvNxt && (r.c.phase == SynSent <==> q.c.phase == SynSent)
    requires q.c.used ==> (q.c.phase == Established ==> r.c.phase == Established) && (TakesData(q.c.phase) ==> TakesData(r.c.phase))
    requires q.c.used ==> (q.c.phase == CloseWait ==> r.c.phase == CloseWait)
    ensures Receiving(q, stream, isn)
  {
    hide Contents, Plus;
    if q.c.used {
      SameRing(r.c, q.c);
    }
  }

  lemma AcceptReceiving(r: Run, s: Segment, o: nat, stream: seq<byte>, isn: nat, q: Run)
    requires r.c.Ok() && Receiving(r, stream, isn) && |stream| < WORD && FromPeer(s, stream, isn, o) && !s.syn
    requires r.c.used && TakesData(r.c.phase) && Fits(r.c, s)
    requires q == r.(c := Accept(r.c, s))
    ensures q.c.Ok() && Receiving(q, stream, isn)
    ensures |q.out| + Count(q.c) == |r.out| + Count(r.c) + if Accepts(r.c, s) then |s.data| else 0
    ensures Accepts(r.c, s) ==> o == |r.out| + Count(r.c)
  {
    hide Contents, Plus, Push;
    AcceptLeaves(r.c, s);
    if r.fins == 0 {
      AcceptDelivers(r.c, s, stream, isn, o, |r.out|, |r.out| + Count(r.c));
      assert |Contents(q.c)| == Count(q.c);
    } else {
      NothingBehindFin(r.c, s, stream, isn, o);
    }
  }

  /** The block behind the acknowledgement part of tcp_rx. */
  function Settled(c: Tcb, s: Segment): (a: Tcb)
    requires c.Ok() && s.ackno < WORD
    ensures a.Ok()
  {
    if c.phase == FinWait2 then c
    else if c.phase == FinWait1 && s.ack && s.ackno == c.nxt then Acked(c, s).(phase := FinWait2)
    else Acked(c, s)
  }

  /** The block behind the data part of tcp_rx, before it looks at the FIN. */
  ghost function Loaded(r: Run, s: Segment): (q: Run)
    requires r.c.Ok() && s.ackno < WORD
    ensures q.c.Ok()
  {
    r.(c := Accept(Settled(r.c, s), s))
  }

  lemma LoadedReceiving(r: Run, s: Segment, o: nat, stream: seq<byte>, isn: nat)
    requires r.c.Ok() && Receiving(r, stream, isn) && |stream| < WORD
    requires FromPeer(s, stream, isn, o) && Fits(r.c, s) && r.c.used && TakesData(r.c.phase)
    ensures Receiving(Loaded(r, s), stream, isn) && Loaded(r, s).c.used
    ensures |r.out| + Count(Loaded(r, s).c) == |r.out| + Count(r.c) + if Accepts(r.c, s) then |s.data| else 0
    ensures Accepts(r.c, s) ==> o == |r.out| + Count(r.c)
    ensures Loaded(r, s).c.phase == Settled(r.c, s).phase && Loaded(r, s).out == r.out && Loaded(r, s).fins == r.fins
  {
    hide Contents, Plus, Accept, Receiving;
    var a := Settled(r.c, s);
    var q := r.(c := a);
    SameRing(r.c, a);
    ReceivingSame(r, q, stream, isn);
    AcceptLeaves(a, s);
    if s.syn {
      assert Accept(a, s) == a by { NoData(a, s); }
    } else {
      AcceptReceiving(q, s, o, stream, isn, Loaded(r, s));
    }
  }

  lemma NoData(c: Tcb, s: Segment)
    requires c.Ok() && s.data == []
    ensures Accept(c, s) == c
  {
  }

  /** Without a FIN nothing else happens to the receiving side. */
  lemma PieceReceiving(r: Run, s: Segment, o: nat, stream: seq<byte>, isn: nat)
    requires r.c.Ok() && Receiving(r, stream, isn) && |stream| < WORD
    requires FromPeer(s, stream, isn, o) && Fits(r.c, s) && r.c.used && TakesData(r.c.phase) && !s.fin
    ensures Receiving(Next(r, Arrive(s)), stream, isn)
  {
    hide Contents, Plus, Accept, Receiving, Ack;
    LoadedReceiving(r, s, o, stream, isn);
    var n := Next(r, Arrive(s));
    assert n.out == r.out && n.c == Loaded(r, s).c;
    ReceivingSame(Loaded(r, s), n, stream, isn);
  }

  /** An accepted piece keeps the receiver on the stream exactly when it fits the ring. */
  lemma DeliversWhenFitting(r: Run, s: Segment, o: nat, stream: seq<byte>, isn: nat)
    requires r.c.Ok() && Receiving(r, stream, isn) && |stream| < WORD
    requires FromPeer(s, stream, isn, o) && !s.syn && !s.fin && Accepts(r.c, s) && r.c.used && TakesData(r.c.phase)
    ensures Receiving(Next(r, Arrive(s)), stream, isn) <==> |s.data| <= Room(r.c)
  {
    hide Contents, Plus, Push;
    if |s.data| <= Room(r.c) {
      PieceReceiving(r, s, o, stream, isn);
    } else {
      var n, got := Next(r, Arrive(s)), |r.out| + Count(r.c);
      if r.fins > 0 {
        NothingBehindFin(r.c, s, stream, isn, o);
      }
      PlusInjective(isn, o, got);
      PlusPlus(isn, 1 + got, |s.data|);
      FullRing(r.c, s, n.c);
      if n.c.rcvNxt == Plus(isn, 1 + |r.out| + Count(n.c)) {
        PlusInjective(isn, got + |s.data|, |r.out| + Count(n.c));
        assert false;
      }
    }
  }

  /** A payload that does not fit leaves the ring full and the number expected past what it holds. */
  lemma FullRing(c: Tcb, s: Segment, d: Tcb)
    requires c.Ok() && s.ackno < WORD && s.seqno < WORD && !s.rst && !s.fin && Accepts(c, s) && |s.data| > Room(c)
    requires TakesData(c.phase) && d == Got(c, s).c
    ensures d.Ok() && Count(d) == RING - 1 && d.rcvNxt == Plus(c.rcvNxt, |s.data|) && d.used == c.used && d.phase != SynSent
  {
    hide Contents, Plus, Push;
    var a := Settled(c, s);
    PushContents(a, s.data);
    assert |Contents(Push(a, s.data))| == Count(a) + Room(a);
  }

  // ----- The FIN

  /** The FIN, or the data in front of it, has the number that is expected next. */
  ghost predicate FinInPlace(c: Tcb, s: Segment) {
    s.seqno == c.rcvNxt || Plus(s.seqno, |s.data|) == c.rcvNxt
  }

  /** The block behind the FIN part of tcp_rx, but for what concerns sending. */
  lemma FinEffect(r: Run, s: Segment)
    requires r.c.Ok() && s.ackno < WORD && s.seqno < WORD && s.fin && !s.rst && r.c.used && TakesData(r.c.phase)
    ensures var q, n := Loaded(r, s), Next(r, Arrive(s));
            && n.out == r.out && n.fins == r.fins + 1 && n.c.used && n.c.rcvNxt == Plus(q.c.rcvNxt, 1)
            && n.c.ring == q.c.ring && n.c.head == q.c.head && n.c.tail == q.c.tail
            && n.c.phase == if r.c.phase == Established then FinWait1 else TimeWait
  {
    hide Plus, Push, Ack;
    AcceptLeaves(Settled(r.c, s), s);
  }

  /** Taking a FIN keeps the receiver on the stream exactly when all of the stream is there. */
  lemma FinTaken(r: Run, s: Segment, o: nat, stream: seq<byte>, isn: nat)
    requires r.c.Ok() && Receiving(r, stream, isn) && |stream| < WORD
    requires FromPeer(s, stream, isn, o) && Fits(r.c, s) && r.c.used && TakesData(r.c.phase) && s.fin
    ensures Receiving(Next(r, Arrive(s)), stream, isn) <==> |r.out| + Count(Loaded(r, s).c) == |stream|
  {
    hide Contents, Plus, Accept;
    LoadedReceiving(r, s, o, stream, isn);
    FinEffect(r, s);
    var q, n := Loaded(r, s), Next(r, Arrive(s));
    var got := |r.out| + Count(q.c);
    SameRing(q.c, n.c);
    PlusPlus(isn, 1 + got + r.fins, 1);
  }

  /** The numbers say whether all of the stream is there once the segment is loaded. */
  lemma AllThere(r: Run, s: Segment, o: nat, stream: seq<byte>, isn: nat)
    requires r.c.Ok() && Receiving(r, stream, isn) && |stream| < WORD && r.fins == 0
    requires FromPeer(s, stream, isn, o) && Fits(r.c, s) && r.c.used && TakesData(r.c.phase) && s.fin
    ensures |r.out| + Count(Loaded(r, s).c) == |stream| <==> FinInPlace(r.c, s)
  {
    hide Contents, Plus, Accept, Loaded;
    LoadedReceiving(r, s, o, stream, isn);
    var got := |r.out| + Count(r.c);
    PlusPlus(isn, 1 + o, |s.data|);
    if Plus(s.seqno, |s.data|) == r.c.rcvNxt {
      PlusInjective(isn, |stream|, got);
    }
    if s.seqno == r.c.rcvNxt {
      PlusInjective(isn, o, got);
    }
  }

  /**
   * A FIN is taken at any sequence number. The number expected is then the one behind the FIN, and the
   * receiver stays on the stream, exactly when the FIN or the data in front of it is in its place.
   */
  lemma FinExact(r: Run, s: Segment, o: nat, stream: seq<byte>, isn: nat)
    requires r.c.Ok() && Receiving(r, stream, isn) && |stream| < WORD && r.fins == 0
    requires FromPeer(s, stream, isn, o) && Fits(r.c, s) && r.c.used && TakesData(r.c.phase) && s.fin
    ensures Next(r, Arrive(s)).fins == 1
    ensures Receiving(Next(r, Arrive(s)), stream, isn) <==> FinInPlace(r.c, s)
    ensures Next(r, Arrive(s)).c.rcvNxt == Plus(isn, 1 + |stream| + 1) <==> FinInPlace(r.c, s)
  {
    hide Contents, Plus, Accept, Loaded, FinInPlace;
    FinTaken(r, s, o, stream, isn);
    AllThere(r, s, o, stream, isn);
    FinEffect(r, s);
    LoadedReceiving(r, s, o, stream, isn);
    var got := |r.out| + Count(Loaded(r, s).c);
    PlusPlus(isn, 1 + got, 1);
    assert Loaded(r, s).c.rcvNxt == Plus(isn, 1 + got);
    if Plus(isn, 1 + got + 1) == Plus(isn, 1 + |stream| + 1) {
      PlusInjective(isn, got + 1, |stream| + 1);
    }
  }

  // ----- Whole runs against a network that loses, repeats and reorders

  /** The first FIN is in its place when it is taken; later ones are repetitions. */
  ghost predicate FinOrderly(r: Run, s: Segment) {
    TakesFin(r.c, Arrive(s)) && r.fins == 0 ==> FinInPlace(r.c, s)
  }

  /**
   * Every arriving segment is some piece of the peer's stream, in any order and number; it fits when
   * it is accepted, and the first FIN that is taken is in its place.
   */
  ghost predicate Fair(slot: Tcb, iss: nat, es: seq<Event>, stream: seq<byte>, isn: nat, offs: seq<nat>)
    requires slot.Ok() && iss < WORD && AllOk(es) && |offs| == |es|
  {
    es == [] ||
    var init, e := es[..|es| - 1], es[|es| - 1];
    var r := After(slot, iss, init);
    && Fair(slot, iss, init, stream, isn, offs[..|es| - 1])
    && (e.Arrive? ==> FromPeer(e.s, stream, isn, offs[|es| - 1]) && Fits(r.c, e.s) && FinOrderly(r, e.s))
  }

  /** A FIN, the first in its place or any repetition. */
  lemma FinReceiving(r: Run, s: Segment, o: nat, stream: seq<byte>, isn: nat)
    requires r.c.Ok() && Receiving(r, stream, isn) && |stream| < WORD
    requires FromPeer(s, stream, isn, o) && Fits(r.c, s) && FinOrderly(r, s) && r.c.used && TakesData(r.c.phase) && s.fin
    ensures Receiving(Next(r, Arrive(s)), stream, isn)
  {
    hide Contents, Plus, Accept, Loaded, FinInPlace;
    if r.fins == 0 {
      FinExact(r, s, o, stream, isn);
    } else {
      FinTaken(r, s, o, stream, isn);
      LoadedReceiving(r, s, o, stream, isn);
    }
  }

  lemma SynSentReceiving(r: Run, s: Segment, o: nat, stream: seq<byte>, isn: nat)
    requires r.c.Ok() && Receiving(r, stream, isn) && isn < WORD && r.c.used && r.c.phase == SynSent
    requires FromPeer(s, stream, isn, o)
    ensures Receiving(Next(r, Arrive(s)), stream, isn)
  {
    hide Contents;
    var n := Next(r, Arrive(s));
    assert n.out == r.out;
    SameRing(r.c, n.c);
  }

  lemma ArriveReceiving(r: Run, s: Segment, o: nat, stream: seq<byte>, isn: nat)
    requires r.c.Ok() && Receiving(r, stream, isn) && |stream| < WORD && isn < WORD
    requires FromPeer(s, stream, isn, o) && Fits(r.c, s) && FinOrderly(r, s) && r.c.used
    ensures Receiving(Next(r, Arrive(s)), stream, isn)
  {
    hide Contents, Plus, Accept, Fits, Receiving, FinOrderly;
    if r.c.phase == SynSent {
      SynSentReceiving(r, s, o, stream, isn);
    } else if TakesData(r.c.phase) {
      if s.fin {
        FinReceiving(r, s, o, stream, isn);
      } else {
        PieceReceiving(r, s, o, stream, isn);
      }
    } else {
      var n := Next(r, Arrive(s));
      assert n.out == r.out;
      ReceivingSame(r, n, stream, isn);
    }
  }

  /** TCP delivers in order: what the owner has read is a prefix of what the peer sent. */
  lemma {:induction false} Delivered(slot: Tcb, iss: nat, es: seq<Event>, stream: seq<byte>, isn: nat, offs: seq<nat>)
    requires slot.Ok() && iss < WORD && isn < WORD && AllOk(es) && |offs| == |es| && |stream| < WORD
    requires Fair(slot, iss, es, stream, isn, offs)
    ensures Receiving(After(slot, iss, es), stream, isn)
    decreases |es|
  {
    hide Receiving, Next, FromPeer, Fits, Contents, FinOrderly;
    if es == [] {
      OpenReceiving(slot, iss, stream, isn);
    } else {
      var init, e := es[..|es| - 1], es[|es| - 1];
      Delivered(slot, iss, init, stream, isn, offs[..|es| - 1]);
      var r := After(slot, iss, init);
      if e.Read? {
        ReadReceiving(r, e.max, stream, isn);
      } else if e.Arrive? {
        if r.c.used {
          ArriveReceiving(r, e.s, offs[|es| - 1], stream, isn);
        } else {
          Unused(r, e.s, stream, isn);
        }
      } else {
        SendReceiving(r, e, stream, isn);
      }
    }
  }

  lemma OpenReceiving(slot: Tcb, iss: nat, stream: seq<byte>, isn: nat)
    requires slot.Ok() && iss < WORD
    ensures Receiving(Run(Opened(slot, iss).c, Opened(slot, iss).segs, [], 0), stream, isn)
  {
  }

  lemma Unused(r: Run, s: Segment, stream: seq<byte>, isn: nat)
    requires r.c.Ok() && !r.c.used && Receiving(r, stream, isn) && Arrive(s).Ok()
    ensures Receiving(Next(r, Arrive(s)), stream, isn)
  {
    assert r.out + [] == r.out;
  }

  // ----- Two runs that leave the stream

  ghost function FreeSlot(): (c: Tcb)
    ensures c.Ok()
  {
    Tcb(false, Closed, 0, 0, 0, 0, seq(RING, _ => 0), 0, 0)
  }

  lemma AfterOne(es: seq<Event>, e: Event)
    requires AllOk(es) && e.Ok()
    ensures AllOk(es + [e]) && After(FreeSlot(), 0, es + [e]) == Next(After(FreeSlot(), 0, es), e)
  {
    assert (es + [e])[..|es + [e]| - 1] == es;
  }

  /** A piece of the peer's stream, the peer having opened with number 0. */
  function Piece(stream: seq<byte>, a: nat, b: nat, fin: bool): (s: Segment)
    requires a <= b <= |stream|
  {
    Segment(Plus(0, 1 + a), 0, false, false, fin, false, stream[a..b])
  }

  /** The peer's answer to our SYN. */
  const SYN_ACK := Arrive(Segment(0, 1, true, true, false, false, []))

  /** The receiving side of a run. */
  ghost predicate Holds(r: Run, phase: Phase, out: seq<byte>, ring: seq<byte>, expected: nat)
    requires r.c.Ok()
  {
    r.c.used && r.c.phase == phase && r.out == out && Contents(r.c) == ring && r.c.rcvNxt == expected
  }

  lemma OpenHolds()
    ensures AllOk([SYN_ACK]) && Holds(After(FreeSlot(), 0, [SYN_ACK]), Established, [], [], 1)
  {
    AfterOne([], SYN_ACK);
    assert [] + [SYN_ACK] == [SYN_ACK];
    var c := After(FreeSlot(), 0, [SYN_ACK]).c;
    assert Count(c) == 0;
  }

  /** Accepted data, whether or not it fits. */
  lemma PieceHolds(es: seq<Event>, s: Segment, phase: Phase, out: seq<byte>, ring: seq<byte>, k: nat)
    requires AllOk(es) && Arrive(s).Ok() && !s.syn && !s.ack && !s.fin && !s.rst && s.data != [] && TakesData(phase)
    requires Holds(After(FreeSlot(), 0, es), phase, out, ring, s.seqno)
    requires k == if |s.data| <= RING - 1 - |ring| then |s.data| else RING - 1 - |ring|
    ensures AllOk(es + [Arrive(s)])
    ensures Holds(After(FreeSlot(), 0, es + [Arrive(s)]), phase, out, ring + s.data[..k], Plus(s.seqno, |s.data|))
  {
    hide After, Push, Contents, Plus;
    AfterOne(es, Arrive(s));
    var r := After(FreeSlot(), 0, es);
    PushContents(r.c, s.data);
    RingOnly(Push(r.c, s.data), Plus(s.seqno, |s.data|));
    assert r.out + [] == r.out;
  }

  /** A FIN at any number but the one expected. */
  lemma FinHolds(es: seq<Event>, s: Segment, out: seq<byte>, ring: seq<byte>, expected: nat)
    requires AllOk(es) && Arrive(s).Ok() && !s.syn && !s.ack && s.fin && !s.rst && s.seqno != expected
    requires Holds(After(FreeSlot(), 0, es), Established, out, ring, expected)
    ensures AllOk(es + [Arrive(s)])
    ensures Holds(After(FreeSlot(), 0, es + [Arrive(s)]), FinWait1, out, ring, Plus(expected, 1))
  {
    hide After, Contents, Plus;
    AfterOne(es, Arrive(s));
    var r := After(FreeSlot(), 0, es);
    SameRing(r.c, After(FreeSlot(), 0, es + [Arrive(s)]).c);
    assert r.out + [] == r.out;
  }

  lemma ReadHolds(es: seq<Event>, max: nat, phase: Phase, out: seq<byte>, ring: seq<byte>, expected: nat)
    requires AllOk(es) && max <= |ring| && Holds(After(FreeSlot(), 0, es), phase, out, ring, expected)
    ensures AllOk(es + [Read(max)])
    ensures Holds(After(FreeSlot(), 0, es + [Read(max)]), phase, out + ring[..max], ring[max..], expected)
  {
    hide After, Contents, Plus;
    AfterOne(es, Read(max));
    TakenContents(After(FreeSlot(), 0, es).c, max);
  }

  /** The peer sends three bytes and a FIN; the FIN comes first, and the owner reads the last two bytes. */
  lemma EarlyFin() returns (es: seq<Event>)
    ensures var stream: seq<byte> := [1, 2, 3];
            && es == [SYN_ACK, Arrive(Piece(stream, 3, 3, true)), Arrive(Piece(stream, 1, 3, false)), Read(2)]
            && FromPeer(SYN_ACK.s, stream, 0, 0) && FromPeer(es[1].s, stream, 0, 3) && FromPeer(es[2].s, stream, 0, 1)
            && AllOk(es) && After(FreeSlot(), 0, es).out == [2, 3] && !([2, 3] <= stream)
  {
    hide After, Contents, Holds;
    var stream: seq<byte> := [1, 2, 3];
    var a, b := Piece(stream, 3, 3, true), Piece(stream, 1, 3, false);
    assert stream[3..3] == [] && stream[1..3] == [2, 3];
    OpenHolds();
    FinHolds([SYN_ACK], a, [], [], 1);
    PieceHolds([SYN_ACK] + [Arrive(a)], b, FinWait1, [], [], 2);
    assert b.data[..2] == [2, 3] && [] + b.data[..2] == [2, 3];
    ReadHolds([SYN_ACK] + [Arrive(a)] + [Arrive(b)], 2, FinWait1, [], [2, 3], Plus(2, 2));
    es := [SYN_ACK] + [Arrive(a)] + [Arrive(b)] + [Read(2)];
    OutOf(After(FreeSlot(), 0, es), FinWait1, [] + [2, 3][..2], [2, 3][2..], Plus(2, 2));
    assert [] + [2, 3][..2] == [2, 3];
    assert [2, 3][0] != stream[0];
  }

  lemma OutOf(r: Run, phase: Phase, out: seq<byte>, ring: seq<byte>, expected: nat)
    requires r.c.Ok() && Holds(r, phase, out, ring, expected)
    ensures r.out == out
  {
  }

  /** A stream in which bytes 4095 and 4380 differ. */
  function LongStream(): (s: seq<byte>)
    ensures |s| == 4381 && s[4095] != s[4380]
  {
    seq(4381, i requires 0 <= i < 4381 => i % 251)
  }

  /** Three full segments without a read overflow the ring; what follows is delivered in the place of what was dropped. */
  lemma Overflow() returns (es: seq<Event>)
    ensures var stream := LongStream();
            && es == [SYN_ACK, Arrive(Piece(stream, 0, 1460, false)), Arrive(Piece(stream, 1460, 2920, false)),
                      Arrive(Piece(stream, 2920, 4380, false)), Read(4095), Arrive(Piece(stream, 4380, 4381, false)), Read(1)]
            && FromPeer(SYN_ACK.s, stream, 0, 0) && FromPeer(es[1].s, stream, 0, 0) && FromPeer(es[2].s, stream, 0, 1460)
            && FromPeer(es[3].s, stream, 0, 2920) && FromPeer(es[5].s, stream, 0, 4380)
            && AllOk(es) && After(FreeSlot(), 0, es).out == stream[..4095] + [stream[4380]]
            && !(After(FreeSlot(), 0, es).out <= stream)
  {
    hide After, Contents, Holds, LongStream;
    var stream := LongStream();
    var a, b, c, d := Piece(stream, 0, 1460, false), Piece(stream, 1460, 2920, false),
                      Piece(stream, 2920, 4380, false), Piece(stream, 4380, 4381, false);
    OpenHolds();
    PieceHolds([SYN_ACK], a, Established, [], [], 1460);
    assert [] + a.data[..1460] == stream[..1460];
    var es1 := [SYN_ACK] + [Arrive(a)];
    PieceHolds(es1, b, Established, [], stream[..1460], 1460);
    assert stream[..1460] + b.data[..1460] == stream[..2920];
    var es2 := es1 + [Arrive(b)];
    PieceHolds(es2, c, Established, [], stream[..2920], 1175);
    assert stream[..2920] + c.data[..1175] == stream[..4095];
    var es3 := es2 + [Arrive(c)];
    ReadHolds(es3, 4095, Established, [], stream[..4095], 4381);
    assert [] + stream[..4095][..4095] == stream[..4095] && stream[..4095][4095..] == [];
    var es4 := es3 + [Read(4095)];
    PieceHolds(es4, d, Established, stream[..4095], [], 1);
    assert [] + d.data[..1] == [stream[4380]];
    var es5 := es4 + [Arrive(d)];
    ReadHolds(es5, 1, Established, stream[..4095], [stream[4380]], 4382);
    es := es5 + [Read(1)];
    OutOf(After(FreeSlot(), 0, es), Established, stream[..4095] + [stream[4380]][..1], [stream[4380]][1..], 4382);
    assert stream[..4095] + [stream[4380]][..1] == stream[..4095] + [stream[4380]];
    var out := stream[..4095] + [stream[4380]];
    assert out[4095] == stream[4380];
  }
}
