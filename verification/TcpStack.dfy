/** The connection slots of net/tcp.c and the calls that change them. */
module TcpStack {
  import opened Tcp
  import opened Words

  const SLOTS: nat := 4

  class Conn {
    var used: bool
    var phase: Phase
    var localPort: nat
    var iss: nat
    var una: nat
    var nxt: nat
    var rcvNxt: nat
    var ring: seq<byte>
    var head: nat
    var tail: nat
    ghost var segs: seq<Segment>   // handed to send_segment since the slot was opened

    function View(): Tcb
      reads this
    {
      Tcb(used, phase, iss, una, nxt, rcvNxt, ring, head, tail)
    }

    ghost predicate Valid()
      reads this
    {
      View().Ok() && Accounted(View(), segs)
    }

    constructor ()
      ensures Valid() && !used
    {
      used, phase := false, Closed;
      localPort, iss, una, nxt, rcvNxt, head, tail := 0, 0, 0, 0, 0, 0, 0;
      ring := seq(RING, _ => 0);
      segs := [];
    }

    /** send_segment: the sequence number is snd_nxt, the acknowledgement rcv_nxt. */
    method SendSegment(syn: bool, ack: bool, fin: bool, data: seq<byte>)
      modifies this`segs
      ensures segs == old(segs) + [Segment(nxt, rcvNxt, syn, ack, fin, false, data)]
    {
      segs := segs + [Segment(nxt, rcvNxt, syn, ack, fin, false, data)];
    }

    /** rcvbuf_push */
    method RcvbufPush(data: seq<byte>)
      requires View().Ok()
      modifies this`ring, this`tail
      ensures View() == Push(old(View()), data)
    {
      var i := 0;
      while i < |data|
        invariant 0 <= i <= |data|
        invariant View().Ok()
        invariant Push(old(View()), data) == Push(View(), data[i..])
      {
        var next := (tail + 1) % RING;
        if next == head {
          return;
        }
        assert data[i..][0] == data[i] && data[i..][1..] == data[i + 1..];
        ring := ring[tail := data[i]];
        tail := next;
        i := i + 1;
      }
    }

    /** The part of tcp_connect that fills the slot. */
    method Open(port: nat, isn: nat)
      requires View().Ok() && isn < WORD
      modifies this
      ensures View() == Opened(old(View()), isn).c && segs == Opened(old(View()), isn).segs && Valid()
      ensures localPort == port
    {
      OpenedAccounted(View(), isn);
      segs := [];
      used, phase, localPort := true, SynSent, port;
      iss, una, nxt, rcvNxt, head, tail := isn, isn, isn, 0, 0, 0;
      SendSegment(true, false, false, []);
      nxt := Plus(iss, 1);
    }

    /** tcp_tick: a SYN is repeated with its own number. */
    method Tick()
      requires Valid()
      modifies this
      ensures View() == Ticked(old(View())).c && segs == old(segs) + Ticked(old(View())).segs && Valid()
      ensures localPort == old(localPort)
    {
      hide Accounted;
      TickedAccounted(View(), segs);
      if !used {
        return;
      }
      if phase == SynSent {
        var saved := nxt;
        nxt := iss;
        SendSegment(true, false, false, []);
        nxt := saved;
      }
    }

    /** tcp_write: at most one segment's worth of data. */
    method Write(data: seq<byte>) returns (n: nat)
      requires Valid()
      modifies this
      ensures View() == Written(old(View()), data).c && segs == old(segs) + Written(old(View()), data).segs && Valid()
      ensures n == if old(used) && old(phase) == Established then |Sendable(data)| else 0
      ensures localPort == old(localPort)
    {
      hide Accounted;
      WrittenAccounted(View(), segs, data);
      if !used || phase != Established {
        return 0;
      }
      if |data| == 0 {
        return 0;
      }
      var d := Sendable(data);
      SendSegment(false, true, false, d);
      nxt := Plus(nxt, |d|);
      n := |d|;
    }

    /** tcp_read: the oldest bytes of the ring. */
    method Read(max: nat) returns (buf: seq<byte>)
      requires Valid()
      modifies this`head
      ensures buf == old(Contents(View())[..ReadSize(View(), max)])
      ensures View() == Taken(old(View()), ReadSize(old(View()), max)) && Valid()
    {
      hide Accounted;
      buf := [];
      assert Taken(View(), 0) == View() && Accounted(View(), segs);
      if !used {
        return;
      }
      var avail := (tail - head + RING) % RING;
      if avail > max {
        avail := max;
      }
      var i := 0;
      while i < avail
        invariant 0 <= i <= avail
        invariant buf == Contents(View())[..i]
      {
        buf := buf + [ring[(head + i) % RING]];
        i := i + 1;
      }
      ghost var c := View();
      head := (head + avail) % RING;
      assert View() == Taken(c, avail);
      assert Accounted(View(), segs) by { SameBooks(c, View(), segs); }
    }

    /** tcp_close: a FIN on an open connection, otherwise the slot is freed. */
    method Close()
      requires Valid()
      modifies this
      ensures View() == Ended(old(View())).c && segs == old(segs) + Ended(old(View())).segs && Valid()
      ensures localPort == old(localPort)
    {
      hide Accounted;
      EndedAccounted(View(), segs);
      if !used {
        return;
      }
      if phase == Established || phase == CloseWait {
        phase := FinWait1;
        SendSegment(false, true, true, []);
        nxt := Plus(nxt, 1);
      } else {
        used := false;
        phase := Closed;
      }
    }

    // ----- tcp_rx, phase by phase

    method TakeData(s: Segment) returns (taken: bool)
      requires View().Ok()
      modifies this`ring, this`tail, this`rcvNxt
      ensures View() == Accept(old(View()), s) && taken == Accepts(old(View()), s)
    {
      hide Push;
      taken := |s.data| > 0 && s.seqno == rcvNxt;
      if taken {
        RcvbufPush(s.data);
        rcvNxt := Plus(rcvNxt, |s.data|);
      }
    }

    method RxEstablished(s: Segment)
      requires View().Ok() && s.ackno < WORD
      modifies this
      ensures View() == GotEstablished(old(View()), s).c && segs == old(segs) + GotEstablished(old(View()), s).segs
      ensures localPort == old(localPort)
    {
      hide Accept, Plus;
      if s.ack {
        una := s.ackno;
      }
      ghost var c := View();
      AcceptLeaves(c, s);
      var taken := TakeData(s);
      if taken {
        SendSegment(false, true, false, []);
      }
      if s.fin {
        rcvNxt := Plus(rcvNxt, 1);
        phase := CloseWait;
        SendSegment(false, true, false, []);
        phase := FinWait1;
        SendSegment(false, true, true, []);
        nxt := Plus(nxt, 1);
      }
    }

    method RxFinWait1(s: Segment)
      requires View().Ok() && s.ackno < WORD
      modifies this
      ensures View() == GotFinWait1(old(View()), s).c && segs == old(segs) + GotFinWait1(old(View()), s).segs
      ensures localPort == old(localPort)
    {
      hide Accept, Plus;
      if s.ack {
        una := s.ackno;
        if s.ackno == nxt {
          phase := FinWait2;
        }
      }
      var taken := TakeData(s);
      if s.fin {
        rcvNxt := Plus(rcvNxt, 1);
        phase := TimeWait;
        SendSegment(false, true, false, []);
      }
    }

    method RxFinWait2(s: Segment)
      requires View().Ok()
      modifies this
      ensures View() == GotFinWait2(old(View()), s).c && segs == old(segs) + GotFinWait2(old(View()), s).segs
      ensures localPort == old(localPort)
    {
      hide Accept, Plus;
      var taken := TakeData(s);
      if taken {
        SendSegment(false, true, false, []);
      }
      if s.fin {
        rcvNxt := Plus(rcvNxt, 1);
        phase := TimeWait;
        SendSegment(false, true, false, []);
      }
    }

    method Rx(s: Segment)
      requires Valid() && used && s.ackno < WORD && s.seqno < WORD
      modifies this
      ensures View() == Got(old(View()), s).c && segs == old(segs) + Got(old(View()), s).segs && Valid()
      ensures localPort == old(localPort)
    {
      hide Accounted, GotEstablished, GotFinWait1, GotFinWait2, Plus;
      GotAccounted(View(), s, segs);
      if s.rst {
        phase := Closed;
        used := false;
        return;
      }
      match phase {
        case SynSent =>
          if s.syn && s.ack {
            rcvNxt := Plus(s.seqno, 1);
            una := s.ackno;
            phase := Established;
            SendSegment(false, true, false, []);
          }
        case Established => RxEstablished(s);
        case FinWait1 => RxFinWait1(s);
        case FinWait2 => RxFinWait2(s);
        case TimeWait =>
          phase := Closed;
          used := false;
        case _ =>
      }
    }
  }

  lemma SameBooks(c: Tcb, d: Tcb, segs: seq<Segment>)
    requires Accounted(c, segs) && d == c.(head := d.head)
    ensures Accounted(d, segs)
  {
  }

  /** All slots; a handle is an index. */
  class Stack {
    const conns: seq<Conn>
    var nextPort: nat
    var isn: nat

    ghost predicate Valid()
      reads this, conns
    {
      && |conns| == SLOTS && (forall i, j :: 0 <= i < j < SLOTS ==> conns[i] != conns[j])
      && (forall i :: 0 <= i < SLOTS ==> conns[i].Valid())
      && FIRST_PORT <= nextPort < 0x1_0000 && isn < WORD
    }

    constructor ()
      ensures Valid() && fresh(conns) && forall i :: 0 <= i < SLOTS ==> !conns[i].used
    {
      var a := new Conn();
      var b := new Conn();
      var c := new Conn();
      var d := new Conn();
      conns := [a, b, c, d];
      nextPort := FIRST_PORT;
      isn := 0x7856_3412;
    }

    /** Every slot but h is as it was. */
    twostate predicate OthersKept(h: int)
      requires |conns| == SLOTS
      reads this, conns
    {
      forall i :: 0 <= i < SLOTS && i != h ==> unchanged(conns[i])
    }

    /** tcp_connect: the first free slot is opened; -1 when there is none. */
    method Connect() returns (h: int)
      requires Valid()
      modifies this`nextPort, this`isn, conns
      ensures Valid() && -1 <= h < SLOTS && OthersKept(h)
      ensures h >= 0 <==> old(exists i :: 0 <= i < SLOTS && !conns[i].used)
      ensures h >= 0 ==> old(!conns[h].used && forall i :: 0 <= i < h ==> conns[i].used)
      ensures h >= 0 ==> conns[h].View() == Opened(old(conns[h].View()), old(isn)).c && |conns[h].segs| == 1
      ensures h >= 0 ==> conns[h].localPort == old(nextPort) && isn == Plus(old(isn), ISN_STEP)
    {
      h := FreeSlot();
      if h < 0 {
        return;
      }
      var port := nextPort;
      nextPort := if nextPort + 1 == 0x1_0000 then FIRST_PORT else nextPort + 1;
      conns[h].Open(port, isn);
      isn := Plus(isn, ISN_STEP);
    }

    method FreeSlot() returns (h: int)
      requires Valid()
      ensures -1 <= h < SLOTS
      ensures h >= 0 ==> !conns[h].used && forall i :: 0 <= i < h ==> conns[i].used
      ensures h < 0 ==> forall i :: 0 <= i < SLOTS ==> conns[i].used
    {
      for k := 0 to SLOTS
        invariant forall i :: 0 <= i < k ==> conns[i].used
      {
        if !conns[k].used {
          return k;
        }
      }
      h := -1;
    }

    /** tcp_rx: the segment goes to the first slot in use with its port, and to no other. */
    method Rx(port: nat, s: Segment)
      requires Valid() && s.ackno < WORD && s.seqno < WORD
      modifies conns
      ensures Valid()
      ensures (forall i :: 0 <= i < SLOTS ==> old(!conns[i].used || conns[i].localPort != port)) ==> OthersKept(-1)
      ensures forall h :: 0 <= h < SLOTS && old(conns[h].used && conns[h].localPort == port)
                && old(forall i :: 0 <= i < h ==> !conns[i].used || conns[i].localPort != port)
                ==> OthersKept(h) && conns[h].View() == Got(old(conns[h].View()), s).c
                    && conns[h].segs == old(conns[h].segs) + Got(old(conns[h].View()), s).segs
    {
      hide Conn.Valid, Got;
      var k := 0;
      while k < SLOTS && !(conns[k].used && conns[k].localPort == port)
        invariant 0 <= k <= SLOTS
        invariant forall i :: 0 <= i < k ==> !conns[i].used || conns[i].localPort != port
      {
        k := k + 1;
      }
      if k < SLOTS {
        conns[k].Rx(s);
      }
    }

    // ----- Calls by handle; a handle out of range does nothing

    method Tick(handle: int)
      requires Valid()
      modifies conns
      ensures Valid() && OthersKept(handle)
      ensures 0 <= handle < SLOTS ==> conns[handle].View() == old(conns[handle].View())
      ensures 0 <= handle < SLOTS ==> conns[handle].segs == old(conns[handle].segs) + old(Ticked(conns[handle].View())).segs
    {
      hide Conn.Valid;
      if handle < 0 || handle >= SLOTS {
        return;
      }
      conns[handle].Tick();
    }

    method Write(handle: int, data: seq<byte>) returns (n: nat)
      requires Valid()
      modifies conns
      ensures Valid() && OthersKept(handle) && n <= |data| && n <= MSS
      ensures 0 <= handle < SLOTS ==> conns[handle].View() == old(Written(conns[handle].View(), data)).c
      ensures 0 <= handle < SLOTS ==> conns[handle].segs == old(conns[handle].segs) + old(Written(conns[handle].View(), data)).segs
    {
      hide Conn.Valid, Written;
      if handle < 0 || handle >= SLOTS {
        return 0;
      }
      n := conns[handle].Write(data);
    }

    method Close(handle: int)
      requires Valid()
      modifies conns
      ensures Valid() && OthersKept(handle)
      ensures 0 <= handle < SLOTS ==> conns[handle].View() == old(Ended(conns[handle].View())).c
      ensures 0 <= handle < SLOTS ==> conns[handle].segs == old(conns[handle].segs) + old(Ended(conns[handle].View())).segs
    {
      hide Conn.Valid, Ended;
      if handle < 0 || handle >= SLOTS {
        return;
      }
      conns[handle].Close();
    }

    method Read(handle: int, max: nat) returns (buf: seq<byte>)
      requires Valid()
      modifies conns
      ensures Valid() && OthersKept(handle) && |buf| <= max
      ensures !(0 <= handle < SLOTS) ==> buf == []
      ensures 0 <= handle < SLOTS ==> old(conns[handle].View()).Ok()
      ensures 0 <= handle < SLOTS ==> buf == old(Contents(conns[handle].View())[..ReadSize(conns[handle].View(), max)])
      ensures 0 <= handle < SLOTS ==> Contents(conns[handle].View()) == old(Contents(conns[handle].View()))[|buf|..]
    {
      hide Contents;
      if handle < 0 || handle >= SLOTS {
        return [];
      }
      ghost var c := conns[handle].View();
      buf := conns[handle].Read(max);
      TakenContents(c, ReadSize(c, max));
    }

    /** tcp_state: a free slot reads as closed. */
    method State(handle: int) returns (p: Phase)
      requires Valid()
      ensures p == if 0 <= handle < SLOTS && conns[handle].used then conns[handle].phase else Closed
      ensures p == Closed || p == SynSent || p == Established || Closing(p)
    {
      if handle < 0 || handle >= SLOTS || !conns[handle].used {
        return Closed;
      }
      assert conns[handle].Valid();
      p := conns[handle].phase;
    }
  }
}
