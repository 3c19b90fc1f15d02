/** The DHCP client of net/dhcp.c: parsing, the state machine, and its runs (section 4.4 of RFC 2131). */
module Dhcp {
  import opened NetBytes
  import opened Words

  const NOWHERE: Address := [0, 0, 0, 0]
  const FALLBACK: Address := [192, 168, 0, 200]
  const CLASS_C: Address := [255, 255, 255, 0]
  const RETRANSMIT_MS: nat := 4000
  const MAX_TRIES: nat := 5

  datatype Phase = Idle | Discover | Request | Bound

  /** What the client hands to the network; the two DHCP frames and the gratuitous ARP. */
  datatype Frame = Discovery | Requesting(ip: Address, server: Address) | Announce(ip: Address)

  datatype State = State(phase: Phase, offered: Address, server: Address, tries: nat, last: nat,
                         ip: Address, netmask: Address, gateway: Address, dns: Address, lease: nat)

  // ----- Parsing a reply

  datatype Options = Options(msg: byte, server: Address, mask: Address, gateway: Address, dns: Address, lease: nat)

  const NO_OPTIONS := Options(0, NOWHERE, CLASS_C, NOWHERE, NOWHERE, 0)

  function Four(f: seq<byte>, p: nat): Address
    requires p + 4 <= |f|
  {
    f[p..p + 4]
  }

  /** How many data bytes the option loop looks at: one of a message type, four of the other known options. */
  function DataLen(tag: byte, n: byte): (k: nat)
    ensures k <= n && k <= 4
  {
    if tag == 53 then (if n >= 1 then 1 else 0)
    else if n >= 4 && (tag == 1 || tag == 3 || tag == 6 || tag == 51 || tag == 54) then 4
    else 0
  }

  /** The effect of one option of length n whose data stands at p. */
  function Noted(o: Options, f: seq<byte>, p: nat, tag: byte, n: byte): (r: Options)
    requires p + DataLen(tag, n) <= |f|
  {
    if DataLen(tag, n) == 0 then o
    else if tag == 53 then o.(msg := f[p])
    else if tag == 1 then o.(mask := Four(f, p))
    else if tag == 3 then o.(gateway := Four(f, p))
    else if tag == 6 then o.(dns := Four(f, p))
    else if tag == 51 then o.(lease := U32be(f, p))
    else o.(server := Four(f, p))
  }

  /** Every option whose data the loop looks at has that data in front of end. */
  predicate Within(f: seq<byte>, len: nat, p: nat, end: nat)
    requires len <= |f|
    decreases len - p
  {
    if p >= len || f[p] == 0xFF then true
    else if f[p] == 0 then Within(f, len, p + 1, end)
    else if p + 1 >= len then true
    else p + 2 + DataLen(f[p], f[p + 1]) <= end && Within(f, len, p + 2 + f[p + 1], end)
  }

  /** The options from p on; the last one of a kind counts. The buffer may go on behind the frame. */
  function Parsed(f: seq<byte>, len: nat, p: nat, o: Options): (r: Options)
    requires len <= |f| && Within(f, len, p, |f|)
    decreases len - p
  {
    if p >= len || f[p] == 0xFF then o
    else if f[p] == 0 then Parsed(f, len, p + 1, o)
    else if p + 1 >= len then o
    else Parsed(f, len, p + 2 + f[p + 1], Noted(o, f, p + 2, f[p], f[p + 1]))
  }

  /** Where the DHCP payload begins. */
  function Payload(f: seq<byte>): (d: nat)
    requires |f| >= 15
    ensures 22 <= d <= 82
  {
    14 + f[14] % 16 * 4 + 8
  }

  /** A frame that reaches the state machine: UDP to port 68, a BOOTREPLY with our transaction and the cookie. */
  predicate Reply(f: seq<byte>, len: nat)
    requires len <= |f|
  {
    && len >= 300 && f[23] == 0x11
    && var d := Payload(f);
    && f[d - 6] == 0 && f[d - 5] == 68
    && len >= d + 240
    && f[d] == 2
    && f[d + 4..d + 8] == [0x50, 0x48, 0x4F, 0x45]
    && f[d + 236..d + 240] == [0x63, 0x82, 0x53, 0x63]
  }

  /** The frame lies in the buffer, and so does all that its option loop looks at. */
  predicate Readable(f: seq<byte>, len: nat) {
    len <= |f| && (Reply(f, len) ==> Within(f, len, Payload(f) + 240, |f|))
  }

  // ----- How far the option loop looks

  /** Four bytes behind the frame are always enough. */
  lemma {:induction false} FourEnough(f: seq<byte>, len: nat, p: nat)
    requires len + 4 <= |f|
    ensures Within(f, len, p, |f|)
    decreases len - p
  {
    if p < len && f[p] != 0xFF {
      if f[p] == 0 {
        FourEnough(f, len, p + 1);
      } else if p + 1 < len {
        FourEnough(f, len, p + 2 + f[p + 1]);
      }
    }
  }

  /** Options that end inside the frame are read the same in every buffer that holds the frame. */
  lemma {:induction false} InsideDecides(f: seq<byte>, g: seq<byte>, len: nat, p: nat, o: Options)
    requires len <= |f| && len <= |g| && f[..len] == g[..len] && Within(f, len, p, len)
    ensures Within(f, len, p, |f|) && Within(g, len, p, |g|) && Parsed(f, len, p, o) == Parsed(g, len, p, o)
    decreases len - p
  {
    if p < len {
      assert f[p] == f[..len][p] == g[..len][p] == g[p];
      if f[p] == 0 {
        InsideDecides(f, g, len, p + 1, o);
      } else if f[p] != 0xFF && p + 1 < len {
        assert f[p + 1] == f[..len][p + 1] == g[..len][p + 1] == g[p + 1];
        var k := DataLen(f[p], f[p + 1]);
        SameSlice(f, g, len, p + 2, p + 2 + k);
        SameNoted(o, f, g, p + 2, f[p], f[p + 1]);
        InsideDecides(f, g, len, p + 2 + f[p + 1], Noted(o, f, p + 2, f[p], f[p + 1]));
      }
    }
  }

  lemma SameSlice(f: seq<byte>, g: seq<byte>, len: nat, a: nat, b: nat)
    requires a <= b <= len <= |f| && len <= |g| && f[..len] == g[..len]
    ensures f[a..b] == g[a..b]
  {
    assert f[a..b] == f[..len][a..b] == g[..len][a..b] == g[a..b];
  }

  lemma SameNoted(o: Options, f: seq<byte>, g: seq<byte>, p: nat, tag: byte, n: byte)
    requires p + DataLen(tag, n) <= |f| && p + DataLen(tag, n) <= |g|
    requires f[p..p + DataLen(tag, n)] == g[p..p + DataLen(tag, n)]
    ensures Noted(o, f, p, tag, n) == Noted(o, g, p, tag, n)
  {
    var k := DataLen(tag, n);
    var u, v := f[p..p + k], g[p..p + k];
    assert forall i :: 0 <= i < k ==> u[i] == f[p + i] && v[i] == g[p + i];
  }

  /** Another last data byte, another result. */
  lemma LastByteMatters(o: Options, f: seq<byte>, p: nat, tag: byte, n: byte, b: byte)
    requires var k := DataLen(tag, n); k > 0 && p + k <= |f| && f[p + k - 1] != b
    ensures Noted(o, f[p + DataLen(tag, n) - 1 := b], p, tag, n) != Noted(o, f, p, tag, n)
  {
    var k := DataLen(tag, n);
    var g := f[p + k - 1 := b];
    if k == 4 {
      assert Four(f, p)[3] != Four(g, p)[3];
      assert g[p] == f[p] && g[p + 1] == f[p + 1] && g[p + 2] == f[p + 2];
    }
  }

  /** An option that runs past the frame makes the result depend on what happens to stand behind it. */
  lemma {:induction false} OutsideMatters(f: seq<byte>, len: nat, p: nat, o: Options) returns (g: seq<byte>)
    requires len + 4 <= |f| && !Within(f, len, p, len)
    ensures |g| == |f| && g[..len] == f[..len] && Within(f, len, p, |f|) && Within(g, len, p, |g|)
    ensures Parsed(g, len, p, o) != Parsed(f, len, p, o)
    decreases len - p
  {
    hide Noted, DataLen;
    FourEnough(f, len, p);
    if f[p] == 0 {
      g := OutsideMatters(f, len, p + 1, o);
      assert g[p] == g[..len][p] == f[p];
    } else {
      var tag, n, q := f[p], f[p + 1], p + 2;
      var k := DataLen(tag, n);
      if q + k <= len {
        g := OutsideMatters(f, len, q + n, Noted(o, f, q, tag, n));
        assert g[p] == g[..len][p] == f[p] && g[p + 1] == g[..len][p + 1] == f[p + 1];
        SameSlice(f, g, len, q, q + k);
        SameNoted(o, f, g, q, tag, n);
      } else {
        var b: byte := if f[q + k - 1] == 0 then 1 else 0;
        LastByteMatters(o, f, q, tag, n, b);
        g := f[q + k - 1 := b];
      }
      FourEnough(g, len, p);
    }
  }

  /** Two buffers read alike. */
  ghost predicate ReadAlike(f: seq<byte>, g: seq<byte>, len: nat, p: nat, o: Options)
    requires len + 4 <= |f| && len + 4 <= |g|
  {
    FourEnough(f, len, p);
    FourEnough(g, len, p);
    Parsed(f, len, p, o) == Parsed(g, len, p, o)
  }

  /** The result is a matter of the frame alone exactly when no option that is looked at runs past the frame. */
  lemma FrameDecides(f: seq<byte>, len: nat, p: nat, o: Options)
    requires len + 4 <= |f|
    ensures Within(f, len, p, len) <==> forall g: seq<byte> :: |g| == |f| && g[..len] == f[..len] ==> ReadAlike(f, g, len, p, o)
  {
    if Within(f, len, p, len) {
      forall g: seq<byte> | |g| == |f| && g[..len] == f[..len]
        ensures ReadAlike(f, g, len, p, o)
      {
        InsideDecides(f, g, len, p, o);
      }
    } else {
      var g := OutsideMatters(f, len, p, o);
      assert !ReadAlike(f, g, len, p, o);
    }
  }

  /** A frame that ends in a message type option without its data: the byte behind it is taken for the type. */
  lemma OverRead()
    ensures var f: seq<byte>, g: seq<byte> := [53, 1, OFFER], [53, 1, ACK];
            && f[..2] == g[..2] && Within(f, 2, 0, 3) && Within(g, 2, 0, 3) && !Within(f, 2, 0, 2)
            && Parsed(f, 2, 0, NO_OPTIONS).msg == OFFER && Parsed(g, 2, 0, NO_OPTIONS).msg == ACK
  {
  }

  // ----- The machine

  const INITIAL := State(Idle, NOWHERE, NOWHERE, 0, 0, NOWHERE, CLASS_C, NOWHERE, NOWHERE, 0)

  predicate Active(s: State) {
    s.phase == Discover || s.phase == Request
  }

  /** The retransmission timer has run out. */
  predicate Due(s: State, now: nat)
    requires now < WORD && s.last < WORD
  {
    Active(s) && (now - s.last) % WORD >= RETRANSMIT_MS
  }

  function Started(s: State, now: nat): (r: (State, seq<Frame>)) {
    (s.(phase := Discover, tries := 1, last := now), [Discovery])
  }

  function Ticked(s: State, now: nat): (r: (State, seq<Frame>))
    requires now < WORD && s.last < WORD
  {
    if !Due(s, now) then (s, [])
    else if s.tries + 1 > MAX_TRIES then
      (s.(phase := Bound, tries := s.tries + 1, last := now, ip := FALLBACK), [Announce(FALLBACK)])
    else
      (s.(tries := s.tries + 1, last := now), [if s.phase == Discover then Discovery else Requesting(s.offered, s.server)])
  }

  const OFFER: byte := 2
  const ACK: byte := 5
  const NAK: byte := 6

  /** The message type of a frame that the machine takes up, 0 for any other. */
  function Message(s: State, f: seq<byte>, len: nat): (m: byte)
    requires Readable(f, len)
  {
    if Active(s) && Reply(f, len) then Parsed(f, len, Payload(f) + 240, NO_OPTIONS).msg else 0
  }

  function Received(s: State, f: seq<byte>, len: nat, now: nat): (r: (State, seq<Frame>))
    requires Readable(f, len)
  {
    var m := Message(s, f, len);
    if m == OFFER && s.phase == Discover then
      var ip, server := Four(f, Payload(f) + 16), Parsed(f, len, Payload(f) + 240, NO_OPTIONS).server;
      (s.(phase := Request, tries := 0, last := now, offered := ip, server := server), [Requesting(ip, server)])
    else if m == ACK && s.phase == Request then
      var o, ip := Parsed(f, len, Payload(f) + 240, NO_OPTIONS), Four(f, Payload(f) + 16);
      (s.(phase := Bound, ip := ip, netmask := o.mask, gateway := o.gateway, dns := o.dns, lease := o.lease), [Announce(ip)])
    else if m == NAK then
      (s.(phase := Discover, tries := 0, last := (now - RETRANSMIT_MS) % WORD), [])
    else (s, [])
  }

  // ----- The module: its globals and its calls

  class Client {
    var ready: bool          // a MAC address is set
    var phase: Phase
    var offered: Address
    var server: Address
    var tries: nat
    var last: nat
    var ip: Address
    var netmask: Address
    var gateway: Address
    var dns: Address
    var lease: nat
    ghost var sent: seq<Frame>

    function View(): State
      reads this
    {
      State(phase, offered, server, tries, last, ip, netmask, gateway, dns, lease)
    }

    /** dhcp_init */
    constructor ()
      ensures View() == INITIAL && ready && sent == []
    {
      ready, phase, tries, last := true, Idle, 0, 0;
      offered, server, ip, gateway, dns := NOWHERE, NOWHERE, NOWHERE, NOWHERE, NOWHERE;
      netmask, lease, sent := CLASS_C, 0, [];
    }

    method Send(ghost frame: Frame)
      modifies this`sent
      ensures sent == old(sent) + [frame]
    {
      sent := sent + [frame];
    }

    method Start(now: nat)
      requires now < WORD
      modifies this
      ensures ready == old(ready)
      ensures !ready ==> View() == old(View()) && sent == old(sent)
      ensures ready ==> View() == Started(old(View()), now).0 && sent == old(sent) + Started(old(View()), now).1
    {
      if !ready {
        return;
      }
      phase := Discover;
      tries := 1;
      Send(Discovery);
      last := now;
    }

    method Tick(now: nat)
      requires now < WORD && last < WORD
      modifies this
      ensures View() == Ticked(old(View()), now).0 && sent == old(sent) + Ticked(old(View()), now).1
      ensures ready == old(ready)
    {
      if phase != Discover && phase != Request {
        return;
      }
      if (now - last) % WORD < RETRANSMIT_MS {
        return;
      }
      last := now;
      tries := tries + 1;
      if tries > MAX_TRIES {
        ip := FALLBACK;
        phase := Bound;
        Send(Announce(ip));
        return;
      }
      Send(if phase == Discover then Discovery else Requesting(offered, server));
    }

    /** The option loop of dhcp_rx; it may look at up to four bytes past the length. */
    static method ParseOptions(f: seq<byte>, len: nat, start: nat) returns (o: Options)
      requires len <= |f| && Within(f, len, start, |f|)
      ensures o == Parsed(f, len, start, NO_OPTIONS)
    {
      hide Noted;
      o := NO_OPTIONS;
      var p := start;
      while p < len && f[p] != 0xFF
        invariant Within(f, len, p, |f|) && Parsed(f, len, start, NO_OPTIONS) == Parsed(f, len, p, o)
        decreases len - p
      {
        var tag := f[p];
        p := p + 1;
        if tag == 0 {
          continue;
        }
        if p >= len {
          break;
        }
        var n := f[p];
        p := p + 1;
        o := Noted(o, f, p, tag, n);
        p := p + n;
      }
    }

    /** An offer: it is saved and asked for. */
    method TakeOffer(offer: Address, from: Address, now: nat)
      modifies this
      ensures View() == old(View()).(phase := Request, tries := 0, last := now, offered := offer, server := from)
      ensures sent == old(sent) + [Requesting(offer, from)] && ready == old(ready)
    {
      offered := offer;
      server := from;
      phase := Request;
      tries := 0;
      Send(Requesting(offered, server));
      last := now;
    }

    /** An acknowledgement: the address is bound and the lease stored. */
    method TakeAck(address: Address, o: Options)
      modifies this
      ensures View() == old(View()).(phase := Bound, ip := address, netmask := o.mask, gateway := o.gateway, dns := o.dns,
                                     lease := o.lease)
      ensures sent == old(sent) + [Announce(address)] && ready == old(ready)
    {
      ip, netmask, gateway, dns := address, o.mask, o.gateway, o.dns;
      lease := o.lease;
      phase := Bound;
      Send(Announce(ip));
    }

    method Rx(f: seq<byte>, len: nat, now: nat)
      requires Readable(f, len) && now < WORD
      modifies this
      ensures View() == Received(old(View()), f, len, now).0 && sent == old(sent) + Received(old(View()), f, len, now).1
      ensures ready == old(ready)
    {
      hide Parsed, Payload, Reply, Four;
      assert Reply(f, len) ==> len >= 300 by { ReplyLength(f, len); }
      if phase == Idle || phase == Bound || !Reply(f, len) {
        return;
      }
      var d := Payload(f);
      var o := ParseOptions(f, len, d + 240);
      if o.msg == OFFER && phase == Discover {
        TakeOffer(Four(f, d + 16), o.server, now);
      } else if o.msg == ACK && phase == Request {
        TakeAck(Four(f, d + 16), o);
      } else if o.msg == NAK {
        phase := Discover;
        tries := 0;
        last := (now - RETRANSMIT_MS) % WORD;
      }
    }
  }

  lemma ReplyLength(f: seq<byte>, len: nat)
    requires len <= |f|
    ensures Reply(f, len) ==> len >= 300
  {
  }

  // ----- Runs

  /** What can happen after dhcp_start, in any order. */
  datatype Event = Tick(now: nat) | Rx(frame: seq<byte>, len: nat, now: nat) {
    ghost predicate Ok() {
      now < WORD && (Rx? ==> Readable(frame, len))
    }
  }

  /** A run so far: the machine, the frames sent, the NAKs taken up, the ticks that found the timer run out. */
  datatype Run = Run(s: State, sent: seq<Frame>, naks: nat, ticks: nat)

  ghost function Begun(now: nat): Run {
    Run(Started(INITIAL, now).0, Started(INITIAL, now).1, 0, 0)
  }

  ghost function Next(r: Run, e: Event): (n: Run)
    requires e.Ok() && r.s.last < WORD
    ensures n.s.last < WORD
  {
    match e
    case Tick(now) =>
      Run(Ticked(r.s, now).0, r.sent + Ticked(r.s, now).1, r.naks, r.ticks + if Due(r.s, now) then 1 else 0)
    case Rx(f, len, now) =>
      Run(Received(r.s, f, len, now).0, r.sent + Received(r.s, f, len, now).1,
          r.naks + (if Message(r.s, f, len) == NAK then 1 else 0), r.ticks)
  }

  /** The DHCP frames among those sent, and the announcements. */
  function Requests(fs: seq<Frame>): (n: nat) {
    if fs == [] then 0 else (if fs[|fs| - 1].Announce? then 0 else 1) + Requests(fs[..|fs| - 1])
  }

  function Announcements(fs: seq<Frame>): (n: nat) {
    if fs == [] then 0 else (if fs[|fs| - 1].Announce? then 1 else 0) + Announcements(fs[..|fs| - 1])
  }

  lemma Counted(fs: seq<Frame>, x: Frame)
    ensures Requests(fs + [x]) == Requests(fs) + if x.Announce? then 0 else 1
    ensures Announcements(fs + [x]) == Announcements(fs) + if x.Announce? then 1 else 0
    ensures fs + [] == fs
  {
    assert (fs + [x])[..|fs + [x]| - 1] == fs;
  }

  /** How many DHCP frames the machine can still send without another NAK. */
  function Credit(s: State): (n: int) {
    match s.phase
    case Idle => 0
    case Discover => MAX_TRIES - s.tries + MAX_TRIES + 1
    case Request => MAX_TRIES - s.tries
    case Bound => 0
  }

  /** How many expired timers the machine can still see without another NAK. */
  function Patience(s: State): (n: int) {
    match s.phase
    case Idle => 0
    case Discover => MAX_TRIES - s.tries + MAX_TRIES + 1
    case Request => MAX_TRIES - s.tries + 1
    case Bound => 0
  }

  ghost predicate Safe(r: Run) {
    && r.s.phase != Idle && r.s.last < WORD
    && (Active(r.s) ==> r.s.tries <= MAX_TRIES && r.s.ip == NOWHERE && r.ticks < Requests(r.sent))
    && Requests(r.sent) + Credit(r.s) <= 11 * (r.naks + 1)
    && r.ticks + Patience(r.s) <= 10 * (r.naks + 1)
    && Announcements(r.sent) == (if r.s.phase == Bound then 1 else 0)
  }

  lemma StartSafe(now: nat)
    requires now < WORD
    ensures Safe(Begun(now))
  {
    Counted([], Discovery);
    assert [] + [Discovery] == [Discovery];
  }

  lemma TickSafe(r: Run, now: nat)
    requires Safe(r) && now < WORD
    ensures Safe(Next(r, Tick(now)))
  {
    var t := Ticked(r.s, now);
    Counted(r.sent, if t.1 == [] then Discovery else t.1[0]);
    assert t.1 == [] || t.1 == [t.1[0]];
  }

  lemma RxSafe(r: Run, f: seq<byte>, len: nat, now: nat)
    requires Safe(r) && now < WORD && Readable(f, len)
    ensures Safe(Next(r, Rx(f, len, now)))
  {
    hide Parsed, Payload, Reply;
    var t := Received(r.s, f, len, now);
    Counted(r.sent, if t.1 == [] then Discovery else t.1[0]);
    assert t.1 == [] || t.1 == [t.1[0]];
  }

  ghost predicate AllOk(es: seq<Event>) {
    forall i :: 0 <= i < |es| ==> es[i].Ok()
  }

  /** The run of a list of events from dhcp_start on. */
  ghost function After(now: nat, es: seq<Event>): (r: Run)
    requires now < WORD && AllOk(es)
    ensures r.s.last < WORD
  {
    if es == [] then Begun(now) else Next(After(now, es[..|es| - 1]), es[|es| - 1])
  }

  lemma {:induction false} RunSafe(now: nat, es: seq<Event>)
    requires now < WORD && AllOk(es)
    ensures Safe(After(now, es))
    decreases |es|
  {
    hide Safe, Next;
    if es == [] {
      StartSafe(now);
    } else {
      var e := es[|es| - 1];
      RunSafe(now, es[..|es| - 1]);
      var r := After(now, es[..|es| - 1]);
      if e.Tick? {
        TickSafe(r, e.now);
      } else {
        RxSafe(r, e.frame, e.len, e.now);
      }
    }
  }

  /** Every run sends at most 11 DHCP frames for each attempt, and has no address before it is bound. */
  lemma BoundedRun(now: nat, es: seq<Event>)
    requires now < WORD && AllOk(es)
    ensures var r := After(now, es);
            && Requests(r.sent) <= 11 * (r.naks + 1)
            && (r.s.phase != Bound ==> r.s.ip == NOWHERE && Announcements(r.sent) == 0)
            && (r.s.phase == Bound ==> Announcements(r.sent) == 1)
  {
    hide After, Requests, Announcements;
    RunSafe(now, es);
  }

  /** A run sees at most ten expired timers for each attempt, and one that sees as many is bound. */
  lemma MustBind(now: nat, es: seq<Event>)
    requires now < WORD && AllOk(es)
    ensures var r := After(now, es);
            r.ticks <= 10 * (r.naks + 1) && (r.ticks == 10 * (r.naks + 1) ==> r.s.phase == Bound)
  {
    hide After, Requests, Announcements;
    RunSafe(now, es);
  }

  // ----- A reply that is cut off in its last option

  lemma {:induction false} SkipsPads(f: seq<byte>, len: nat, p: nat, q: nat, end: nat, o: Options)
    requires p <= q <= len <= |f| && forall i :: p <= i < q ==> f[i] == 0
    ensures Within(f, len, p, end) == Within(f, len, q, end)
    ensures Within(f, len, p, |f|) && Within(f, len, q, |f|) ==> Parsed(f, len, p, o) == Parsed(f, len, q, o)
    decreases q - p
  {
    if p < q {
      SkipsPads(f, len, p + 1, q, |f|, o);
      SkipsPads(f, len, p + 1, q, end, o);
    }
  }

  /** 300 bytes of reply that end in a message type option without its data, and the byte behind them. */
  function CutReply(m: byte): (f: seq<byte>)
    ensures |f| == 301
  {
    var head := seq(42, i => if i == 14 then 0x45 else if i == 23 then 0x11 else if i == 37 then 68 else 0);
    var fixed := [2, 1, 6, 0, 0x50, 0x48, 0x4F, 0x45] + seq(228, _ => 0) + [0x63, 0x82, 0x53, 0x63];
    head + fixed + seq(16, _ => 0) + [53, 1, m]
  }

  lemma CutReplyRead(s: State, m: byte)
    requires Active(s)
    ensures Readable(CutReply(m), 300) && Message(s, CutReply(m), 300) == m
  {
    var f := CutReply(m);
    assert f[14] == 0x45 && Payload(f) == 42 && f[23] == 0x11 && f[36] == 0 && f[37] == 68 && f[42] == 2;
    assert f[46..50] == [0x50, 0x48, 0x4F, 0x45] && f[278..282] == [0x63, 0x82, 0x53, 0x63];
    assert f[298] == 53 && f[299] == 1 && f[300] == m;
    assert Within(f, 300, 298, 301);
    assert Parsed(f, 300, 298, NO_OPTIONS) == Noted(NO_OPTIONS, f, 300, 53, 1);
    SkipsPads(f, 300, 282, 298, 301, NO_OPTIONS);
  }

  /** One frame, two buffers: with one the client asks for the address, with the other it goes on waiting. */
  lemma OneFrameTwoWays(s: State, now: nat)
    requires s.phase == Discover
    ensures var f, g := CutReply(OFFER), CutReply(0);
            && f[..300] == g[..300] && Readable(f, 300) && Readable(g, 300)
            && Received(s, f, 300, now).0.phase == Request && Received(s, g, 300, now) == (s, [])
  {
    hide CutReply, Readable, Message;
    CutReplyRead(s, OFFER);
    CutReplyRead(s, 0);
    SameFrame(OFFER, 0);
  }

  lemma SameFrame(m: byte, m': byte)
    ensures CutReply(m)[..300] == CutReply(m')[..300]
  {
  }

  // ----- Progress: expired timers in a row

  ghost function Ticking(r: Run, nows: seq<nat>): (n: Run)
    requires r.s.last < WORD && forall i :: 0 <= i < |nows| ==> nows[i] < WORD
    ensures n.s.last < WORD
  {
    if nows == [] then r else Next(Ticking(r, nows[..|nows| - 1]), Tick(nows[|nows| - 1]))
  }

  /** Each of the ticks finds the timer run out. */
  ghost predicate EachDue(r: Run, nows: seq<nat>)
    requires r.s.last < WORD && forall i :: 0 <= i < |nows| ==> nows[i] < WORD
  {
    nows == [] ||
    (EachDue(r, nows[..|nows| - 1]) && Due(Ticking(r, nows[..|nows| - 1]).s, nows[|nows| - 1]))
  }

  /** From any active state, the expired timers in a row are at most six, and the last of them binds. */
  lemma {:induction false} SixBind(r: Run, nows: seq<nat>)
    requires Safe(r) && Active(r.s) && (forall i :: 0 <= i < |nows| ==> nows[i] < WORD) && EachDue(r, nows)
    ensures |nows| <= MAX_TRIES + 1 - r.s.tries <= 6
    ensures Ticking(r, nows).s.tries == r.s.tries + |nows|
    ensures Ticking(r, nows).s.phase == if |nows| == MAX_TRIES + 1 - r.s.tries then Bound else r.s.phase
    decreases |nows|
  {
    hide Safe, Requests, Announcements;
    assert r.s.tries <= MAX_TRIES by { TriesBound(r); }
    if nows != [] {
      SixBind(r, nows[..|nows| - 1]);
    }
  }

  lemma TriesBound(r: Run)
    requires Safe(r) && Active(r.s)
    ensures r.s.tries <= MAX_TRIES
  {
  }

  // ----- The bound is reached

  /** A reply frame of 300 bytes whose one option is its message type. */
  function ReplyFrame(m: byte): (f: seq<byte>)
    ensures |f| == 300
  {
    var head := seq(42, i => if i == 14 then 0x45 else if i == 23 then 0x11 else if i == 37 then 68 else 0);
    var fixed := [2, 1, 6, 0, 0x50, 0x48, 0x4F, 0x45] + seq(228, _ => 0) + [0x63, 0x82, 0x53, 0x63];
    head + fixed + [53, 1, m, 0xFF] + seq(14, _ => 0)
  }

  lemma ReplyFrameRead(s: State, m: byte)
    requires Active(s)
    ensures Readable(ReplyFrame(m), 300) && Message(s, ReplyFrame(m), 300) == m
  {
    var f := ReplyFrame(m);
    assert f[14] == 0x45 && Payload(f) == 42 && f[23] == 0x11 && f[36] == 0 && f[37] == 68 && f[42] == 2;
    assert f[46..50] == [0x50, 0x48, 0x4F, 0x45] && f[278..282] == [0x63, 0x82, 0x53, 0x63];
    assert f[282] == 53 && f[283] == 1 && f[284] == m && f[285] == 0xFF;
    assert Within(f, 300, 285, 300) && Within(f, 300, 282, 300);
    assert Parsed(f, 300, 285, Noted(NO_OPTIONS, f, 284, 53, 1)) == Noted(NO_OPTIONS, f, 284, 53, 1);
  }

  lemma AfterOne(now: nat, es: seq<Event>, e: Event)
    requires now < WORD && AllOk(es) && e.Ok()
    ensures AllOk(es + [e]) && After(now, es + [e]) == Next(After(now, es), e)
  {
    assert (es + [e])[..|es + [e]| - 1] == es;
  }

  /** A run in the state the others differ from in nothing that matters here. */
  ghost predicate Stands(r: Run, phase: Phase, tries: nat, naks: nat, ticks: nat) {
    r.s.phase == phase && r.s.tries == tries && r.naks == naks && r.ticks == ticks && r.s.last < WORD
  }

  /** Waiting k times for the timer. */
  lemma {:induction false} Wait(es: seq<Event>, k: nat, phase: Phase, tries: nat, naks: nat, ticks: nat) returns (es': seq<Event>)
    requires AllOk(es) && Stands(After(0, es), phase, tries, naks, ticks)
    requires (phase == Discover || phase == Request) && tries + k <= MAX_TRIES
    ensures AllOk(es') && Stands(After(0, es'), phase, tries + k, naks, ticks + k)
    decreases k
  {
    hide After;
    es' := es;
    if k > 0 {
      var e := Tick((After(0, es).s.last + RETRANSMIT_MS) % WORD);
      AfterOne(0, es, e);
      es' := Wait(es + [e], k - 1, phase, tries + 1, naks, ticks + 1);
    }
  }

  lemma Hear(es: seq<Event>, m: byte, phase: Phase, tries: nat, naks: nat, ticks: nat) returns (es': seq<Event>)
    requires AllOk(es) && Stands(After(0, es), phase, tries, naks, ticks)
    requires (phase == Discover && m == OFFER) || (phase == Request && m == NAK)
    ensures AllOk(es')
    ensures m == OFFER ==> Stands(After(0, es'), Request, 0, naks, ticks)
    ensures m == NAK ==> Stands(After(0, es'), Discover, 0, naks + 1, ticks)
  {
    hide After, ReplyFrame, Parsed, Payload, Within, Reply;
    ReplyFrameRead(After(0, es).s, m);
    var e := Rx(ReplyFrame(m), 300, 0);
    AfterOne(0, es, e);
    es' := es + [e];
  }

  /** n refusals, each as late as can be: the machine is about to wait again. */
  lemma {:induction false} LateRefusals(n: nat) returns (es: seq<Event>)
    ensures AllOk(es) && Stands(After(0, es), Discover, if n == 0 then 1 else 0, n, if n == 0 then 0 else 10 * n - 1)
  {
    if n == 0 {
      es := [];
    } else {
      es := LateRefusals(n - 1);
      var t, k := if n == 1 then 1 else 0, if n == 1 then 0 else 10 * n - 11;
      es := Wait(es, MAX_TRIES - t, Discover, t, n - 1, k);
      es := Hear(es, OFFER, Discover, MAX_TRIES, n - 1, k + MAX_TRIES - t);
      es := Wait(es, MAX_TRIES, Request, 0, n - 1, k + MAX_TRIES - t);
      es := Hear(es, NAK, Request, MAX_TRIES, n - 1, k + 2 * MAX_TRIES - t);
    }
  }

  /** For every number of refusals some run sees ten expired timers for each attempt. */
  lemma BoundReached(n: nat) returns (es: seq<Event>)
    ensures AllOk(es) && After(0, es).naks == n && After(0, es).ticks == 10 * (n + 1) && After(0, es).s.phase == Bound
  {
    hide After;
    es := LateRefusals(n);
    var t, k := if n == 0 then 1 else 0, if n == 0 then 0 else 10 * n - 1;
    es := Wait(es, MAX_TRIES - t, Discover, t, n, k);
    es := Hear(es, OFFER, Discover, MAX_TRIES, n, k + MAX_TRIES - t);
    es := Wait(es, MAX_TRIES, Request, 0, n, k + MAX_TRIES - t);
    var e := Tick((After(0, es).s.last + RETRANSMIT_MS) % WORD);
    AfterOne(0, es, e);
    es := es + [e];
  }

  /** The bound state is entered only by an ACK to a request, or by the last retry. */
  lemma HowBound(r: Run, e: Event)
    requires Safe(r) && e.Ok() && r.s.phase != Bound && Next(r, e).s.phase == Bound
    ensures match e
            case Tick(now) => Due(r.s, now) && r.s.tries == MAX_TRIES && Next(r, e).s.ip == FALLBACK
            case Rx(f, len, now) =>
              && r.s.phase == Request && Message(r.s, f, len) == ACK
              && Next(r, e).s.ip == Four(f, Payload(f) + 16)
  {
    hide Parsed, Payload;
  }

  /** Once bound, nothing changes and nothing is sent. */
  lemma BoundForGood(r: Run, e: Event)
    requires e.Ok() && r.s.last < WORD && r.s.phase == Bound
    ensures Next(r, e) == r
  {
    assert r.sent + [] == r.sent;
  }
}
