/** Segments as bytes: what send_segment builds and what tcp_rx makes of a frame (section 3.1 of RFC 793). */
module TcpWire {
  import opened Checksum
  import opened NetBytes
  import opened Regions
  import opened Tcp
  import opened Words

  const WINDOW: nat := 8192

  /** The flag byte: FIN 1, SYN 2, RST 4, ACK 16; data carries PSH 8. */
  function Flags(s: Segment): (b: byte) {
    (if s.fin then 1 else 0) + (if s.syn then 2 else 0) + (if s.rst then 4 else 0)
    + (if s.data != [] then 8 else 0) + (if s.ack then 16 else 0)
  }

  /** The header that send_segment writes in front of its checksum. */
  function Front(s: Segment, local: nat, remote: nat): (h: seq<byte>)
    requires s.seqno < WORD && s.ackno < WORD && local <= ONES && remote <= ONES
    ensures |h| == 16
  {
    Be16(local) + Be16(remote) + Be32(s.seqno) + Be32(s.ackno) + [0x50, Flags(s)] + Be16(WINDOW)
  }

  /** send_segment: the whole segment, checksum included. */
  method BuildSegment(s: Segment, local: nat, remote: nat, src: Address, dst: Address) returns (seg: seq<byte>)
    requires s.seqno < WORD && s.ackno < WORD && local <= ONES && remote <= ONES && |s.data| <= MSS
    ensures |seg| == 20 + |s.data| && seg[..16] == Front(s, local, remote) && seg[18..] == BLANK + s.data
    ensures Value(PseudoHeader(src, dst, |seg|) + seg) == 0
  {
    hide Value, PseudoHeader, Be16, Be32;
    var head, rest := Front(s, local, remote), BLANK + s.data;
    var blank := head + BLANK + rest;
    var ck := TcpChecksum(src, dst, blank);
    SegmentVerifies(src, dst, head, rest);
    seg := head + Be16(ck) + rest;
  }

  /** What tcp_rx reads out of a frame: the port it is for and the segment. */
  function ParseFrame(f: seq<byte>): (r: Option<(nat, Segment)>)
  {
    if |f| < 54 then None
    else
      var t := 14 + f[14] % 16 * 4;
      if |f| < t + 20 then None
      else
        var d := t + f[t + 12] / 16 * 4;
        var flags: int := f[t + 13];
        var data := if d <= |f| then f[d..] else [];
        Some((U16(f, t + 2), Segment(U32be(f, t + 4), U32be(f, t + 8), flags / 2 % 2 == 1, flags / 16 % 2 == 1,
                                     flags % 2 == 1, flags / 4 % 2 == 1, data)))
  }

  lemma FlagsRead(s: Segment)
    ensures var b: int := Flags(s);
            && (b % 2 == 1 <==> s.fin) && (b / 2 % 2 == 1 <==> s.syn) && (b / 4 % 2 == 1 <==> s.rst) && (b / 16 % 2 == 1 <==> s.ack)
  {
  }

  lemma FrontAt(f: seq<byte>, t: nat, s: Segment, local: nat, remote: nat)
    requires s.seqno < WORD && s.ackno < WORD && local <= ONES && remote <= ONES
    requires At(f, t, Front(s, local, remote))
    ensures t + 16 <= |f| && U16(f, t + 2) == remote && U32be(f, t + 4) == s.seqno && U32be(f, t + 8) == s.ackno
    ensures f[t + 12] == 0x50 && f[t + 13] == Flags(s)
  {
    hide At, Be16, Be32, U16, U32be, Flags;
    var a, b, c, d, e := Be16(local), Be16(remote), Be32(s.seqno), Be32(s.ackno), [0x50, Flags(s)];
    AtTaken(f, t, Front(s, local, remote));
    AtJoin(f, t, a + b + c + d + e, Be16(WINDOW));
    AtJoin(f, t, a + b + c + d, e);
    AtJoin(f, t, a + b + c, d);
    AtJoin(f, t, a + b, c);
    AtJoin(f, t, a, b);
    U16At(f, t + 2, remote);
    U32At(f, t + 4, s.seqno);
    U32At(f, t + 8, s.ackno);
    AtTaken(f, t + 12, e);
    assert f[t + 12..t + 14][0] == 0x50 && f[t + 12..t + 14][1] == Flags(s);
  }

  /** A frame around a built segment: 34 bytes of Ethernet and IPv4 header without options. */
  ghost predicate Framed(f: seq<byte>, s: Segment, local: nat, remote: nat, pad: seq<byte>)
    requires s.seqno < WORD && s.ackno < WORD && local <= ONES && remote <= ONES
  {
    |f| >= 54 && f[14] == 0x45 && At(f, 34, Front(s, local, remote)) && f[54..] == s.data + pad
  }

  /** tcp_rx reads back what send_segment built; padding behind the segment is read as data. */
  lemma ReadsBack(f: seq<byte>, s: Segment, local: nat, remote: nat, pad: seq<byte>)
    requires s.seqno < WORD && s.ackno < WORD && local <= ONES && remote <= ONES
    requires Framed(f, s, local, remote, pad)
    ensures ParseFrame(f) == Some((remote, s.(data := s.data + pad)))
  {
    hide At, Be16, Be32, U16, U32be, Flags, Front;
    FrontAt(f, 34, s, local, remote);
    FlagsRead(s);
  }
}
