/**
 * The Internet checksum of net/ipv4.c, net/dhcp.c and net/tcp.c
 * (section 1 of RFC 1071, section 3.1 of RFC 791, section 3.1 of RFC 793).
 */
module Checksum {
  import opened Arithmetic
  import opened NetBytes
  import opened Words

  const ONES: nat := 0xFFFF
  const BLANK: seq<byte> := [0, 0]   // a checksum field not yet filled in

  /** The sum of the big-endian 16-bit words; an odd last byte is padded with zero. */
  function Sum(s: seq<byte>): (r: nat) {
    if s == [] then 0
    else if |s| == 1 then Pair(s[0], 0)
    else Pair(s[0], s[1]) + Sum(s[2..])
  }

  /** End-around carries until the sum fits 16 bits. */
  function Fold(n: nat): (r: nat)
    ensures r <= ONES
    ensures r == 0 <==> n == 0
    ensures r % ONES == n % ONES
  {
    if n <= ONES then n else
      var m := n % 0x1_0000 + n / 0x1_0000;
      assert n == m + n / 0x1_0000 * ONES;
      assert m % ONES == n % ONES by { ModDrop(m, n / 0x1_0000, ONES); }
      Fold(m)
  }

  /** The one's complement of the folded sum, on a 32-bit accumulator. */
  function Value(s: seq<byte>): (r: nat)
    ensures r <= ONES
  {
    ONES - Fold(Sum(s) % WORD)
  }

  // ----- The three loops

  method FoldLoop(start: nat) returns (ck: nat)
    ensures ck == Fold(start)
  {
    ck := start;
    while ck / 0x1_0000 != 0
      invariant Fold(ck) == Fold(start)
      decreases ck
    {
      ck := ck % 0x1_0000 + ck / 0x1_0000;
    }
  }

  lemma {:induction false} SumSnoc(s: seq<byte>, i: nat)
    requires i % 2 == 0 && i < |s|
    ensures Sum(s[..i]) + Pair(s[i], if i + 1 < |s| then s[i + 1] else 0) == Sum(s[..if i + 1 < |s| then i + 2 else i + 1])
    decreases i
  {
    var e := if i + 1 < |s| then i + 2 else i + 1;
    if i == 0 {
      assert s[..0] == [] && (e == 2 ==> s[..2][2..] == []);
    } else {
      var t := s[2..];
      SumSnoc(t, i - 2);
      assert s[..i][2..] == t[..i - 2] && s[..e][2..] == t[..e - 2];
    }
  }

  function Add32(a: nat, b: nat): (r: nat)
    ensures a + b < WORD ==> r == a + b
    ensures r < WORD
  {
    (a + b) % WORD
  }

  lemma AddMod(a: nat, b: nat, c: nat)
    requires a == b % WORD
    ensures Add32(a, c) == (b + c) % WORD
  {
    var k := b / WORD;
    assert b + c == (a + c) + k * WORD;
    ModDrop(a + c, k, WORD);
  }

  /** The word loop of ip_checksum and tcp_cksum: the odd byte is added behind the loop. */
  method AddWords(start: nat, ghost before: nat, data: seq<byte>) returns (ck: nat)
    requires start == before % WORD
    ensures ck == (before + Sum(data)) % WORD
  {
    hide Sum, Add32, Pair;
    ck := start;
    var i := 0;
    assert Sum(data[..0]) == 0 by { NoSum(data[..0]); }
    while i + 1 < |data|
      invariant i % 2 == 0 && i <= |data|
      invariant ck == (before + Sum(data[..i])) % WORD
    {
      SumSnoc(data, i);
      AddMod(ck, before + Sum(data[..i]), Pair(data[i], data[i + 1]));
      ck := Add32(ck, Pair(data[i], data[i + 1]));
      i := i + 2;
    }
    if |data| % 2 == 1 {
      SumSnoc(data, i);
      AddMod(ck, before + Sum(data[..i]), Pair(data[|data| - 1], 0));
      ck := Add32(ck, Pair(data[|data| - 1], 0));
    }
    assert data[..|data|] == data;
  }

  lemma NoSum(s: seq<byte>)
    requires s == []
    ensures Sum(s) == 0
  {
  }

  /** ip_checksum of net/ipv4.c. */
  method IpChecksum(data: seq<byte>) returns (r: nat)
    ensures r == Value(data)
  {
    hide Sum, Fold;
    var ck := AddWords(0, 0, data);
    var f := FoldLoop(ck);
    r := ONES - f;
  }

  /** _ip_cksum of net/dhcp.c: the odd byte is padded inside the loop. */
  method DhcpChecksum(data: seq<byte>) returns (r: nat)
    ensures r == Value(data)
  {
    hide Sum, Add32, Pair, Fold;
    var s, i := 0, 0;
    assert Sum(data[..0]) == 0 by { NoSum(data[..0]); }
    while i < |data|
      invariant 0 <= i <= |data| + 1 && i % 2 == 0
      invariant s == Sum(data[..if i <= |data| then i else |data|]) % WORD
    {
      SumSnoc(data, i);
      var w := Pair(data[i], if i + 1 < |data| then data[i + 1] else 0);
      AddMod(s, Sum(data[..i]), w);
      s := Add32(s, w);
      i := i + 2;
    }
    assert data[..|data|] == data;
    var f := FoldLoop(s);
    r := ONES - f;
  }

  // ----- Inserting the checksum

  lemma {:induction false} SumAppend(a: seq<byte>, b: seq<byte>)
    requires |a| % 2 == 0
    ensures Sum(a + b) == Sum(a) + Sum(b)
  {
    if a == [] {
      assert a + b == b;
    } else {
      assert (a + b)[2..] == a[2..] + b;
      SumAppend(a[2..], b);
    }
  }

  lemma SumBe16(v: nat)
    requires v <= ONES
    ensures Sum(Be16(v)) == v
  {
    assert Be16(v)[2..] == [];
  }

  /** A sum folds to all ones exactly when it is a positive multiple of 0xFFFF. */
  lemma FoldOnes(n: nat)
    ensures Fold(n) == ONES <==> n > 0 && n % ONES == 0
  {
  }

  lemma SumThree(a: seq<byte>, w: seq<byte>, b: seq<byte>)
    requires |a| % 2 == 0 && |w| == 2
    ensures Sum(a + w + b) == Sum(a) + Sum(w) + Sum(b)
  {
    hide Sum;
    SumAppend(a, w);
    SumAppend(a + w, b);
  }

  lemma ValueOf(s: seq<byte>, n: nat)
    requires Sum(s) == n < WORD
    ensures Value(s) == ONES - Fold(n)
  {
    hide Sum, Fold;
    assert n % WORD == n;
  }

  /** A message with a zero checksum field at an even place: once the checksum is filled in, it verifies. */
  lemma InsertVerifies(a: seq<byte>, b: seq<byte>)
    requires |a| % 2 == 0 && Sum(a) + Sum(b) + ONES < WORD
    ensures Value(a + Be16(Value(a + BLANK + b)) + b) == 0
  {
    hide Sum, Fold, Value, Be16;
    var n := Sum(a) + Sum(b);
    SumThree(a, BLANK, b);
    assert Sum(BLANK) == 0 by { SumZero(); }
    ValueOf(a + BLANK + b, n);
    var v := Value(a + BLANK + b);
    var m := n + v;
    SumThree(a, Be16(v), b);
    SumBe16(v);
    ValueOf(a + Be16(v) + b, m);
    Complement(n, v, m);
  }

  lemma Complement(n: nat, v: nat, m: nat)
    requires v == ONES - Fold(n) && m == n + v
    ensures Fold(m) == ONES
  {
    hide Fold;
    FoldMultiple(n);
    assert m == n - Fold(n) + ONES;
    FoldOnes(m);
  }

  lemma SumZero()
    ensures Sum(BLANK) == 0
  {
    assert BLANK[2..] == [];
  }

  lemma FoldMultiple(n: nat)
    ensures (n - Fold(n) + ONES) % ONES == 0 && n - Fold(n) >= 0
  {
    FoldBelow(n);
    assert n % ONES == Fold(n) % ONES;
    DifferenceMod(n, Fold(n));
  }

  lemma FoldBelow(n: nat)
    ensures Fold(n) <= n
  {
  }

  lemma DifferenceMod(n: nat, m: nat)
    requires m <= n && n % ONES == m % ONES
    ensures (n - m + ONES) % ONES == 0
  {
    var a, b := n / ONES, m / ONES;
    assert n - m + ONES == (a - b + 1) * ONES;
    ModDrop(0, a - b + 1, ONES);
  }

  /** Each word adds at most 0xFFFF: no message of up to 128 KB overflows the accumulator. */
  lemma {:induction false} SumBound(s: seq<byte>)
    ensures Sum(s) <= ONES * ((|s| + 1) / 2)
    decreases |s|
  {
    if |s| >= 2 {
      SumBound(s[2..]);
      assert (|s| + 1) / 2 == (|s[2..]| + 1) / 2 + 1;
    }
  }

  // ----- TCP: the pseudo-header and the segment

  function PseudoHeader(src: Address, dst: Address, len: nat): (h: seq<byte>)
    requires len <= ONES
    ensures |h| == 12
  {
    src + dst + [0, 6] + Be16(len)
  }

  lemma SumPseudo(src: Address, dst: Address, len: nat)
    requires len <= ONES
    ensures Sum(PseudoHeader(src, dst, len))
         == Pair(src[0], src[1]) + Pair(src[2], src[3]) + Pair(dst[0], dst[1]) + Pair(dst[2], dst[3]) + 6 + len
  {
    hide Be16;
    SumBe16(len);
    SumAppend(src + dst + [0, 6], Be16(len));
    SumAppend(src + dst, [0, 6]);
    SumAppend(src, dst);
    assert src[2..][2..] == [] && dst[2..][2..] == [] && [0, 6][2..] == [];
  }

  /** tcp_cksum of net/tcp.c. */
  method TcpChecksum(src: Address, dst: Address, seg: seq<byte>) returns (r: nat)
    requires |seg| <= ONES
    ensures r == Value(PseudoHeader(src, dst, |seg|) + seg)
  {
    hide Sum, Fold, PseudoHeader, Add32, Pair;
    var ck := 0;
    ck := Add32(ck, Pair(src[0], src[1]));
    ck := Add32(ck, Pair(src[2], src[3]));
    ck := Add32(ck, Pair(dst[0], dst[1]));
    ck := Add32(ck, Pair(dst[2], dst[3]));
    ck := Add32(ck, 6);
    ck := Add32(ck, |seg|);
    ghost var head := PseudoHeader(src, dst, |seg|);
    SumPseudo(src, dst, |seg|);
    assert ck == Sum(head) % WORD by { assert ck == Sum(head); assert ck % WORD == ck; }
    ck := AddWords(ck, Sum(head), seg);
    SumAppend(head, seg);
    var f := FoldLoop(ck);
    r := ONES - f;
  }

  // ----- IPv4 output

  /** The 20 bytes of the header that ipv4_output builds, around its checksum. */
  function IpHeader(src: Address, dst: Address, proto: byte, total: nat, ck: seq<byte>): (h: seq<byte>)
    requires total <= ONES && |ck| == 2
    ensures |h| == 20
  {
    [0x45, 0] + Be16(total) + [0, 0, 0x40, 0, 64, proto] + ck + src + dst
  }

  /** ipv4_output: the frame, or nothing when it exceeds 1514 bytes. */
  method Ipv4Output(mac: seq<byte>, ourMac: seq<byte>, src: Address, dst: Address, proto: byte, payload: seq<byte>)
    returns (sent: bool, frame: seq<byte>)
    requires |mac| == 6 && |ourMac| == 6
    ensures sent <==> |payload| <= 1480
    ensures !sent ==> frame == []
    ensures sent ==> |frame| == 34 + |payload| && frame[..6] == mac && frame[6..12] == ourMac && frame[34..] == payload
    ensures sent ==> Value(frame[14..34]) == 0 && frame[26..30] == src && frame[30..34] == dst && frame[23] == proto
    ensures sent ==> Pair(frame[16], frame[17]) == 20 + |payload|
  {
    hide Value, Be16;
    var total := 20 + |payload|;
    if 14 + total > 1514 {
      return false, [];
    }
    var blank := IpHeader(src, dst, proto, total, BLANK);
    var ck := IpChecksum(blank);
    var header := IpHeader(src, dst, proto, total, Be16(ck));
    HeaderVerifies(src, dst, proto, total);
    frame := mac + ourMac + [0x08, 0x00] + header + payload;
    assert frame[14..34] == header;
    assert frame[16] == header[2] == Be16(total)[0] && frame[17] == header[3] == Be16(total)[1];
    PairOfBe16(total);
    sent := true;
  }

  lemma PairOfBe16(v: nat)
    requires v <= ONES
    ensures Pair(Be16(v)[0], Be16(v)[1]) == v
  {
  }

  lemma HeaderVerifies(src: Address, dst: Address, proto: byte, total: nat)
    requires total <= ONES
    ensures Value(IpHeader(src, dst, proto, total, Be16(Value(IpHeader(src, dst, proto, total, BLANK))))) == 0
  {
    hide Sum, Value, Be16;
    var a, b := [0x45, 0] + Be16(total) + [0, 0, 0x40, 0, 64, proto], src + dst;
    SumBound(a);
    SumBound(b);
    InsertVerifies(a, b);
    assert forall w: seq<byte> :: |w| == 2 ==> IpHeader(src, dst, proto, total, w) == a + w + b;
  }

  /** The segment that send_segment hands over verifies together with its pseudo-header. */
  lemma SegmentVerifies(src: Address, dst: Address, head: seq<byte>, rest: seq<byte>)
    requires |head| == 16 && |head| + 2 + |rest| <= ONES
    ensures var n := |head| + 2 + |rest|;
            var ck := Value(PseudoHeader(src, dst, n) + (head + BLANK + rest));
            Value(PseudoHeader(src, dst, n) + (head + Be16(ck) + rest)) == 0
  {
    hide Sum, Value, Be16, PseudoHeader;
    var p := PseudoHeader(src, dst, |head| + 2 + |rest|);
    SumBound(p + head);
    SumBound(rest);
    InsertVerifies(p + head, rest);
    assert forall w: seq<byte> :: p + (head + w + rest) == p + head + w + rest;
  }
}
