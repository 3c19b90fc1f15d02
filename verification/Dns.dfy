/** The DNS query builder and response parser of net/resolver_module.c (section 4.1 of RFC 1035). */
module Dns {
  import opened NetBytes
  import opened Regions
  import opened Words

  type Label = seq<byte>

  const DOT: byte := 0x2E

  // ----- Names as the builder cuts them

  /** How many characters stand before the first dot. */
  function LabelLen(s: seq<byte>): (n: nat)
    ensures n <= |s| && (n < |s| ==> s[n] == DOT)
    ensures forall i :: 0 <= i < n ==> s[i] != DOT
  {
    if s == [] || s[0] == DOT then 0 else 1 + LabelLen(s[1..])
  }

  /** What is left of a name behind its first label and one dot. */
  function Rest(s: seq<byte>): (r: seq<byte>)
    requires s != []
    ensures LabelLen(s) > 0 ==> |r| < |s|
  {
    if LabelLen(s) < |s| then s[LabelLen(s) + 1..] else []
  }

  predicate GoodLabel(l: Label) {
    1 <= |l| <= 63
  }

  /** The labels of a dotted name; none when one is empty or longer than 63. */
  function Labels(s: seq<byte>): (r: Option<seq<Label>>)
    ensures r.Some? ==> forall i :: 0 <= i < |r.value| ==> GoodLabel(r.value[i])
    decreases |s|
  {
    if s == [] then Some([])
    else if !GoodLabel(s[..LabelLen(s)]) then None
    else match Labels(Rest(s))
      case None => None
      case Some(ls) => Some([s[..LabelLen(s)]] + ls)
  }

  /** A label behind its length. */
  function Written(l: Label): (w: seq<byte>)
    requires GoodLabel(l)
    ensures |w| == 1 + |l| && w[0] == |l| && w[1..] == l
  {
    var n: byte := |l|;
    [n] + l
  }

  /** Labels on the wire, each behind its length, without an end. */
  function Wire(ls: seq<Label>): (w: seq<byte>)
    requires forall i :: 0 <= i < |ls| ==> GoodLabel(ls[i])
  {
    if ls == [] then [] else Written(ls[0]) + Wire(ls[1..])
  }

  /** The question section: the name, its end, type A and class IN. */
  function Question(ls: seq<Label>): (q: seq<byte>)
    requires forall i :: 0 <= i < |ls| ==> GoodLabel(ls[i])
  {
    Wire(ls) + [0] + [0, 1, 0, 1]
  }

  function QueryHeader(txid: nat): (h: seq<byte>)
    requires txid < 0x1_0000
    ensures |h| == 12
  {
    Be16(txid) + [0x01, 0x00, 0x00, 0x01, 0, 0, 0, 0, 0, 0]
  }

  lemma {:induction false} WireSnoc(ls: seq<Label>, l: Label)
    requires forall i :: 0 <= i < |ls| ==> GoodLabel(ls[i])
    requires GoodLabel(l)
    ensures Wire(ls + [l]) == Wire(ls) + Written(l)
  {
    if ls == [] {
      assert ls + [l] == [l] && [l][1..] == [];
    } else {
      assert (ls + [l])[1..] == ls[1..] + [l];
      WireSnoc(ls[1..], l);
    }
  }

  // ----- The builder

  /** Overwrites bytes of the buffer. */
  method Store(buf: array<byte>, p: nat, d: seq<byte>)
    requires p + |d| <= buf.Length
    modifies buf
    ensures buf[..] == Patch(old(buf[..]), p, d)
  {
    forall i | 0 <= i < |d| {
      buf[p + i] := d[i];
    }
  }

  /** Accepts exactly the names whose labels are good and whose query fits. */
  ghost predicate Accepts(name: seq<byte>, room: nat) {
    room >= 18 && Labels(name).Some? && 12 + |Question(Labels(name).value)| <= room
  }

  /** The labels found so far and those still to come. */
  function Joined(done: seq<Label>, more: Option<seq<Label>>): Option<seq<Label>> {
    match more case None => None case Some(ls) => Some(done + ls)
  }

  method BuildQuery(name: seq<byte>, buf: array<byte>, txid: nat) returns (n: nat)
    requires txid < 0x1_0000
    modifies buf
    ensures n > 0 <==> Accepts(name, buf.Length)
    ensures n > 0 ==> n <= buf.Length && buf[..n] == QueryHeader(txid) + Question(Labels(name).value)
  {
    hide LabelLen, QueryHeader, Labels, Rest, Wire, Joined;
    if buf.Length < 18 {
      return 0;
    }
    Store(buf, 0, QueryHeader(txid));
    var pos, p := 12, 0;
    ghost var done: seq<Label> := [];
    assert name[0..] == name;
    JoinNothing(Labels(name));
    assert Wire([]) == [] by { NoWire(); }
    while p < |name|
      invariant 0 <= p <= |name|
      invariant forall i :: 0 <= i < |done| ==> GoodLabel(done[i])
      invariant pos == 12 + |Wire(done)| && pos + 5 <= buf.Length
      invariant buf[..pos] == QueryHeader(txid) + Wire(done)
      invariant Labels(name) == Joined(done, Labels(name[p..]))
    {
      ghost var rest := name[p..];
      var start := p;
      p := FindDot(name, p);
      var len := p - start;
      ghost var l := name[start..p];
      assert l == rest[..LabelLen(rest)];
      FirstLabel(done, rest, l);
      if len == 0 || len > 63 {
        return 0;
      }
      if pos + 1 + len + 5 > buf.Length {
        TooLong(name, done, l, rest);
        return 0;
      }
      pos := StoreLabel(buf, pos, name[start..p]);
      WireSnoc(done, l);
      done := done + [l];
      if p < |name| {
        p := p + 1;
      }
      assert name[p..] == Rest(rest) by { RestOf(name, start); }
    }
    assert name[p..] == [];
    AllJoined(name, done);
    n := StoreEnd(buf, pos, done, txid);
  }

  /** Nothing more to come: the labels found are the labels of the name. */
  lemma AllJoined(name: seq<byte>, done: seq<Label>)
    requires Labels(name) == Joined(done, Labels([]))
    ensures Labels(name) == Some(done)
  {
    assert Labels([]) == Some([]) by { NoLabels(); }
    assert done + [] == done;
  }

  /** The end of the name, the type and the class. */
  method StoreEnd(buf: array<byte>, pos: nat, ghost done: seq<Label>, ghost txid: nat) returns (n: nat)
    requires txid < 0x1_0000 && forall i :: 0 <= i < |done| ==> GoodLabel(done[i])
    requires pos + 5 <= buf.Length && buf[..pos] == QueryHeader(txid) + Wire(done)
    modifies buf
    ensures n == pos + 5 && buf[..n] == QueryHeader(txid) + Question(done)
  {
    hide QueryHeader, Wire;
    ghost var g := buf[..];
    Store(buf, pos, [0, 0, 1, 0, 1]);
    n := pos + 5;
    assert buf[..n] == g[..pos] + [0, 0, 1, 0, 1];
  }

  method StoreLabel(buf: array<byte>, pos: nat, l: Label) returns (next: nat)
    requires GoodLabel(l) && pos + 1 + |l| <= buf.Length
    modifies buf
    ensures next == pos + 1 + |l| && buf[..next] == old(buf[..pos]) + Written(l)
  {
    var n: byte := |l|;
    buf[pos] := n;
    Store(buf, pos + 1, l);
    next := pos + 1 + |l|;
  }

  lemma JoinNothing(r: Option<seq<Label>>)
    ensures Joined([], r) == r
  {
    if r.Some? {
      assert [] + r.value == r.value;
    }
  }

  lemma NoWire()
    ensures Wire([]) == []
  {
  }

  lemma NoLabels()
    ensures Labels([]) == Some([])
  {
  }

  lemma RestOf(name: seq<byte>, start: nat)
    requires start < |name|
    ensures var p := start + LabelLen(name[start..]);
            p <= |name| && Rest(name[start..]) == name[if p < |name| then p + 1 else p..]
  {
  }

  /** One step of cutting a name. */
  lemma FirstLabel(done: seq<Label>, rest: seq<byte>, l: Label)
    requires rest != [] && l == rest[..LabelLen(rest)]
    ensures !GoodLabel(l) ==> Joined(done, Labels(rest)) == None
    ensures GoodLabel(l) ==> Joined(done, Labels(rest)) == Joined(done + [l], Labels(Rest(rest)))
  {
    if GoodLabel(l) && Labels(Rest(rest)).Some? {
      var ls := Labels(Rest(rest)).value;
      assert done + ([l] + ls) == done + [l] + ls;
    }
  }

  /** The inner loop: p moves to the next dot or the end. */
  method FindDot(name: seq<byte>, start: nat) returns (p: nat)
    requires start <= |name|
    ensures p == start + LabelLen(name[start..])
  {
    p := start;
    while p < |name| && name[p] != DOT
      invariant start <= p <= |name|
      invariant LabelLen(name[start..]) == p - start + LabelLen(name[p..])
    {
      assert name[p..][1..] == name[p + 1..];
      p := p + 1;
    }
  }

  /** A label that leaves no room for the five closing bytes rules the whole name out. */
  lemma TooLong(name: seq<byte>, done: seq<Label>, l: Label, rest: seq<byte>)
    requires rest != [] && GoodLabel(l) && l == rest[..LabelLen(rest)]
    requires forall i :: 0 <= i < |done| ==> GoodLabel(done[i])
    requires Labels(name) == Joined(done, Labels(rest))
    ensures Labels(name).Some? ==> |Question(Labels(name).value)| >= |Wire(done)| + 1 + |l| + 5
  {
    if Labels(name).Some? {
      var ls := Labels(rest).value;
      assert ls[0] == l;
      WireAppend(done, ls);
    }
  }

  lemma {:induction false} WireAppend(a: seq<Label>, b: seq<Label>)
    requires forall i :: 0 <= i < |a| ==> GoodLabel(a[i])
    requires forall i :: 0 <= i < |b| ==> GoodLabel(b[i])
    ensures Wire(a + b) == Wire(a) + Wire(b)
  {
    if a == [] {
      assert a + b == b;
    } else {
      assert (a + b)[1..] == a[1..] + b;
      WireAppend(a[1..], b);
    }
  }

  // ----- The parser

  /** Where a name ends: behind its zero byte or its compression pointer. */
  function SkipName(f: seq<byte>, pos: nat): (p: nat)
    ensures p >= pos
    decreases |f| - pos
  {
    if pos >= |f| then pos
    else if f[pos] == 0 then pos + 1
    else if f[pos] >= 0xC0 then pos + 2
    else SkipName(f, pos + 1 + f[pos])
  }

  function SkipQuestions(f: seq<byte>, pos: nat, q: nat): (p: nat)
    ensures p >= pos
    decreases q
  {
    if q == 0 then pos else SkipQuestions(f, SkipName(f, pos) + 4, q - 1)
  }

  /** The address of the first A record of class IN with four bytes of data. */
  function Answers(f: seq<byte>, pos: nat, a: nat): (r: Option<seq<byte>>)
    ensures r.Some? ==> |r.value| == 4
    decreases a
  {
    if a == 0 || pos >= |f| then None
    else
      var p := SkipName(f, pos);
      if p + 10 > |f| then None
      else if U16(f, p) == 1 && U16(f, p + 2) == 1 && U16(f, p + 8) == 4 then
        if p + 14 > |f| then None else Some(f[p + 10..p + 14])
      else Answers(f, p + 10 + U16(f, p + 8), a - 1)
  }

  predicate HeaderOk(f: seq<byte>, txid: nat) {
    |f| >= 12 && U16(f, 0) == txid && f[2] >= 0x80 && f[3] % 0x10 == 0
  }

  function Parsed(f: seq<byte>, txid: nat): (r: Option<seq<byte>>) {
    if !HeaderOk(f, txid) then None
    else Answers(f, SkipQuestions(f, 12, U16(f, 4)), U16(f, 6))
  }

  method SkipNameLoop(f: seq<byte>, start: nat) returns (pos: nat)
    ensures pos == SkipName(f, start)
  {
    pos := start;
    while pos < |f|
      invariant SkipName(f, start) == SkipName(f, pos)
      decreases |f| - pos
    {
      var len := f[pos];
      if len == 0 {
        return pos + 1;
      }
      if len >= 0xC0 {
        return pos + 2;
      }
      pos := pos + 1 + len;
    }
  }

  /** parse_dns_response: it ends on every packet, well formed or not. */
  method ParseResponse(pkt: seq<byte>, txid: nat) returns (r: Option<seq<byte>>)
    ensures r == Parsed(pkt, txid)
  {
    hide SkipName, U16;
    if |pkt| < 12 || U16(pkt, 0) != txid || pkt[2] < 0x80 || pkt[3] % 0x10 != 0 {
      return None;
    }
    var questions, answers := U16(pkt, 4), U16(pkt, 6);
    if answers == 0 {
      return None;
    }
    var pos: nat, q := 12, 0;
    while q < questions
      invariant 0 <= q <= questions
      invariant SkipQuestions(pkt, 12, questions) == SkipQuestions(pkt, pos, questions - q)
    {
      pos := SkipNameLoop(pkt, pos);
      pos := pos + 4;
      q := q + 1;
    }
    var a := 0;
    while a < answers && pos < |pkt|
      invariant 0 <= a <= answers
      invariant Parsed(pkt, txid) == Answers(pkt, pos, answers - a)
    {
      pos := SkipNameLoop(pkt, pos);
      if pos + 10 > |pkt| {
        return None;
      }
      var rtype, rclass, rdlen := U16(pkt, pos), U16(pkt, pos + 2), U16(pkt, pos + 8);
      pos := pos + 10;
      if rtype == 1 && rclass == 1 && rdlen == 4 {
        if pos + 4 > |pkt| {
          return None;
        }
        return Some(pkt[pos..pos + 4]);
      }
      pos := pos + rdlen;
      a := a + 1;
    }
    r := None;
  }

  // ----- Messages

  /** A name ends with the root label or with a compression pointer. */
  datatype End = Root | Pointer(high: byte, low: byte)

  datatype Record = Record(name: seq<Label>, end: End, rtype: nat, rclass: nat, ttl: seq<byte>, data: seq<byte>) {
    ghost predicate Ok() {
      && (forall i :: 0 <= i < |name| ==> GoodLabel(name[i]))
      && (end.Pointer? ==> end.high >= 0xC0)
      && rtype < 0x1_0000 && rclass < 0x1_0000 && |ttl| == 4 && |data| < 0x1_0000
    }

    ghost function Ending(): (e: seq<byte>)
      ensures |e| >= 1
    {
      match end case Root => [0] case Pointer(h, l) => [h, l]
    }

    ghost function Name(): seq<byte>
      requires Ok()
    {
      Wire(name) + Ending()
    }

    /** Type, class, time to live and length. */
    ghost function Fixed(): (r: seq<byte>)
      requires Ok()
      ensures |r| == 10
    {
      Be16(rtype) + Be16(rclass) + ttl + Be16(|data|)
    }

    predicate IsAddress() {
      rtype == 1 && rclass == 1 && |data| == 4
    }
  }

  ghost function Encoded(rs: seq<Record>): (r: seq<byte>)
    requires forall i :: 0 <= i < |rs| ==> rs[i].Ok()
  {
    if rs == [] then [] else rs[0].Name() + rs[0].Fixed() + rs[0].data + Encoded(rs[1..])
  }

  function FirstAddress(rs: seq<Record>): (r: Option<seq<byte>>) {
    if rs == [] then None else if rs[0].IsAddress() then Some(rs[0].data) else FirstAddress(rs[1..])
  }

  // ----- The parser reads what the builder and a server write

  lemma FirstByte(f: seq<byte>, p: nat, d: seq<byte>)
    requires At(f, p, d) && d != []
    ensures p < |f| && f[p] == d[0]
  {
    assert f[p] == f[p..p + |d|][0];
  }

  /** A name is skipped exactly, whichever way it ends. */
  lemma {:induction false} SkipsWire(f: seq<byte>, pos: nat, ls: seq<Label>, e: seq<byte>)
    requires forall i :: 0 <= i < |ls| ==> GoodLabel(ls[i])
    requires e == [0] || (|e| == 2 && e[0] >= 0xC0)
    requires At(f, pos, Wire(ls) + e)
    ensures SkipName(f, pos) == pos + |Wire(ls)| + |e|
    decreases |ls|
  {
    hide At;
    AtJoin(f, pos, Wire(ls), e);
    if ls == [] {
      FirstByte(f, pos, e);
    } else {
      var l, rest := ls[0], ls[1..];
      AtJoin(f, pos, Written(l), Wire(rest));
      FirstByte(f, pos, Written(l));
      AtJoin(f, pos + 1 + |l|, Wire(rest), e);
      SkipsWire(f, pos + 1 + |l|, rest, e);
    }
  }

  /** The question skip lands exactly behind the question that the builder wrote. */
  lemma SkipsQuestion(f: seq<byte>, pos: nat, ls: seq<Label>)
    requires forall i :: 0 <= i < |ls| ==> GoodLabel(ls[i])
    requires At(f, pos, Question(ls))
    ensures SkipQuestions(f, pos, 1) == pos + |Question(ls)|
  {
    hide At, SkipName;
    AtJoin(f, pos, Wire(ls) + [0], [0, 1, 0, 1]);
    SkipsWire(f, pos, ls, [0]);
    assert SkipQuestions(f, SkipName(f, pos) + 4, 0) == SkipName(f, pos) + 4;
  }

  lemma FixedAt(f: seq<byte>, p: nat, x: Record)
    requires x.Ok() && At(f, p, x.Fixed())
    ensures p + 10 <= |f| && U16(f, p) == x.rtype && U16(f, p + 2) == x.rclass && U16(f, p + 8) == |x.data|
  {
    hide At, U16, Be16;
    AtTaken(f, p, x.Fixed());
    AtJoin(f, p, Be16(x.rtype) + Be16(x.rclass) + x.ttl, Be16(|x.data|));
    AtJoin(f, p, Be16(x.rtype) + Be16(x.rclass), x.ttl);
    AtJoin(f, p, Be16(x.rtype), Be16(x.rclass));
    U16At(f, p, x.rtype);
    U16At(f, p + 2, x.rclass);
    U16At(f, p + 8, |x.data|);
  }

  lemma {:induction false} FindsFirst(f: seq<byte>, pos: nat, rs: seq<Record>)
    requires forall i :: 0 <= i < |rs| ==> rs[i].Ok()
    requires At(f, pos, Encoded(rs))
    ensures Answers(f, pos, |rs|) == FirstAddress(rs)
    decreases |rs|
  {
    hide At, SkipName, U16, Wire, Record.Fixed;
    if rs != [] {
      var x, rest := rs[0], rs[1..];
      AtJoin(f, pos, x.Name() + x.Fixed() + x.data, Encoded(rest));
      AtJoin(f, pos, x.Name() + x.Fixed(), x.data);
      AtJoin(f, pos, x.Name(), x.Fixed());
      SkipsWire(f, pos, x.name, x.Ending());
      var p := pos + |x.Name()|;
      FixedAt(f, p, x);
      AtTaken(f, p + 10, x.data);
      FindsFirst(f, p + 10 + |x.data|, rest);
    }
  }

  /** A response to a built query: its header, its question, the answers, and anything behind them. */
  ghost predicate Responds(f: seq<byte>, txid: nat, ls: seq<Label>, rs: seq<Record>)
    requires forall i :: 0 <= i < |ls| ==> GoodLabel(ls[i])
    requires forall i :: 0 <= i < |rs| ==> rs[i].Ok()
  {
    && HeaderOk(f, txid) && U16(f, 4) == 1 && U16(f, 6) == |rs|
    && At(f, 12, Question(ls)) && At(f, 12 + |Question(ls)|, Encoded(rs))
  }

  /** For every name the builder accepts, the parser returns the first address record of a response to it. */
  lemma ResponseParsed(name: seq<byte>, room: nat, f: seq<byte>, txid: nat, rs: seq<Record>)
    requires Accepts(name, room)
    requires forall i :: 0 <= i < |rs| ==> rs[i].Ok()
    requires Responds(f, txid, Labels(name).value, rs)
    ensures Parsed(f, txid) == FirstAddress(rs)
  {
    hide At, SkipName, U16, Question, Encoded, SkipQuestions, Answers;
    var ls := Labels(name).value;
    SkipsQuestion(f, 12, ls);
    FindsFirst(f, 12 + |Question(ls)|, rs);
  }
}
