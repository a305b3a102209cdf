/** What comes out of a connection is what was put in, packet by packet, however the stream is cut. */
module Framing {
  import opened Bytes
  import opened Buffers
  import opened SocketSpec

  /** Both ends of one direction of a connection, and what has gone in and come out so far. */
  datatype Link = Link(
    net: bool, sbuf: Buf, pollOut: bool, flight: seq<byte>, rbuf: Buf, eof: bool,
    sent: seq<Packet>, got: seq<Packet>)
  {
    predicate Valid() {
      sbuf.Valid() && rbuf.Valid() && |sbuf.mem| <= 0x10000
    }

    function Out(): Sender {
      Sender(sbuf, pollOut, flight)
    }

    function In(): Receiver {
      Receiver(rbuf, eof, flight)
    }
  }

  datatype Op =
    | DoPut(header: Header, data: seq<byte>, moods: seq<int>)
    | DoFlush(all: bool, moods: seq<int>)
    | DoFill(mood: int)
    | DoFetch

  predicate Sensible(op: Op) {
    op.DoPut? ==> op.header.(count := 0).Valid()
  }

  function Step(l: Link, op: Op): (m: Link)
    requires l.Valid() && Sensible(op)
    ensures m.Valid() && |m.rbuf.mem| == |l.rbuf.mem| && m.net == l.net
  {
    match op
    case DoPut(h, data, moods) =>
      var (s, rc) := PutPacket(l.Out(), l.net, h, data, moods);
      l.(sbuf := s.sbuf, pollOut := s.pollOut, flight := s.flight,
         sent := if rc >= 0 then l.sent + [Packet(h.(count := |data|), data)] else l.sent)
    case DoFlush(all, moods) =>
      var (s, _) := Flush(l.Out(), all, moods);
      l.(sbuf := s.sbuf, pollOut := s.pollOut, flight := s.flight)
    case DoFill(mood) =>
      var (r, _) := FillBuf(l.In(), mood);
      l.(rbuf := r.rbuf, eof := r.eof, flight := r.flight)
    case DoFetch =>
      var (b, f) := GetPacket(l.rbuf, l.net);
      l.(rbuf := b, got := if f.Got? then l.got + [f.packet] else l.got)
  }

  function Run(l: Link, ops: seq<Op>): (m: Link)
    requires l.Valid() && forall op :: op in ops ==> Sensible(op)
    ensures m.Valid() && |m.rbuf.mem| == |l.rbuf.mem| && m.net == l.net
    decreases ops
  {
    if ops == [] then l else Run(Step(l, ops[0]), ops[1..])
  }

  function Wires(net: bool, ps: seq<Packet>): seq<byte>
    requires forall p :: p in ps ==> p.Valid()
  {
    if ps == [] then [] else Wire(net, ps[0]) + Wires(net, ps[1..])
  }

  predicate Packets(ps: seq<Packet>) {
    forall p :: p in ps ==> p.Valid()
  }

  /** No octet is lost, added or reordered: what came out, what is waiting and what is in flight are
      together what went in. And whatever waits to be sent will be polled for. */
  ghost predicate Conserved(l: Link) {
    && l.Valid() && Packets(l.sent) && Packets(l.got)
    && Wires(l.net, l.got) + l.rbuf.Avail() + l.flight + l.sbuf.Avail() == Wires(l.net, l.sent)
    && (l.sbuf.Avail() != [] ==> l.pollOut)
  }

  lemma {:induction false} WiresAppend(net: bool, ps: seq<Packet>, p: Packet)
    requires Packets(ps) && p.Valid()
    ensures Packets(ps + [p]) && Wires(net, ps + [p]) == Wires(net, ps) + Wire(net, p)
  {
    if ps == [] {
      assert [] + [p] == [p];
    } else {
      assert (ps + [p])[1..] == ps[1..] + [p];
      WiresAppend(net, ps[1..], p);
    }
  }

  // ---- each operation conserves -------------------------------------------------------------------

  lemma AvailBound(b: Buf)
    requires b.Valid()
    ensures |b.Avail()| <= |b.mem| - b.Tailroom()
  {
  }

  lemma PutConserves(s: Sender, net: bool, h: Header, data: seq<byte>, moods: seq<int>)
    requires s.Valid() && h.(count := 0).Valid() && |s.sbuf.mem| <= 0x10000
    requires s.sbuf.Avail() != [] ==> s.pollOut
    ensures var (t, rc) := PutPacket(s, net, h, data, moods);
            && (t.sbuf.Avail() != [] ==> t.pollOut)
            && (rc >= 0 ==> |data| < 0x10000)
            && t.flight + t.sbuf.Avail()
               == s.flight + s.sbuf.Avail() + (if rc >= 0 then Wire(net, Packet(h.(count := |data|), data)) else [])
  {
    hide PutPacket, Wire;
    PutPacketReports(s, net, h, data, moods);
    assert s.flight + s.sbuf.Avail() + [] == s.flight + s.sbuf.Avail();
  }

  lemma FillConserves(r: Receiver, mood: int)
    requires r.Valid()
    ensures var (q, _) := FillBuf(r, mood);
            q.rbuf.Avail() + q.flight == r.rbuf.Avail() + r.flight
  {
    var b := Readied(r.rbuf);
    if b.Tailroom() > 0 && mood >= 0 && r.flight != [] {
      var n := Portion(Min(b.Tailroom(), |r.flight|), mood);
      AvailBound(b);
      PutIsEnqueue(b, r.flight[..n]);
      assert r.flight == r.flight[..n] + r.flight[n..];
      assert b.Avail() + r.flight[..n] + r.flight[n..] == b.Avail() + r.flight;
    }
  }

  lemma GetConserves(rbuf: Buf, net: bool)
    requires rbuf.Valid()
    ensures var (b, f) := GetPacket(rbuf, net);
            rbuf.Avail() == (if f.Got? then Wire(net, f.packet) else []) + b.Avail()
  {
    hide DecodeHeader, EncodeHeader;
    var avail := rbuf.Avail();
    if |avail| >= HEADER_SIZE {
      var h := DecodeHeader(net, avail[..HEADER_SIZE]);
      EncodeDecodeHeader(net, avail[..HEADER_SIZE]);
      if |avail| >= HEADER_SIZE + h.count {
        TwoGets(rbuf, HEADER_SIZE, h.count);
        ThreeParts(avail, HEADER_SIZE, HEADER_SIZE + h.count);
      }
    }
  }

  lemma ThreeParts(s: seq<byte>, m: nat, n: nat)
    requires m <= n <= |s|
    ensures s == (s[..m] + s[m..n]) + s[n..]
  {
  }

  lemma StepConserves(l: Link, op: Op)
    requires Conserved(l) && Sensible(op)
    ensures Conserved(Step(l, op))
  {
    match op
    case DoPut(h, data, moods) => PutStepConserves(l, op);
    case DoFlush(all, moods) => FlushStepConserves(l, op);
    case DoFill(mood) => FillStepConserves(l, op);
    case DoFetch => GetStepConserves(l);
  }

  lemma PutStepConserves(l: Link, op: Op)
    requires Conserved(l) && Sensible(op) && op.DoPut?
    ensures Conserved(Step(l, op))
  {
    var DoPut(h, data, moods) := op;
    PutConserves(l.Out(), l.net, h, data, moods);
    var p := Packet(h.(count := |data|), data);
    var (s, rc) := PutPacket(l.Out(), l.net, h, data, moods);
    if rc >= 0 {
      WiresAppend(l.net, l.sent, p);
    }
    hide PutPacket, Wires, Wire;
    var m := Step(l, op);
    Regroup(Wires(l.net, l.got), l.rbuf.Avail(), l.flight, l.sbuf.Avail(), m.flight, m.sbuf.Avail(),
            if rc >= 0 then Wire(l.net, p) else []);
  }

  lemma FlushStepConserves(l: Link, op: Op)
    requires Conserved(l) && op.DoFlush?
    ensures Conserved(Step(l, op))
  {
    FlushReports(l.Out(), op.all, op.moods);
    hide Flush, Wires;
    var m := Step(l, op);
    Regroup(Wires(l.net, l.got), l.rbuf.Avail(), l.flight, l.sbuf.Avail(), m.flight, m.sbuf.Avail(), []);
  }

  lemma FillStepConserves(l: Link, op: Op)
    requires Conserved(l) && op.DoFill?
    ensures Conserved(Step(l, op))
  {
    FillConserves(l.In(), op.mood);
    hide FillBuf, Wires;
    var m := Step(l, op);
    RegroupMiddle(Wires(l.net, l.got), l.rbuf.Avail(), l.flight, m.rbuf.Avail(), m.flight, l.sbuf.Avail());
  }

  lemma GetStepConserves(l: Link)
    requires Conserved(l)
    ensures Conserved(Step(l, DoFetch))
  {
    GetConserves(l.rbuf, l.net);
    var (b, f) := GetPacket(l.rbuf, l.net);
    var w := if f.Got? then Wire(l.net, f.packet) else [];
    if f.Got? {
      WiresAppend(l.net, l.got, f.packet);
    }
    hide GetPacket, Wires, Wire;
    RegroupFront(Wires(l.net, l.got), l.rbuf.Avail(), w, b.Avail(), l.flight, l.sbuf.Avail());
    assert Wires(l.net, l.got) + [] == Wires(l.net, l.got);
  }

  lemma RegroupMiddle(a: seq<byte>, q: seq<byte>, f: seq<byte>, q': seq<byte>, f': seq<byte>, s: seq<byte>)
    requires q + f == q' + f'
    ensures a + q + f + s == a + q' + f' + s
  {
    assert a + q + f == a + (q + f) && a + q' + f' == a + (q' + f');
  }

  lemma RegroupFront(a: seq<byte>, q: seq<byte>, w: seq<byte>, b: seq<byte>, f: seq<byte>, s: seq<byte>)
    requires q == w + b
    ensures (a + w) + b + f + s == a + q + f + s
  {
    assert (a + w) + b == a + q;
  }

  lemma Regroup(a: seq<byte>, q: seq<byte>, f: seq<byte>, s: seq<byte>, f': seq<byte>, s': seq<byte>, w: seq<byte>)
    requires f' + s' == f + s + w
    ensures a + q + f' + s' == a + q + f + s + w
  {
    assert a + q + f' + s' == a + q + (f' + s');
    assert a + q + f + s + w == a + q + (f + s + w);
  }

  lemma {:induction false} RunConserves(l: Link, ops: seq<Op>)
    requires Conserved(l) && forall op :: op in ops ==> Sensible(op)
    ensures Conserved(Run(l, ops))
    decreases ops
  {
    hide Step;
    if ops != [] {
      assert Sensible(ops[0]);
      StepConserves(l, ops[0]);
      RunConserves(Step(l, ops[0]), ops[1..]);
    }
  }

  // ---- the stream can be cut in one way only ----------------------------------------------------------

  lemma HeaderRead(net: bool, p: Packet, tail: seq<byte>)
    requires p.Valid()
    ensures |Wire(net, p) + tail| >= HEADER_SIZE
    ensures DecodeHeader(net, (Wire(net, p) + tail)[..HEADER_SIZE]) == p.header
  {
    hide EncodeHeader, DecodeHeader;
    assert (Wire(net, p) + tail)[..HEADER_SIZE] == EncodeHeader(net, p.header);
    DecodeEncodeHeader(net, p.header);
  }

  lemma DataRead(net: bool, p: Packet, tail: seq<byte>)
    requires p.Valid()
    ensures |Wire(net, p) + tail| >= HEADER_SIZE + |p.data|
    ensures (Wire(net, p) + tail)[HEADER_SIZE..HEADER_SIZE + |p.data|] == p.data
  {
    hide EncodeHeader, DecodeHeader;
    PartOfFirst(Wire(net, p), tail, HEADER_SIZE, HEADER_SIZE + |p.data|);
    assert Wire(net, p)[HEADER_SIZE..HEADER_SIZE + |p.data|] == p.data;
  }

  lemma WireRead(net: bool, p: Packet, q: Packet, x: seq<byte>, y: seq<byte>)
    requires p.Valid() && q.Valid() && Wire(net, p) + x == Wire(net, q) + y
    ensures p == q && x == y
  {
    HeaderRead(net, p, x);
    HeaderRead(net, q, y);
    hide EncodeHeader, DecodeHeader;
    var s := Wire(net, p) + x;
    var n := HEADER_SIZE + |p.data|;
    assert p.data == s[HEADER_SIZE..n] && q.data == s[HEADER_SIZE..n];
    assert x == s[n..] && y == s[n..];
  }

  lemma PrefixCons(a: seq<Packet>, b: seq<Packet>)
    requires a != [] && b != [] && a[0] == b[0] && a[1..] <= b[1..]
    ensures a <= b
  {
    assert a == [a[0]] + a[1..] && b == [b[0]] + b[1..];
  }

  lemma {:induction false} PrefixRead(net: bool, a: seq<Packet>, x: seq<byte>, b: seq<Packet>)
    requires Packets(a) && Packets(b) && Wires(net, a) + x == Wires(net, b)
    ensures a <= b && x == Wires(net, b[|a|..])
  {
    if a == [] {
      assert [] + x == x && b[0..] == b;
    } else {
      assert |Wires(net, a)| >= HEADER_SIZE;
      assert b != [];
      hide Wire;
      JoinThree(Wire(net, a[0]), Wires(net, a[1..]), x);
      WireRead(net, a[0], b[0], Wires(net, a[1..]) + x, Wires(net, b[1..]));
      hide Wires;
      PrefixRead(net, a[1..], x, b[1..]);
      PartOfPart(b, 1, |b|, |a| - 1, |b| - 1);
      PrefixCons(a, b);
    }
  }

  // ---- the main results --------------------------------------------------------------------------------

  ghost predicate Fresh(l: Link) {
    && l.Valid() && l.sent == [] && l.got == [] && l.flight == []
    && l.sbuf.Avail() == [] && l.rbuf.Avail() == []
  }

  lemma FreshConserved(l: Link)
    requires Fresh(l)
    ensures Conserved(l)
  {
  }

  /** Under any interleaving of put, flush, fill and get, with reads and writes of any size and
      failing at any point: the packets received are a prefix of the packets sent, headers and
      data alike. */
  lemma ReceivedIsPrefixOfSent(l: Link, ops: seq<Op>)
    requires Fresh(l) && forall op :: op in ops ==> Sensible(op)
    ensures var m := Run(l, ops);
            && Packets(m.sent) && m.got <= m.sent
            && m.rbuf.Avail() + m.flight + m.sbuf.Avail() == Wires(m.net, m.sent[|m.got|..])
            && (m.sbuf.Avail() != [] ==> m.pollOut)
  {
    FreshConserved(l);
    hide Run, Wires, Wire, Fresh;
    RunConserves(l, ops);
    var m := Run(l, ops);
    ConservedMeans(m);
  }

  lemma ConservedMeans(m: Link)
    requires Conserved(m)
    ensures m.got <= m.sent && Packets(m.sent)
    ensures m.rbuf.Avail() + m.flight + m.sbuf.Avail() == Wires(m.net, m.sent[|m.got|..])
  {
    hide Wires, Wire;
    JoinFour(Wires(m.net, m.got), m.rbuf.Avail(), m.flight, m.sbuf.Avail());
    PrefixRead(m.net, m.got, m.rbuf.Avail() + m.flight + m.sbuf.Avail(), m.sent);
  }

  /** And nothing gets stuck. If get_packet finds no complete packet then either everything sent has
      been received, or octets are still on the way and filbuf has room for at least one; and it
      calls a packet too large only if the next packet truly exceeds the receive buffer. */
  lemma NothingGetsStuck(l: Link, ops: seq<Op>, mood: int)
    requires Fresh(l) && (forall op :: op in ops ==> Sensible(op)) && |l.rbuf.mem| >= HEADER_SIZE && mood >= 0
    ensures var m := Run(l, ops);
            match GetPacket(m.rbuf, m.net).1 {
              case Incomplete =>
                && Readied(m.rbuf).Tailroom() > 0
                && (m.flight != [] ==> FillBuf(m.In(), mood).1 > 0)
                && (m.flight == [] && m.sbuf.Avail() == [] ==> m.got == m.sent)
              case Got(p) => |m.got| < |m.sent| && p == m.sent[|m.got|]
              case TooLarge =>
                && |m.got| < |m.sent|
                && HEADER_SIZE + |m.sent[|m.got|].data| > |m.rbuf.mem|
            }
  {
    hide Run;
    ReceivedIsPrefixOfSent(l, ops);
    var m := Run(l, ops);
    var rest := m.sent[|m.got|..];
    assert Packets(rest) && rest != [] ==> rest[0] == m.sent[|m.got|];
    NextPacket(m.rbuf, m.net, m.flight + m.sbuf.Avail(), rest);
    CompactKeepsContents(m.rbuf);
  }

  /** What get_packet makes of a receive buffer that holds the beginning of some packets. */
  lemma NextPacket(rbuf: Buf, net: bool, coming: seq<byte>, rest: seq<Packet>)
    requires rbuf.Valid() && |rbuf.mem| >= HEADER_SIZE && Packets(rest)
    requires rbuf.Avail() + coming == Wires(net, rest)
    ensures match GetPacket(rbuf, net).1 {
              case Incomplete => |rbuf.Avail()| < |rbuf.mem| && (coming == [] ==> rest == [])
              case Got(p) => rest != [] && p == rest[0]
              case TooLarge => rest != [] && HEADER_SIZE + |rest[0].data| > |rbuf.mem|
            }
  {
    if rest != [] {
      var avail := rbuf.Avail();
      var tail := Wires(net, rest[1..]);
      HeaderRead(net, rest[0], tail);
      hide EncodeHeader, DecodeHeader;
      var s := avail + coming;
      assert s == Wire(net, rest[0]) + tail;
      if |avail| >= HEADER_SIZE {
        PartOfFirst(avail, coming, 0, HEADER_SIZE);
        var n := HEADER_SIZE + |rest[0].data|;
        DataRead(net, rest[0], tail);
        if |avail| >= n {
          PartOfFirst(avail, coming, HEADER_SIZE, n);
        }
      }
    }
  }

  // ---- everything arrives ---------------------------------------------------------------------------------

  /** One write, one read and one get_packet, the kernel moving as much as it likes, but at least one
      octet where it can. */
  function Round(write: nat, read: nat): (ops: seq<Op>)
    ensures forall op :: op in ops ==> Sensible(op)
  {
    [DoFlush(false, [write]), DoFill(read), DoFetch]
  }

  function Rounds(moods: seq<(nat, nat)>): (ops: seq<Op>)
    ensures forall op :: op in ops ==> Sensible(op)
  {
    if moods == [] then [] else Round(moods[0].0, moods[0].1) + Rounds(moods[1..])
  }

  /** No packet still to be received is larger than the receive buffer. */
  predicate Receivable(l: Link) {
    forall i :: |l.got| <= i < |l.sent| ==> HEADER_SIZE + |l.sent[i].data| <= |l.rbuf.mem|
  }

  /** How far the link is from having delivered everything. */
  function Distance(l: Link): int
    requires l.Valid()
  {
    2 * |l.sbuf.Avail()| + |l.flight| + |l.sent| - |l.got|
  }

  /** The octets put and not yet received. */
  function Outstanding(l: Link): nat
    requires l.Valid()
  {
    |l.rbuf.Avail()| + |l.flight| + |l.sbuf.Avail()|
  }

  lemma FlushAdvances(l: Link, write: nat)
    requires Conserved(l)
    ensures var m := Step(l, DoFlush(false, [write]));
            && Conserved(m) && m.sent == l.sent && m.got == l.got && m.rbuf == l.rbuf
            && (if l.sbuf.Avail() == [] then m.sbuf == l.sbuf && m.flight == l.flight else Distance(m) < Distance(l))
  {
    StepConserves(l, DoFlush(false, [write]));
    if l.sbuf.Avail() != [] {
      WriteConserves(l.Out(), write);
    }
    hide Wires;
  }

  lemma FillAdvances(l: Link, read: nat)
    requires Conserved(l)
    ensures var m := Step(l, DoFill(read));
            && Conserved(m) && m.sent == l.sent && m.got == l.got && m.sbuf == l.sbuf
            && (if l.flight == [] || Readied(l.rbuf).Tailroom() == 0
                then m.flight == l.flight && m.rbuf.Avail() == l.rbuf.Avail() else Distance(m) < Distance(l))
  {
    StepConserves(l, DoFill(read));
    hide Wires;
  }

  lemma FetchAdvances(l: Link)
    requires Conserved(l) && Receivable(l) && |l.rbuf.mem| >= HEADER_SIZE
    ensures var m := Step(l, DoFetch);
            && Conserved(m) && m.sent == l.sent && m.flight == l.flight && m.sbuf == l.sbuf && Receivable(m)
            && (if m.got == l.got then |l.rbuf.Avail()| < |l.rbuf.mem| && (l.flight + l.sbuf.Avail() == [] ==> l.got == l.sent)
                else Distance(m) < Distance(l))
  {
    hide Wires, Wire, GetPacket;
    StepConserves(l, DoFetch);
    ConservedMeans(l);
    var rest := l.sent[|l.got|..];
    assert rest != [] ==> rest[0] == l.sent[|l.got|];
    JoinThree(l.rbuf.Avail(), l.flight, l.sbuf.Avail());
    NextPacket(l.rbuf, l.net, l.flight + l.sbuf.Avail(), rest);
  }

  /** A round brings the end nearer unless everything has been delivered. */
  lemma RoundAdvances(l: Link, write: nat, read: nat)
    requires Conserved(l) && Receivable(l) && |l.rbuf.mem| >= HEADER_SIZE
    ensures var m := Run(l, Round(write, read));
            && Conserved(m) && Receivable(m) && m.sent == l.sent
            && Distance(m) <= Distance(l) && (l.got != l.sent ==> Distance(m) < Distance(l))
  {
    hide Step, Run, Wires, Readied;
    var l1 := Step(l, DoFlush(false, [write]));
    FlushAdvances(l, write);
    var l2 := Step(l1, DoFill(read));
    FillAdvances(l1, read);
    FetchAdvances(l2);
    RunThree(l, DoFlush(false, [write]), DoFill(read), DoFetch);
    NoRoom(l1.rbuf);
  }

  lemma RunThree(l: Link, a: Op, b: Op, c: Op)
    requires l.Valid() && Sensible(a) && Sensible(b) && Sensible(c)
    ensures Run(l, [a, b, c]) == Step(Step(Step(l, a), b), c)
  {
    hide Step;
    assert [a, b, c][1..] == [b, c] && [b, c][1..] == [c] && [c][1..] == [];
    var l1 := Step(l, a);
    var l2 := Step(l1, b);
    assert Run(l2, [c]) == Step(l2, c);
    assert Run(l1, [b, c]) == Run(l2, [c]);
  }

  lemma NoRoom(b: Buf)
    requires b.Valid()
    ensures Readied(b).Tailroom() == 0 ==> |b.Avail()| == |b.mem|
  {
    CompactKeepsContents(b);
  }

  lemma {:induction false} RunJoins(l: Link, a: seq<Op>, b: seq<Op>)
    requires l.Valid() && (forall op :: op in a ==> Sensible(op)) && (forall op :: op in b ==> Sensible(op))
    ensures Run(l, a + b) == Run(Run(l, a), b)
    decreases a
  {
    hide Step;
    if a == [] {
      assert a + b == b;
    } else {
      assert (a + b)[1..] == a[1..] + b;
      RunJoins(Step(l, a[0]), a[1..], b);
    }
  }

  lemma {:induction false} RoundsDeliver(l: Link, moods: seq<(nat, nat)>)
    requires Conserved(l) && Receivable(l) && |l.rbuf.mem| >= HEADER_SIZE && Distance(l) <= |moods|
    ensures Run(l, Rounds(moods)).got == l.sent
    decreases moods
  {
    ConservedMeans(l);
    hide Conserved, Step, Round, Wires;
    if moods == [] {
      assert |l.got| == |l.sent|;
    } else {
      RoundAdvances(l, moods[0].0, moods[0].1);
      if l.got == l.sent {
        AllDelivered(l);
      }
      RunJoins(l, Round(moods[0].0, moods[0].1), Rounds(moods[1..]));
      RoundsDeliver(Run(l, Round(moods[0].0, moods[0].1)), moods[1..]);
    }
  }

  lemma AllDelivered(l: Link)
    requires Conserved(l) && l.got == l.sent
    ensures Distance(l) == 0
  {
    ConservedMeans(l);
    assert l.sent[|l.got|..] == [];
  }

  lemma {:induction false} PacketsInOctets(net: bool, ps: seq<Packet>)
    requires Packets(ps)
    ensures |Wires(net, ps)| >= HEADER_SIZE * |ps|
  {
    if ps != [] {
      PacketsInOctets(net, ps[1..]);
    }
  }

  /** From every reachable state in which the packets still to be received fit the receive buffer,
      whatever portions the kernel moves, everything sent has been received after at most three rounds
      for each octet outstanding. */
  lemma EverythingArrives(l: Link, ops: seq<Op>, moods: seq<(nat, nat)>)
    requires Fresh(l) && (forall op :: op in ops ==> Sensible(op)) && |l.rbuf.mem| >= HEADER_SIZE
    requires Receivable(Run(l, ops)) && |moods| >= 3 * Outstanding(Run(l, ops))
    ensures var m := Run(l, ops); Run(m, Rounds(moods)).got == m.sent
  {
    FreshConserved(l);
    RunConserves(l, ops);
    var m := Run(l, ops);
    hide Run, Step, Fresh;
    ConservedMeans(m);
    PacketsInOctets(m.net, m.sent[|m.got|..]);
    hide Conserved, Wires;
    RoundsDeliver(m, moods);
  }
}
