/** Packet framing between clients and the resource manager (socket.c): headers, the two buffers of
    a socket, and a byte stream that is written and read in arbitrary portions. */
module SocketSpec {
  import opened Bytes
  import opened Buffers

  // ---- headers --------------------------------------------------------------------------------

  /** header_t: xid and dest are kept as their four octets in memory, error as its two. */
  datatype Header = Header(xid: seq<byte>, dest: seq<byte>, error: seq<byte>, count: nat) {
    predicate Valid() {
      |xid| == 4 && |dest| == 4 && |error| == 2 && count < 0x10000
    }
  }

  const HEADER_SIZE: nat := 12

  /** A 16-bit number in the memory of a little-endian host. */
  function Octets16(n: nat): (s: seq<byte>)
    requires n < 0x10000
    ensures |s| == 2
  {
    [ToByte(n % 256), ToByte(n / 256)]
  }

  function Value16(s: seq<byte>): (n: nat)
    requires |s| == 2
    ensures n < 0x10000
  {
    s[0] as int + 256 * (s[1] as int)
  }

  /** ntohs on such a host, if the socket uses network byte order. */
  function Ordered(net: bool, s: seq<byte>): (t: seq<byte>)
    requires |s| == 2
    ensures |t| == 2
  {
    if net then [s[1], s[0]] else s
  }

  /** The header as it is put into the send buffer. */
  function EncodeHeader(net: bool, h: Header): (s: seq<byte>)
    requires h.Valid()
    ensures |s| == HEADER_SIZE
  {
    h.xid + h.dest + Ordered(net, h.error) + Ordered(net, Octets16(h.count))
  }

  /** The header as it is read from the receive buffer. */
  function DecodeHeader(net: bool, s: seq<byte>): (h: Header)
    requires |s| == HEADER_SIZE
    ensures h.Valid()
  {
    Header(s[..4], s[4..8], Ordered(net, s[8..10]), Value16(Ordered(net, s[10..12])))
  }

  lemma Value16Octets(n: nat)
    requires n < 0x10000
    ensures Value16(Octets16(n)) == n
  {
  }

  lemma FourParts(a: seq<byte>, b: seq<byte>, c: seq<byte>, d: seq<byte>)
    requires |a| == 4 && |b| == 4 && |c| == 2 && |d| == 2
    ensures var s := a + b + c + d;
            |s| == 12 && s[..4] == a && s[4..8] == b && s[8..10] == c && s[10..12] == d
  {
  }

  lemma DecodeEncodeHeader(net: bool, h: Header)
    requires h.Valid()
    ensures DecodeHeader(net, EncodeHeader(net, h)) == h
  {
    hide Octets16, Value16;
    FourParts(h.xid, h.dest, Ordered(net, h.error), Ordered(net, Octets16(h.count)));
    assert Ordered(net, Ordered(net, h.error)) == h.error;
    assert Ordered(net, Ordered(net, Octets16(h.count))) == Octets16(h.count);
    Value16Octets(h.count);
  }

  /** Where the fields lie in the twelve octets. With network byte order the high octet of the count
      comes first and error is turned round, without it neither. */
  lemma HeaderLayout(net: bool, h: Header)
    requires h.Valid()
    ensures var s := EncodeHeader(net, h);
            && s[..4] == h.xid && s[4..8] == h.dest
            && s[8..10] == (if net then [h.error[1], h.error[0]] else h.error)
            && h.count == if net then s[10] as int * 256 + s[11] as int else s[10] as int + s[11] as int * 256
  {
    hide Octets16, Value16;
    FourParts(h.xid, h.dest, Ordered(net, h.error), Ordered(net, Octets16(h.count)));
    var s := EncodeHeader(net, h);
    assert s[10..12][0] == s[10] && s[10..12][1] == s[11];
    Octets16Are(h.count);
  }

  lemma Octets16Are(n: nat)
    requires n < 0x10000
    ensures Octets16(n)[0] as int == n % 256 && Octets16(n)[1] as int == n / 256
  {
  }

  lemma Octets16Value(s: seq<byte>)
    requires |s| == 2
    ensures Octets16(Value16(s)) == s
  {
    var n := Value16(s);
    assert n % 256 == s[0] as int && n / 256 == s[1] as int;
    OctetIsItsValue(s[0]);
    OctetIsItsValue(s[1]);
  }

  lemma EncodeDecodeHeader(net: bool, s: seq<byte>)
    requires |s| == HEADER_SIZE
    ensures EncodeHeader(net, DecodeHeader(net, s)) == s
  {
    hide Octets16, Value16;
    Octets16Value(Ordered(net, s[10..12]));
    assert Ordered(net, Ordered(net, s[8..10])) == s[8..10];
    assert Ordered(net, Ordered(net, s[10..12])) == s[10..12];
    assert s == s[..4] + s[4..8] + s[8..10] + s[10..12];
  }

  // ---- packets ----------------------------------------------------------------------------------

  datatype Packet = Packet(header: Header, data: seq<byte>) {
    predicate Valid() {
      header.Valid() && header.count == |data|
    }
  }

  function Wire(net: bool, p: Packet): (s: seq<byte>)
    requires p.Valid()
    ensures |s| == HEADER_SIZE + |p.data|
  {
    EncodeHeader(net, p.header) + p.data
  }

  // ---- the two ends of the stream -------------------------------------------------------------------

  const FAILED: int := -1
  const NOT_CONNECTED: int := -103
  const BUFFER_TOO_SMALL: int := -11

  /** The sending half of a socket and the stream behind it: the send buffer, whether the socket
      polls for output, the octets in flight. */
  datatype Sender = Sender(sbuf: Buf, pollOut: bool, flight: seq<byte>) {
    predicate Valid() {
      sbuf.Valid()
    }
  }

  /** The portion that write accepts, given the kernel's mood; at least one octet. */
  function Portion(want: nat, mood: int): (n: nat)
    requires want > 0 && mood >= 0
    ensures 1 <= n <= want
  {
    if mood < 1 then 1 else Min(mood, want)
  }

  /** One write to the stream; None if it fails. */
  function WriteSome(s: Sender, mood: int): (r: Option<Sender>)
    requires s.Valid() && s.sbuf.Avail() != []
    ensures r.Some? ==> r.value.Valid() && |r.value.sbuf.mem| == |s.sbuf.mem|
                        && |r.value.sbuf.Avail()| < |s.sbuf.Avail()|
  {
    if mood < 0 then None
    else
      var n := Portion(|s.sbuf.Avail()|, mood);
      Some(s.(sbuf := s.sbuf.Get(n).0, flight := s.flight + s.sbuf.Avail()[..n]))
  }

  /** ct_socket_flsbuf; moods says how the successive writes go (failing once the list ends). */
  function Flush(s: Sender, all: bool, moods: seq<int>): (r: (Sender, int))
    requires s.Valid()
    ensures r.0.Valid() && |r.0.sbuf.mem| == |s.sbuf.mem|
    decreases |s.sbuf.Avail()|
  {
    if s.sbuf.Avail() == [] then (s.(pollOut := false), 0)
    else if moods == [] then (s, NOT_CONNECTED)
    else
      match WriteSome(s, moods[0])
      case None => (s, NOT_CONNECTED)
      case Some(t) => if all then Flush(t, all, moods[1..]) else (t, 0)
  }

  /** ct_socket_put_packet. */
  function PutPacket(s: Sender, net: bool, h: Header, data: seq<byte>, moods: seq<int>): (r: (Sender, int))
    requires s.Valid() && h.(count := 0).Valid() && |s.sbuf.mem| <= 0x10000
    ensures r.0.Valid() && |r.0.sbuf.mem| == |s.sbuf.mem|
  {
    var count := HEADER_SIZE + |data|;
    if s.sbuf.Tailroom() >= count then (Enqueue(s, net, h, data), 0)
    else
      var (t, rc) := Flush(s, true, moods);
      if rc < 0 then (t, rc)
      else
        var u := t.(sbuf := t.sbuf.Compact());
        if u.sbuf.Tailroom() < count then (u, BUFFER_TOO_SMALL) else (Enqueue(u, net, h, data), 0)
  }

  /** Header and data behind the send buffer's contents. */
  function Enqueue(s: Sender, net: bool, h: Header, data: seq<byte>): (t: Sender)
    requires s.Valid() && h.(count := 0).Valid() && |data| < 0x10000
    ensures t.Valid() && |t.sbuf.mem| == |s.sbuf.mem|
  {
    var b := s.sbuf.Put(EncodeHeader(net, h.(count := |data|))).0;
    Sender(if data == [] then b else b.Put(data).0, true, s.flight)
  }

  /** What flsbuf reports: -103 if a write fails, else 0, and then an empty buffer is no longer polled for
      and, if everything was to go, nothing waits. In no case is an octet lost or sent twice. */
  lemma {:induction false} FlushReports(s: Sender, all: bool, moods: seq<int>)
    requires s.Valid()
    ensures var (t, rc) := Flush(s, all, moods);
            && t.flight + t.sbuf.Avail() == s.flight + s.sbuf.Avail()
            && (rc == 0 || rc == -103)
            && (rc == 0 && all ==> t.sbuf.Avail() == [])
            && (rc == 0 && (all || s.sbuf.Avail() == []) ==> !t.pollOut)
            && (s.sbuf.Avail() == [] ==> rc == 0 && t == s.(pollOut := false))
            && (!all && s.sbuf.Avail() != [] && rc == 0 ==> |t.sbuf.Avail()| < |s.sbuf.Avail()| && t.pollOut == s.pollOut)
            && (rc != 0 ==> t.pollOut == s.pollOut)
            && (t.sbuf.Avail() != [] ==> s.sbuf.Avail() != [] && t.pollOut == s.pollOut)
    decreases |s.sbuf.Avail()|
  {
    if s.sbuf.Avail() != [] && moods != [] {
      var w := WriteSome(s, moods[0]);
      if w.Some? {
        WriteConserves(s, moods[0]);
        if all {
          FlushReports(w.value, all, moods[1..]);
        }
      }
    }
  }

  lemma WriteConserves(s: Sender, mood: int)
    requires s.Valid() && s.sbuf.Avail() != [] && WriteSome(s, mood).Some?
    ensures var t := WriteSome(s, mood).value;
            t.flight + t.sbuf.Avail() == s.flight + s.sbuf.Avail() && t.pollOut == s.pollOut
  {
    var n := Portion(|s.sbuf.Avail()|, mood);
    var a := s.sbuf.Avail();
    assert a == a[..n] + a[n..];
    assert s.sbuf.Get(n).0.Avail() == a[n..];
  }

  lemma EnqueueAppends(s: Sender, net: bool, h: Header, data: seq<byte>)
    requires s.Valid() && h.(count := 0).Valid() && |data| < 0x10000 && s.sbuf.Tailroom() >= HEADER_SIZE + |data|
    ensures var t := Enqueue(s, net, h, data);
            && t.sbuf.Avail() == s.sbuf.Avail() + Wire(net, Packet(h.(count := |data|), data))
            && t.pollOut && t.flight == s.flight
  {
    hide EncodeHeader;
    var head := EncodeHeader(net, h.(count := |data|));
    var b := s.sbuf.Put(head).0;
    assert b.Avail() == s.sbuf.Avail() + head;
    if data != [] {
      assert b.Put(data).0.Avail() == b.Avail() + data;
      JoinThree(s.sbuf.Avail(), head, data);
    } else {
      assert head + data == head;
    }
  }

  /** What put_packet reports: 0 if the packet is queued behind what waits; otherwise the packet is
      nowhere, and the reason is -11 if it does not fit even the empty buffer, -103 if what waited could
      not be written. */
  lemma PutPacketReports(s: Sender, net: bool, h: Header, data: seq<byte>, moods: seq<int>)
    requires s.Valid() && h.(count := 0).Valid() && |s.sbuf.mem| <= 0x10000
    ensures var (t, rc) := PutPacket(s, net, h, data, moods);
            var before, after := s.flight + s.sbuf.Avail(), t.flight + t.sbuf.Avail();
            && (rc == 0 || rc == -11 || rc == -103)
            && (rc == 0 ==> t.pollOut && |data| < 0x10000 && after == before + Wire(net, Packet(h.(count := |data|), data)))
            && (rc != 0 ==> after == before)
            && (rc == -11 ==> 12 + |data| > |s.sbuf.mem| && t.sbuf.Avail() == [])
            && (rc == 0 ==> 12 + |data| <= |s.sbuf.mem|)
            && (rc == -103 ==> t.pollOut == s.pollOut && s.sbuf.Avail() != [] && s.sbuf.tail + 12 + |data| > |s.sbuf.mem|)
  {
    hide Wire, Flush, Enqueue;
    if s.sbuf.Tailroom() >= HEADER_SIZE + |data| {
      EnqueueAppends(s, net, h, data);
      JoinThree(s.flight, s.sbuf.Avail(), Wire(net, Packet(h.(count := |data|), data)));
    } else {
      FlushReports(s, true, moods);
      var (t, rc) := Flush(s, true, moods);
      if rc == 0 {
        var u := t.(sbuf := t.sbuf.Compact());
        CompactKeepsContents(t.sbuf);
        if u.sbuf.Tailroom() >= HEADER_SIZE + |data| {
          EnqueueAppends(u, net, h, data);
          JoinThree(u.flight, [], Wire(net, Packet(h.(count := |data|), data)));
        }
      }
    }
  }

  datatype Fetched = Incomplete | Got(packet: Packet) | TooLarge

  /** ct_socket_get_packet. */
  function GetPacket(rbuf: Buf, net: bool): (r: (Buf, Fetched))
    requires rbuf.Valid()
    ensures r.0.Valid() && |r.0.mem| == |rbuf.mem|
    ensures r.1.Got? ==> r.1.packet.Valid()
  {
    var avail := rbuf.Avail();
    if |avail| < HEADER_SIZE then (rbuf, Incomplete)
    else
      var h := DecodeHeader(net, avail[..HEADER_SIZE]);
      if |avail| >= HEADER_SIZE + h.count then
        (rbuf.Get(HEADER_SIZE).0.Get(h.count).0, Got(Packet(h, avail[HEADER_SIZE..HEADER_SIZE + h.count])))
      else if |rbuf.mem| < HEADER_SIZE + h.count then (rbuf, TooLarge)
      else (rbuf, Incomplete)
  }

  /** The receiving half: the receive buffer, whether the end of the stream was seen, the octets
      in flight. */
  datatype Receiver = Receiver(rbuf: Buf, eof: bool, flight: seq<byte>) {
    predicate Valid() {
      rbuf.Valid()
    }
  }

  /** The buffer that ct_socket_filbuf reads into: compacted if it was full to the end. */
  function Readied(rbuf: Buf): (b: Buf)
    requires rbuf.Valid()
    ensures b.Valid() && |b.mem| == |rbuf.mem| && b.Avail() == rbuf.Avail()
  {
    CompactKeepsContents(rbuf);
    if rbuf.Tailroom() == 0 then rbuf.Compact() else rbuf
  }

  /** ct_socket_filbuf; mood says how much read delivers (an error if negative). An empty stream
      reads as its end. */
  function FillBuf(r: Receiver, mood: int): (q: (Receiver, int))
    requires r.Valid()
    ensures q.0.Valid() && |q.0.rbuf.mem| == |r.rbuf.mem|
  {
    var b := Readied(r.rbuf);
    var room := b.Tailroom();
    if room == 0 || mood < 0 then (r.(rbuf := b), FAILED)
    else if r.flight == [] then (Receiver(b, true, r.flight), if r.eof then FAILED else 0)
    else
      var n: int := Portion(Min(room, |r.flight|), mood);
      (Receiver(b.Put(r.flight[..n]).0, r.eof, r.flight[n..]), n)
  }

  /** What filbuf reports: how much it read; 0 when it first meets the end of the stream, and failure from
      then on; failure also if there is no room. In no case does it lose what waits in the buffer. */
  lemma FillBufReports(r: Receiver, mood: int)
    requires r.Valid() && mood >= 0
    ensures var full := |r.rbuf.Avail()| == |r.rbuf.mem|;
            var (r1, n) := FillBuf(r, mood);
            if full then n == -1 && r1.rbuf.Avail() == r.rbuf.Avail() && r1.flight == r.flight && r1.eof == r.eof
            else if r.flight == [] then
              && r1.eof && r1.rbuf.Avail() == r.rbuf.Avail() && r1.flight == []
              && n == (if r.eof then -1 else 0) && FillBuf(r1, mood).1 == -1
            else
              && 0 < n <= |r.flight| && r1.eof == r.eof && (mood > 0 ==> n <= mood)
              && r1.rbuf.Avail() == r.rbuf.Avail() + r.flight[..n] && r1.flight == r.flight[n..]
  {
  }
}
