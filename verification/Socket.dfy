/** socket.c in its own form: a socket object with its two buffers, tied to SocketSpec. */
module Socket {
  import opened Bytes
  import opened Buffers
  import S = SocketSpec

  /** One direction of a stream connection: the octets written and not yet read. */
  class Stream {
    var octets: seq<byte>

    /** write(2) of a nonempty portion: fails if mood is negative, else takes some of it. */
    method Write(data: seq<byte>, mood: int) returns (n: int)
      requires data != []
      modifies this
      ensures mood < 0 ==> n < 0 && octets == old(octets)
      ensures mood >= 0 ==> n == S.Portion(|data|, mood) && octets == old(octets) + data[..n]
    {
      if mood < 0 {
        return -1;
      }
      n := S.Portion(|data|, mood);
      octets := octets + data[..n];
    }

    /** read(2) into room for max octets: 0 at the end of the stream. */
    method Read(max: nat, mood: int) returns (n: int, data: seq<byte>)
      requires max > 0
      modifies this
      ensures mood < 0 ==> n < 0 && octets == old(octets)
      ensures mood >= 0 && old(octets) == [] ==> n == 0 && octets == []
      ensures mood >= 0 && old(octets) != [] ==>
                && n == S.Portion(Min(max, |old(octets)|), mood)
                && data == old(octets)[..n] && octets == old(octets)[n..]
    {
      data := [];
      if mood < 0 {
        return -1, [];
      }
      if octets == [] {
        return 0, [];
      }
      n := S.Portion(Min(max, |octets|), mood);
      data := octets[..n];
      octets := octets[n..];
    }
  }

  /** ct_socket_t. */
  class Socket {
    const sbuf: Buffer
    const rbuf: Buffer
    const output: Stream
    const input: Stream
    const net: bool
    var eof: bool
    var pollOut: bool

    ghost predicate Valid()
      reads this, sbuf, rbuf
    {
      && sbuf.Valid() && rbuf.Valid() && sbuf != rbuf && sbuf.base != rbuf.base
      && output != input && sbuf.size <= 0x10000
    }

    ghost function Out(): S.Sender
      reads this, sbuf, sbuf.base, output
      requires sbuf.Valid()
    {
      S.Sender(sbuf.Value(), pollOut, output.octets)
    }

    ghost function In(): S.Receiver
      reads this, rbuf, rbuf.base, input
      requires rbuf.Valid()
    {
      S.Receiver(rbuf.Value(), eof, input.octets)
    }

    /** ct_socket_new with a buffer of bufsize octets for each direction, on an open connection. */
    constructor (bufsize: nat, output: Stream, input: Stream, net: bool)
      requires output != input && bufsize <= 0x10000
      ensures Valid() && this.output == output && this.input == input && this.net == net && !eof && !pollOut
      ensures fresh(sbuf) && fresh(rbuf) && fresh(sbuf.base) && fresh(rbuf.base)
      ensures sbuf.Value().Avail() == [] && rbuf.Value().Avail() == [] && sbuf.size == rbuf.size == bufsize
    {
      this.output, this.input, this.net, eof, pollOut := output, input, net, false, false;
      var p := new byte[bufsize];
      var q := new byte[bufsize];
      rbuf := new Buffer.Init(p, bufsize);
      sbuf := new Buffer.Init(q, bufsize);
    }

    /** ct_socket_flsbuf without shutdown; moods says how the writes go. */
    method FlsBuf(all: bool, moods: seq<int>) returns (rc: int)
      requires Valid()
      modifies this`pollOut, sbuf, output
      ensures Valid() && (Out(), rc) == S.Flush(old(Out()), all, moods)
    {
      var i := 0;
      rc := 0;
      ghost var goal := S.Flush(Out(), all, moods);
      while true
        invariant Valid() && 0 <= i <= |moods| && rc == 0
        invariant goal == S.Flush(Out(), all, moods[i..])
        decreases sbuf.tail - sbuf.head
      {
        var n: int := sbuf.tail - sbuf.head;
        ghost var s := Out();
        if n == 0 {
          pollOut := false;
          break;
        }
        if i == |moods| {
          return S.NOT_CONNECTED;
        }
        assert s.sbuf.Avail()[..n] == s.sbuf.Avail();
        n := output.Write(sbuf.Front(n), moods[i]);
        if n < 0 {
          return S.NOT_CONNECTED;
        }
        var _, _ := sbuf.Get(n);
        assert S.WriteSome(s, moods[i]) == Some(Out());
        i := i + 1;
        if !all {
          break;
        }
      }
    }

    /** ct_socket_put_packet; the header's count is filled in for the caller. */
    method PutPacket(hdr: S.Header, data: seq<byte>, moods: seq<int>) returns (rc: int, hdr': S.Header)
      requires Valid() && hdr.(count := 0).Valid()
      modifies this`pollOut, sbuf, sbuf.base, output
      ensures Valid() && (Out(), rc) == S.PutPacket(old(Out()), net, hdr, data, moods)
      ensures hdr' == if rc >= 0 then hdr.(count := |data|) else hdr
    {
      hide S.Flush, S.EncodeHeader;
      hdr' := hdr;
      var count := S.HEADER_SIZE + |data|;
      if sbuf.size - sbuf.tail < count {
        rc := FlsBuf(true, moods);
        if rc < 0 {
          return;
        }
        sbuf.Compact();
        if sbuf.size - sbuf.tail < count {
          return S.BUFFER_TOO_SMALL, hdr;
        }
      }
      hdr' := hdr.(count := |data|);
      Enqueue(hdr', data);
      rc := 0;
    }

    method Enqueue(hdr: S.Header, data: seq<byte>)
      requires Valid() && hdr.Valid() && hdr.count == |data|
      modifies this`pollOut, sbuf, sbuf.base
      ensures Valid() && Out() == S.Enqueue(old(Out()), net, hdr, data)
    {
      hide S.EncodeHeader;
      var ok := sbuf.Put(S.EncodeHeader(net, hdr));
      if hdr.count != 0 {
        ok := sbuf.Put(data);
      }
      pollOut := true;
    }

    /** ct_socket_get_packet: 1 and a packet, 0 if none is complete, -1 if it cannot ever be. */
    method GetPacket() returns (rc: int, hdr: S.Header, data: seq<byte>)
      requires Valid()
      modifies rbuf
      ensures Valid()
      ensures var (b, f) := S.GetPacket(old(rbuf.Value()), net);
              && rbuf.Value() == b
              && rc == (match f case Incomplete => 0 case Got(_) => 1 case TooLarge => -1)
              && (f.Got? ==> f.packet == S.Packet(hdr, data))
    {
      hide S.DecodeHeader;
      hdr, data := S.Header([], [], [], 0), [];
      var avail := rbuf.tail - rbuf.head;
      ghost var v := rbuf.Value();
      if avail < S.HEADER_SIZE {
        return 0, hdr, data;
      }
      var th := S.DecodeHeader(net, rbuf.Front(S.HEADER_SIZE));
      if avail >= S.HEADER_SIZE + th.count {
        var ok, _ := rbuf.Get(S.HEADER_SIZE);
        ok, data := rbuf.Get(th.count);
        TwoGets(v, S.HEADER_SIZE, th.count);
        return 1, th, data;
      }
      if rbuf.size < S.HEADER_SIZE + th.count {
        return -1, hdr, data;
      }
      rc := 0;
    }

    /** ct_socket_filbuf, after any wait for input; mood says how the read goes. */
    method FilBuf(mood: int) returns (rc: int)
      requires Valid()
      modifies this`eof, rbuf, rbuf.base, input
      ensures Valid() && (In(), rc) == S.FillBuf(old(In()), mood)
    {
      hide S.Readied;
      Ready();
      if rbuf.size - rbuf.tail == 0 {
        return -1;
      }
      ghost var b, flight := rbuf.Value(), input.octets;
      var data;
      rc, data := input.Read(rbuf.size - rbuf.tail, mood);
      if rc < 0 {
        rc := -1;
      } else if rc == 0 {
        rc := if eof then -1 else 0;
        eof := true;
      } else {
        var _ := rbuf.Put(data);
      }
    }

    method Ready()
      requires Valid()
      modifies rbuf, rbuf.base
      ensures Valid() && rbuf.Value() == S.Readied(old(rbuf.Value()))
    {
      if rbuf.size - rbuf.tail == 0 {
        rbuf.Compact();
      }
    }
  }
}
