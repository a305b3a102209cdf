/** proto-t0.c in its own form, tied method by method to the functions of T0Spec. */
module T0Protocol {
  import opened Bytes
  import opened Buffers
  import S = T0Spec

  /** The reader device. */
  class Device {
    var input: seq<byte>
    var accepts: seq<bool>
    var sent: seq<seq<byte>>

    ghost function Line(): S.Line
      reads this
    {
      S.Line(input, accepts, sent)
    }

    /** ifd_send_command. */
    method Send(data: seq<byte>) returns (ok: bool)
      modifies this
      ensures (Line(), ok) == old(Line()).Send(data)
    {
      ok := true;
      if accepts != [] {
        ok := accepts[0];
        accepts := accepts[1..];
      }
      if ok {
        sent := sent + [data];
      }
    }

    /** ifd_recv_response for exactly n octets. */
    method Recv(n: nat) returns (ok: bool, data: seq<byte>)
      modifies this
      ensures Line() == old(Line()).Recv(n).0 && ok == old(Line()).Recv(n).1.Some?
      ensures ok ==> data == old(Line()).Recv(n).1.value
    {
      if |input| < n {
        return false, [];
      }
      data := input[..n];
      input := input[n..];
      ok := true;
    }
  }

  /** How one pass of the loop ends. */
  datatype PassResult = NullByte | Moved | Finished | Failed | Unexpected

  /** t0_state_t. */
  class T0 {
    const dev: Device
    var phase: S.Phase
    var maxNulls: nat

    /** t0_init. */
    constructor (dev: Device)
      ensures this.dev == dev && phase == S.Idle && maxNulls == 800
    {
      this.dev, phase, maxNulls := dev, S.Idle, 800;
    }

    /** t0_send: count octets from the buffer, everything if count is negative. */
    method Send(bp: Buffer, count: int) returns (ok: bool)
      requires bp.Valid() && count != 0
      modifies dev, bp
      ensures bp.Valid()
      ensures var avail := old(bp.Value()).Avail();
              var n := if count < 0 then |avail| else count;
              if n > |avail| || avail == [] then
                !ok && dev.Line() == old(dev.Line()) && bp.Value() == old(bp.Value())
              else
                && (dev.Line(), ok) == old(dev.Line()).Send(avail[..n])
                && bp.Value() == if ok then old(bp.Value()).Get(n).0 else old(bp.Value())
    {
      var avail := bp.tail - bp.head;
      var n := if count < 0 then avail else count;
      if n > avail || avail == 0 {
        return false;
      }
      ok := dev.Send(bp.Front(n));
      if ok {
        var _, _ := bp.Get(n);
      }
    }

    /** t0_recv: count octets behind the tail, as many as fit if count is negative. Octets that do
        not fit are read but not stored. */
    method Recv(bp: Buffer, count: int) returns (ok: bool)
      requires bp.Valid() && bp.head == 0
      modifies dev, bp, bp.base
      ensures bp.Valid() && bp.head == 0
      ensures bp.base[bp.size..] == old(bp.base[bp.size..])
      ensures var room := old(bp.Value()).Tailroom();
              var n := if count < 0 then room else count;
              var r := old(dev.Line()).Recv(n);
              && dev.Line() == r.0 && ok == r.1.Some?
              && bp.Value().Avail() == old(bp.Value()).Avail() + (if ok && n <= room then r.1.value else [])
    {
      var n := if count < 0 then bp.size - bp.tail else count;
      var data;
      ok, data := dev.Recv(n);
      if ok {
        Store(bp, data);
      }
    }

    /** Octets written behind the tail, which then moves past them if they fit. */
    method Store(bp: Buffer, data: seq<byte>)
      requires bp.Valid() && bp.head == 0
      modifies bp, bp.base
      ensures bp.Valid() && bp.head == 0
      ensures bp.base[bp.size..] == old(bp.base[bp.size..])
      ensures bp.Value().Avail() == old(bp.Value()).Avail() + (if |data| <= old(bp.Value()).Tailroom() then data else [])
    {
      ghost var tail, avail := bp.tail, bp.base[..bp.tail];
      assert bp.Front(tail) == avail;
      if |data| <= bp.size - bp.tail {
        forall i | 0 <= i < |data| {
          bp.base[bp.tail + i] := data[i];
        }
        assert bp.base[..tail + |data|] == avail + data;
        var _ := bp.Extend(|data|);
        assert bp.Front(bp.tail) == avail + data;
      } else {
        var _ := bp.Extend(|data|);
      }
    }

    /** t0_xcv without block orientation. The result is the number of octets in rcv, or negative;
        on failure the phase tells whether the code calls itself confused. */
    method Xcv(cmd: array<byte>, slen: nat, rcv: array<byte>, rlen: nat) returns (rc: int)
      requires 5 <= slen <= cmd.Length && 1 <= rlen <= rcv.Length && cmd != rcv
      modifies this`phase, dev, rcv
      ensures var (end, l) := S.Xcv(old(phase), maxNulls, old(cmd[..slen]), rlen, old(dev.Line()));
              && dev.Line() == l
              && (rc >= 0 <==> end.Answer?)
              && (end.Answer? ==> rc == |end.data| && rc <= rlen && rcv[..rc] == end.data && phase == old(phase))
              && (end.Failure? ==> phase == if end.confused then S.Confused else old(phase))
    {
      hide S.Loop;
      var sbuf := new Buffer.Set(cmd, slen);
      var rbuf := new Buffer.Init(rcv, rlen);
      assert rbuf.Value().Avail() == [];
      var ok := Send(sbuf, 5);
      if !ok {
        phase := S.Confused;
        return -1;
      }
      assert sbuf.Value().Avail() == cmd[..slen][5..];
      assert cmd[..slen][1] == cmd[1];
      var answered := Loop(sbuf, rbuf, cmd[1]);
      rc := if answered then rbuf.tail - rbuf.head else -1;
      assert rbuf.Value().Avail() == rcv[..rbuf.tail];
    }

    /** The loop of t0_xcv. */
    method Loop(sbuf: Buffer, rbuf: Buffer, ins: byte) returns (answered: bool)
      requires sbuf.Valid() && rbuf.Valid() && sbuf != rbuf && sbuf.base != rbuf.base && rbuf.head == 0
      requires rbuf.tail < rbuf.size
      modifies this`phase, dev, sbuf, rbuf, rbuf.base
      ensures rbuf.Valid() && rbuf.head == 0
      ensures var (end, l) := S.Loop(old(phase), ins, maxNulls, old(sbuf.Value()).Avail(), old(rbuf.Value()).Avail(),
                                     rbuf.size, 0, old(dev.Line()));
              && dev.Line() == l && answered == end.Answer?
              && (end.Answer? ==> rbuf.Value().Avail() == end.data && phase == old(phase))
              && (end.Failure? ==> phase == if end.confused then S.Confused else old(phase))
    {
      hide S.TurnOf;
      var nullCount: nat := 0;
      ghost var was := phase;
      ghost var goal := S.Loop(phase, ins, maxNulls, sbuf.Value().Avail(), rbuf.Value().Avail(), rbuf.size, 0, dev.Line());
      var r := NullByte;
      while r == NullByte || r == Moved
        invariant sbuf.Valid() && rbuf.Valid() && rbuf.head == 0
        invariant r == NullByte || r == Moved ==>
          && nullCount <= maxNulls && phase == was && (phase != S.Sending ==> rbuf.tail < rbuf.size)
          && goal == S.Loop(phase, ins, maxNulls, sbuf.Value().Avail(), rbuf.Value().Avail(), rbuf.size, nullCount, dev.Line())
        invariant r == Finished ==> phase == was && goal == (S.Answer(rbuf.Value().Avail()), dev.Line())
        invariant r == Failed ==> phase == S.Confused && goal == (S.Failure(true), dev.Line())
        invariant r == Unexpected ==> phase == was && goal == (S.Failure(false), dev.Line())
        decreases r == NullByte || r == Moved,
                  (sbuf.tail - sbuf.head) + (rbuf.size - rbuf.tail) + (maxNulls - nullCount)
      {
        r := Pass(sbuf, rbuf, ins);
        if r == NullByte {
          nullCount := nullCount + 1;
          if nullCount > maxNulls {
            r := Failed;
          }
        }
        if r == Failed {
          phase := S.Confused;
        }
      }
      answered := r == Finished;
    }

    /** One procedure byte, and what it calls for. */
    method Pass(sbuf: Buffer, rbuf: Buffer, ins: byte) returns (r: PassResult)
      requires sbuf.Valid() && rbuf.Valid() && sbuf != rbuf && sbuf.base != rbuf.base && rbuf.head == 0
      requires phase != S.Sending ==> rbuf.tail < rbuf.size
      modifies dev, sbuf, rbuf, rbuf.base
      ensures sbuf.Valid() && rbuf.Valid() && rbuf.head == 0
      ensures var (turn, l) := S.TurnOf(phase, ins, old(sbuf.Value()).Avail(), old(rbuf.Value()).Avail(),
                                        rbuf.size, old(dev.Line()));
              && dev.Line() == l
              && match turn {
                   case Waited =>
                     r == NullByte && sbuf.Value().Avail() == old(sbuf.Value()).Avail()
                     && rbuf.Value().Avail() == old(rbuf.Value()).Avail()
                   case MovedOn(rest, got) =>
                     r == Moved && sbuf.Value().Avail() == rest && rbuf.Value().Avail() == got
                   case Ended(data) => r == Finished && rbuf.Value().Avail() == data
                   case Stuck => r == Failed
                   case Strange => r == Unexpected
                 }
    {
      hide S.IsStatus, S.MeansAll, S.MeansOne, S.Move, S.Status;
      var ok, first := dev.Recv(1);
      if !ok {
        return Failed;
      }
      var b := first[0];
      if b == S.NULL_BYTE {
        return NullByte;
      }
      if S.IsStatus(b) {
        ok := Status(rbuf, b);
        return if ok then Finished else Failed;
      }
      var count := 1;
      if S.MeansAll(b, ins) {
        count := -1;
      } else if !S.MeansOne(b, ins) {
        return Unexpected;
      }
      var more;
      ok, more := Move(sbuf, rbuf, count);
      r := if !ok then Failed else if more then Moved else Finished;
    }

    /** One transfer of t0_xcv. */
    method Move(sbuf: Buffer, rbuf: Buffer, count: int) returns (ok: bool, more: bool)
      requires sbuf.Valid() && rbuf.Valid() && sbuf != rbuf && sbuf.base != rbuf.base && rbuf.head == 0
      requires (count == -1 || count == 1) && (phase != S.Sending ==> rbuf.tail < rbuf.size)
      modifies dev, sbuf, rbuf, rbuf.base
      ensures sbuf.Valid() && rbuf.Valid() && rbuf.head == 0
      ensures rbuf.base[rbuf.size..] == old(rbuf.base[rbuf.size..])
      ensures var (moved, l) := S.Move(phase, count == -1, old(sbuf.Value()).Avail(), old(rbuf.Value()).Avail(),
                                       rbuf.size, old(dev.Line()));
              && dev.Line() == l
              && ok == !moved.Broken? && (ok ==> more == moved.Ongoing?)
              && (ok && more ==> sbuf.Value().Avail() == moved.rest && rbuf.Value().Avail() == moved.got)
              && (ok && !more ==> rbuf.Value().Avail() == moved.data)
    {
      more := true;
      ghost var was := sbuf.Value();
      if phase == S.Sending {
        GetIsDequeue(was, if count < 0 then |was.Avail()| else 1);
        ok := Send(sbuf, count);
      } else {
        ok := Recv(rbuf, count);
        more := rbuf.tail < rbuf.size;
      }
    }

    /** SW1 was read: store it, read SW2 and store that. */
    method Status(rbuf: Buffer, sw1: byte) returns (ok: bool)
      requires rbuf.Valid() && rbuf.head == 0
      modifies dev, rbuf, rbuf.base
      ensures rbuf.Valid() && rbuf.head == 0
      ensures rbuf.base[rbuf.size..] == old(rbuf.base[rbuf.size..])
      ensures var (end, l) := S.Status(sw1, old(rbuf.Value()).Avail(), rbuf.size, old(dev.Line()));
              && dev.Line() == l && ok == end.Answer?
              && (ok ==> rbuf.Value().Avail() == end.data)
    {
      PutIsEnqueue(rbuf.Value(), [sw1]);
      ok := rbuf.Put([sw1]);
      if ok {
        ok := Recv(rbuf, 1);
      }
    }

    /** t0_transceive. The command and the receive buffer must not be the same memory, and the
        receive buffer must hold Le + 2 octets (the code's check of this is commented out). */
    method Transceive(snd: array<byte>, slen: nat, rcv: array<byte>, rlen: nat) returns (rc: int)
      requires slen <= snd.Length && rlen <= rcv.Length && snd != rcv
      requires rlen >= 2 ==> S.Needed(snd[..slen]) <= rcv.Length
      modifies this`phase, dev, rcv
      ensures var o := S.Transceive(old(phase), maxNulls, old(snd[..slen]), rlen, old(dev.Line()));
              && phase == o.phase && dev.Line() == o.line
              && (rc >= 0 <==> o.data.Some?)
              && (o.data.Some? ==> rc == |o.data.value| <= rcv.Length && rcv[..rc] == o.data.value)
    {
      hide S.SendData, S.Fetch, S.ParseApdu;
      if phase != S.Idle || rlen < 2 {
        return -1;
      }
      var parsed := ParseApdu(snd, slen);
      if parsed.None? {
        return -1;
      }
      var a := parsed.value;
      if a.lc != 0 {
        rc := SendData(snd, slen, a, rcv, rlen);
      } else if a.cse.Case1? {
        var sdata := new byte[5];
        sdata[0], sdata[1], sdata[2], sdata[3], sdata[4] := snd[0], snd[1], snd[2], snd[3], 0;
        assert sdata[..5] == snd[..slen][..4] + [0];
        rc := Fetch(sdata, 5, rcv, a.le);
      } else {
        rc := Fetch(snd, slen, rcv, a.le);
      }
    }

    method SendData(snd: array<byte>, slen: nat, a: S.Apdu, rcv: array<byte>, rlen: nat) returns (rc: int)
      requires 5 + a.lc <= slen <= snd.Length && 2 <= rlen <= rcv.Length && snd != rcv
      requires a.le <= 256 && a.le + 2 <= rcv.Length
      modifies this`phase, dev, rcv
      ensures var o := S.SendData(maxNulls, old(snd[..slen]), a, rlen, old(dev.Line()));
              && phase == o.phase && dev.Line() == o.line
              && (rc >= 0 <==> o.data.Some?)
              && (o.data.Some? ==> rc == |o.data.value| <= rcv.Length && rcv[..rc] == o.data.value)
    {
      hide S.Xcv, S.Refused, S.FetchResponse;
      phase := S.Sending;
      assert snd[..slen][..5 + a.lc] == snd[..5 + a.lc];
      rc := Xcv(snd, 5 + a.lc, rcv, rlen);
      if rc < 0 {
        return;
      }
      if rc > 2 {
        phase := S.Idle;
        return;
      }
      if rc != 2 {
        return -5;
      }
      ghost var sw := rcv[..2];
      assert sw[0] == rcv[0];
      if a.cse.Case4S? && !S.Refused(rcv[0]) {
        rc := FetchResponse(snd[0], rcv, a.le);
      } else {
        phase := S.Idle;
      }
    }

    /** GET RESPONSE; rcv starts with the status word of the command. */
    method FetchResponse(cla: byte, rcv: array<byte>, le: nat) returns (rc: int)
      requires le <= 256 && le + 2 <= rcv.Length
      modifies this`phase, dev, rcv
      ensures var o := S.FetchResponse(maxNulls, cla, old(rcv[..2]), le, old(dev.Line()));
              && phase == o.phase && dev.Line() == o.line
              && (rc >= 0 <==> o.data.Some?)
              && (o.data.Some? ==> rc == |o.data.value| <= rcv.Length && rcv[..rc] == o.data.value)
    {
      hide S.Fetch, S.LengthByte;
      var n := le;
      if rcv[0] == 0x61 && rcv[1] != 0 && (rcv[1] as int) < le {
        n := rcv[1] as int;
      }
      ghost var sw := rcv[..2];
      assert sw[0] == rcv[0] && sw[1] == rcv[1];
      var sdata := new byte[5];
      sdata[0], sdata[1], sdata[2], sdata[3], sdata[4] := cla, 0xC0, 0, 0, S.LengthByte(n);
      assert sdata[..5] == S.GetResponse(cla, n);
      rc := Fetch(sdata, 5, rcv, n);
    }

    /** An exchange in which the card sends le octets and the status. */
    method Fetch(cmd: array<byte>, slen: nat, rcv: array<byte>, le: nat) returns (rc: int)
      requires 5 <= slen <= cmd.Length && le + 2 <= rcv.Length && cmd != rcv
      modifies this`phase, dev, rcv
      ensures var o := S.Fetch(maxNulls, old(cmd[..slen]), le, old(dev.Line()));
              && phase == o.phase && dev.Line() == o.line
              && (rc >= 0 <==> o.data.Some?)
              && (o.data.Some? ==> rc == |o.data.value| <= rcv.Length && rcv[..rc] == o.data.value)
    {
      hide S.Xcv;
      phase := S.Receiving;
      rc := Xcv(cmd, slen, rcv, le + 2);
      phase := S.Idle;
    }
  }

  /** ifd_iso_apdu_parse, as far as T=0 uses it. */
  method ParseApdu(data: array<byte>, len: nat) returns (apdu: Option<S.Apdu>)
    requires len <= data.Length
    ensures apdu == S.ParseApdu(data[..len])
  {
    if len < 4 {
      return None;
    }
    if len < 5 {
      return Some(S.Apdu(S.Case1, 0, 0));
    }
    var b := S.Length(data[4]);
    if len == 5 {
      return Some(S.Apdu(S.Case2S, 0, b));
    }
    if len - 5 == b {
      return Some(S.Apdu(S.Case3S, b, 0));
    }
    if len - 5 == b + 1 {
      return Some(S.Apdu(S.Case4S, b, S.Length(data[5 + b])));
    }
    apdu := None;
  }
}
