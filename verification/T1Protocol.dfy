/** proto-t1.c in its own form: a protocol object, a reader device, and block buffers that are
    overwritten in place. Every method is tied to the transition functions of T1Host. */
module T1Protocol {
  import opened Bytes
  import opened Buffers
  import opened Checksum
  import opened T1Wire
  import H = T1Host

  /** The reader device behind ifd_send_command and ifd_recv_response. */
  class Device {
    var pending: seq<byte>
    var arrivals: seq<H.Arrival>
    var sent: seq<seq<byte>>

    ghost function Line(): H.Line
      reads this
    {
      H.Line(pending, arrivals, sent)
    }

    method Send(block: array<byte>, len: nat) returns (ok: bool)
      requires len <= block.Length
      modifies this
      ensures (Line(), ok) == old(Line()).Send(block[..len])
    {
      ok := true;
      if arrivals != [] {
        var a := arrivals[0];
        arrivals := arrivals[1..];
        match a
        case Refusal => return false;
        case Octets(bytes) => pending := pending + bytes;
      }
      sent := sent + [block[..len]];
    }

    /** Reads n octets to buf from position at on, or fails. */
    method Recv(buf: array<byte>, at: nat, n: nat) returns (ok: bool)
      requires at + n <= buf.Length
      modifies this, buf
      ensures Line() == old(Line()).Recv(n).0 && ok == old(Line()).Recv(n).1.Some?
      ensures buf[..at] == old(buf[..at])
      ensures ok ==> buf[at..at + n] == old(Line()).Recv(n).1.value
    {
      if |pending| < n {
        return false;
      }
      forall i | 0 <= i < n {
        buf[at + i] := pending[i];
      }
      pending := pending[n..];
      ok := true;
    }
  }

  /** t1_state_t. */
  class T1 {
    const dev: Device
    var phase: H.Phase
    var ns: bit
    var nr: bit
    var ifsc: nat
    var wtx: byte
    var retries: nat
    var kind: Kind

    ghost predicate Valid()
      reads this
    {
      1 <= ifsc <= 255
    }

    ghost function Regs(): H.Regs
      reads this
    {
      H.Regs(phase, ns, nr, ifsc, wtx, retries, kind)
    }

    /** t1_init: the defaults of t1_set_defaults with the LRC. */
    constructor (dev: Device)
      ensures Valid() && this.dev == dev
      ensures Regs() == H.Regs(H.Sending, 0, 0, 32, 0, 3, LRC)
    {
      this.dev := dev;
      phase, ns, nr, ifsc, wtx, retries, kind := H.Sending, 0, 0, 32, 0, 3, LRC;
    }

    /** t1_set_checksum. */
    method SetChecksum(k: Kind)
      modifies this
      ensures Regs() == old(Regs()).(kind := k)
    {
      kind := k;
    }

    /** t1_compute_checksum: appends the check octets of block[..len] in place. */
    method ComputeChecksum(block: array<byte>, len: nat) returns (total: nat)
      requires len + RcBytes(kind) <= block.Length
      modifies block
      ensures total == len + RcBytes(kind)
      ensures block[..total] == old(block[..len]) + Edc(kind, old(block[..len]))
    {
      var rc;
      match kind {
        case LRC => rc := LrcCompute(block, len);
        case CRC => rc := CrcCompute(block, len);
      }
      forall i | 0 <= i < |rc| {
        block[len + i] := rc[i];
      }
      total := len + |rc|;
    }

    /** t1_verify_checksum. */
    method VerifyChecksum(block: array<byte>, len: nat) returns (ok: bool)
      requires len <= block.Length
      ensures ok == Verifies(kind, block[..len])
    {
      var m := len - RcBytes(kind);
      if m < 0 {
        return false;
      }
      var rc;
      match kind {
        case LRC => rc := LrcCompute(block, m);
        case CRC => rc := CrcCompute(block, m);
      }
      ok := block[m..len] == rc;
      assert block[..len][m..] == block[m..len] && block[..len][..m] == block[..m];
    }

    /** Prologue and information field, written at the front of block. */
    method Compose(block: array<byte>, dad: byte, pcb: byte, data: seq<byte>)
      requires |data| <= 255 && block.Length >= 260
      modifies block
      ensures block[..3 + |data|] == Body(dad, pcb, data)
    {
      hide ToByte;
      forall i | 0 <= i < |data| {
        block[3 + i] := data[i];
      }
      assert block[3..3 + |data|] == data;
      block[0], block[1], block[2] := dad, pcb, ToByte(|data|);
      assert block[..3 + |data|] == [dad, pcb, ToByte(|data|)] + block[3..3 + |data|];
    }

    /** t1_build; avail is what the buffer argument has available. */
    method Build(block: array<byte>, dad: byte, pcb: byte, avail: seq<byte>) returns (slen: nat, len: nat)
      requires Valid() && block.Length >= 260
      modifies block
      ensures slen <= 260 && block[..slen] == H.Built(Regs(), dad, pcb, avail)
      ensures len == H.BuiltLen(Regs(), avail)
    {
      hide Body, Edc, TypeOf;
      var p := pcb;
      len := |avail|;
      if len > ifsc {
        p := p | MORE_BLOCKS;
        len := ifsc;
      }
      match TypeOf(p) {
        case R => p := p | (nr << 4);
        case I => p := p | (ns << 6);
        case S =>
      }
      Compose(block, dad, p, avail[..len]);
      slen := ComputeChecksum(block, len + 3);
    }

    /** The reading half of t1_xcv. */
    method ReadBlock(block: array<byte>, rmax: nat) returns (n: int)
      requires 3 <= rmax <= block.Length
      modifies dev, block
      ensures var (l, heard) := H.ReadBlock(old(dev.Line()), kind, rmax);
              && dev.Line() == l
              && (n >= 0 <==> heard.Block?)
              && (heard.Block? ==> n == |heard.bytes| && n <= rmax && block[..n] == heard.bytes)
    {
      var ok := dev.Recv(block, 0, 3);
      if !ok {
        return -1;
      }
      assert block[..3] == block[0..3];
      n := ReadRest(block, rmax);
    }

    /** LEN and the length of the check octets decide how much follows the prologue. */
    method ReadRest(block: array<byte>, rmax: nat) returns (n: int)
      requires 3 <= rmax <= block.Length
      modifies dev, block
      ensures var (l, heard) := H.ReadRest(old(dev.Line()), old(block[..3]), kind, rmax);
              && dev.Line() == l
              && (n >= 0 <==> heard.Block?)
              && (heard.Block? ==> n == |heard.bytes| && n <= rmax && block[..n] == heard.bytes)
    {
      hide H.WellFramed;
      ghost var header, line := block[..3], dev.Line();
      ghost var goal := H.ReadRest(line, header, kind, rmax);
      var len := block[2] as int;
      assert len == header[2] as int;
      var more := len + RcBytes(kind);
      if more + 3 > rmax || len >= 254 {
        return -1;
      }
      hide RcBytes;
      ghost var (l, tail) := line.Recv(more);
      hide H.Line.Recv;
      var ok := dev.Recv(block, 3, more);
      if !ok {
        return -1;
      }
      n := more + 3;
      assert block[..n] == block[..3] + block[3..n];
      assert goal == (l, H.Block(header + tail.value));
    }

    /** One pass of the loop in t1_resynchronize. */
    method ResyncAttempt(block: array<byte>, nad: byte) returns (attempt: H.Attempt)
      requires Valid() && block.Length == 5
      modifies this`ns, this`nr, this`wtx, dev, block
      ensures (Regs(), dev.Line(), attempt) == H.ResyncAttempt(old(Regs()), nad, old(dev.Line()))
    {
      hide H.Xcv, H.ResyncBlock, Verifies;
      ns, nr := 0, 0;
      WriteResync(block, nad);
      var n := Xcv(block, 4, 4);
      if n != 4 {
        return H.Abandoned;
      }
      ghost var b := block[..4];
      assert b[1] == block[1];
      var sound := VerifyChecksum(block, 4);
      attempt := if sound && block[1] == S_BLOCK | S_RESPONSE | S_RESYNC then H.Confirmed else H.Unanswered;
    }

    method WriteResync(block: array<byte>, nad: byte)
      requires block.Length == 5
      modifies block
      ensures block[..4] == H.ResyncBlock(kind, nad)
    {
      hide Edc;
      block[0], block[1], block[2] := nad, S_BLOCK | S_RESYNC, 0;
      ghost var body := block[..3];
      var total := ComputeChecksum(block, 3);
      assert block[..4] == block[..total][..4];
      ResyncBlockIs(kind, nad, body, block[..4]);
    }

    /** t1_xcv without block orientation. The result is negative when nothing was heard. */
    method Xcv(block: array<byte>, slen: nat, rmax: nat) returns (n: int)
      requires slen <= block.Length && 3 <= rmax <= block.Length
      modifies this`wtx, dev, block
      ensures var (l, heard) := H.Xcv(old(dev.Line()), kind, old(block[..slen]), rmax);
              && dev.Line() == l
              && wtx == (if heard.NotSent? then old(wtx) else 0)
              && (n >= 0 <==> heard.Block?)
              && (heard.Block? ==> n == |heard.bytes| && n <= rmax && block[..n] == heard.bytes)
    {
      var ok := dev.Send(block, slen);
      if !ok {
        return -1;
      }
      wtx := 0;
      n := ReadBlock(block, rmax);
    }
  }

  /** How a handler leaves the switch of the loop. */
  datatype Verdict = Splendid | Again | ToResync | Complete | Fatal

  function After(v: Verdict, x: H.Xfer): H.Outcome
    requires x.regs.Valid()
  {
    match v
    case Splendid => H.Fine(x)
    case Again => H.Next(x)
    case ToResync => H.Resync(x)
    case Complete => H.Done(x)
    case Fatal => H.Fail(x.regs.(phase := H.Dead))
  }

  /** The local variables of t1_transceive. */
  class Transfer {
    const t1: T1
    const dad: byte
    const sbuf: Buffer
    const rbuf: Buffer
    const sdata: array<byte>
    var slen: nat
    var retries: nat
    var resyncs: nat
    var sentLength: nat
    var lastSend: nat

    ghost const Cmd: seq<byte>

    ghost function Footprint(): set<object>
      reads this
    {
      {this, t1, sbuf, rbuf, sdata, rbuf.base}
    }

    ghost predicate Shape()
      reads Footprint(), sbuf.base
    {
      && t1.Valid() && sbuf.Valid() && rbuf.Valid() && sbuf != rbuf
      && sdata != sbuf.base && sdata != rbuf.base && sbuf.base != rbuf.base
      && sdata.Length == 260 && slen <= 260
      && sbuf.base[..sbuf.size] == Cmd && sbuf.tail == sbuf.size && rbuf.head == 0
      && lastSend <= sbuf.tail - sbuf.head
    }

    ghost function Value(): (x: H.Xfer)
      reads Footprint(), sbuf.base
      requires Shape()
      ensures x.Valid()
    {
      H.Xfer(t1.Regs(), dad, Cmd, sbuf.head, lastSend, sentLength,
             rbuf.base[..rbuf.tail], rbuf.size, retries, resyncs, sdata[..slen])
    }

    /** Set up the buffers and send position, as t1_transceive does before its loop. */
    constructor (t1: T1, dad: byte, snd: array<byte>, sndLen: nat, rcv: array<byte>, rcvLen: nat)
      requires t1.Valid() && 0 < sndLen <= snd.Length && rcvLen <= rcv.Length && snd != rcv
      modifies t1`phase
      ensures Shape() && this.t1 == t1 && this.dad == dad && sbuf.base == snd && rbuf.base == rcv && rbuf.size == rcvLen
      ensures fresh(this) && fresh(sbuf) && fresh(rbuf) && fresh(sdata)
      ensures Value() == H.Start(old(t1.Regs()), dad, snd[..sndLen], rcvLen)
    {
      this.t1, this.dad := t1, dad;
      t1.phase := H.Sending;
      sbuf := new Buffer.Set(snd, sndLen);
      rbuf := new Buffer.Init(rcv, rcvLen);
      sdata := new byte[260];
      Cmd := snd[..sndLen];
      retries, resyncs, sentLength, lastSend, slen := t1.retries, 3, 0, 0, 0;
      new;
      SendI();
    }

    /** Queue the next I-block of the command. */
    method SendI()
      requires Shape()
      modifies this`slen, this`lastSend, sdata
      ensures Shape() && Value() == H.SendI(old(Value()))
    {
      assert sbuf.base[sbuf.head..sbuf.tail] == old(Value()).Rest();
      var n, len := t1.Build(sdata, dad, I_BLOCK, sbuf.base[sbuf.head..sbuf.tail]);
      slen, lastSend := n, len;
    }

    /** Queue a block built from pcb with the given information. */
    method Queue(pcb: byte, info: seq<byte>)
      requires Shape()
      modifies this`slen, sdata
      ensures Shape()
      ensures Value() == old(Value()).(out := H.Built(t1.Regs(), dad, pcb, info))
    {
      var n, len := t1.Build(sdata, dad, pcb, info);
      slen := n;
    }

    /** The I-block in flight was acknowledged. */
    method Acknowledge()
      requires Shape()
      modifies this`lastSend, t1`ns, sbuf
      ensures Shape() && Value() == H.Acknowledged(old(Value()))
    {
      var ok, _ := sbuf.Get(lastSend);
      lastSend := 0;
      t1.ns := t1.ns ^ 1;
      FlipIsXor(old(t1.ns));
    }

    method OnR(pcb: byte) returns (v: Verdict)
      requires Shape()
      modifies this, t1`ns, sbuf, sdata
      ensures Shape() && After(v, Value()) == H.OnR(old(Value()), pcb)
    {
      hide H.Built, SeqOf, IsError, H.NextI, H.Acknowledged;
      if IsError(pcb) {
        return ToResync;
      }
      if t1.phase == H.Receiving {
        Queue(R_BLOCK, []);
        return Splendid;
      }
      if SeqOf(pcb) != t1.ns {
        var n := lastSend;
        Acknowledge();
        sentLength := sentLength + n;
        assert Value() == H.Acknowledged(old(Value())).(sentLength := old(sentLength + lastSend));
      }
      v := NextI();
    }

    method NextI() returns (v: Verdict)
      requires Shape()
      modifies this`slen, this`lastSend, sdata
      ensures Shape() && After(v, Value()) == H.NextI(old(Value()))
    {
      hide H.Built;
      assert Value().Rest() == sbuf.base[sbuf.head..sbuf.tail];
      if sbuf.head == sbuf.tail {
        return ToResync;
      }
      SendI();
      v := Splendid;
    }

    method OnI(pcb: byte, data: seq<byte>) returns (v: Verdict)
      requires Shape()
      modifies Footprint()
      ensures Shape() && After(v, Value()) == H.OnI(old(Value()), pcb, data)
    {
      hide H.Built, H.TakeI;
      if t1.phase == H.Sending {
        Acknowledge();
      }
      t1.phase := H.Receiving;
      v := TakeI(pcb, data);
    }

    method TakeI(pcb: byte, data: seq<byte>) returns (v: Verdict)
      requires Shape()
      modifies this`slen, t1`nr, sdata, rbuf, rbuf.base
      ensures Shape() && After(v, Value()) == H.TakeI(old(Value()), pcb, data)
    {
      hide H.Built, SeqOf, HasMore, H.Accept;
      if SeqOf(pcb) != t1.nr {
        Queue(R_BLOCK | OTHER_ERROR, []);
        return Again;
      }
      v := Accept(data, HasMore(pcb));
    }

    method Accept(data: seq<byte>, more: bool) returns (v: Verdict)
      requires Shape()
      modifies this`slen, t1`nr, sdata, rbuf, rbuf.base
      ensures Shape() && After(v, Value()) == H.Accept(old(Value()), data, more)
    {
      hide H.Built;
      ExpectNext();
      var ok := Receive(data);
      if !ok {
        v := Fatal;
      } else if !more {
        v := Complete;
      } else {
        Queue(R_BLOCK, []);
        v := Splendid;
      }
    }

    method OnS(pcb: byte, data0: byte) returns (v: Verdict)
      requires Shape()
      modifies Footprint() - {rbuf.base}
      ensures Shape() && After(v, Value()) == H.OnS(old(Value()), pcb, data0)
    {
      hide H.Built, IsResponse, SType, H.OnRequest, H.Restart;
      if !IsResponse(pcb) {
        v := OnRequest(SType(pcb), data0);
      } else if t1.phase == H.Resynch {
        Restart();
        v := Again;
      } else {
        v := ToResync;
      }
    }

    /** The card confirmed the resynchronisation. */
    method Restart()
      requires Shape()
      modifies Footprint() - {rbuf.base}
      ensures Shape() && Value() == H.Restart(old(Value()))
    {
      hide H.Built;
      t1.phase := H.Sending;
      sentLength, lastSend, resyncs, retries := 0, 0, 3, t1.retries;
      rbuf.Reinit();
      assert rbuf.base[..rbuf.tail] == [];
      SendI();
    }

    method OnRequest(stype: byte, data0: byte) returns (v: Verdict)
      requires Shape()
      modifies this`slen, t1`ifsc, t1`wtx, sdata
      ensures Shape() && After(v, Value()) == H.OnRequest(old(Value()), stype, data0)
    {
      hide H.Built;
      var answer := S_BLOCK | S_RESPONSE | stype;
      v := Splendid;
      if stype == S_ABORT {
        Queue(answer, []);
      } else if stype == S_IFS {
        if data0 == 0 {
          v := ToResync;
        } else {
          H.NonzeroOctet(data0);
          t1.ifsc := data0 as int;
          Queue(answer, [data0]);
        }
      } else if stype == S_WTX {
        t1.wtx := data0;
        Queue(answer, [data0]);
      } else {
        v := ToResync;
      }
    }

    /** The resync label. */
    method Resync() returns (ok: bool)
      requires Shape()
      modifies this`slen, this`resyncs, t1`ns, t1`nr, t1`phase, sdata
      ensures Shape()
      ensures (if ok then H.Next(Value()) else H.Fail(t1.Regs())) == H.Resync(old(Value()))
    {
      hide H.Built;
      if resyncs == 0 {
        t1.phase := H.Dead;
        return false;
      }
      resyncs := resyncs - 1;
      t1.ns, t1.nr := 0, 0;
      t1.phase := H.Resynch;
      Queue(S_BLOCK | S_RESYNC, []);
      ok := true;
    }

    /** The switch on the type of a sound block. */
    method Dispatch(n: nat) returns (v: Verdict)
      requires Shape() && n <= sdata.Length && H.WellFramed(t1.kind, sdata[..n])
      modifies Footprint()
      ensures Shape() && After(v, Value()) == H.Dispatch(old(Value()), old(sdata[..n]))
    {
      hide H.Built, TypeOf, H.OnR, H.OnI, H.OnS;
      ghost var b := sdata[..n];
      var pcb := sdata[1];
      assert pcb == b[1] && sdata[2] == b[2] && sdata[3] == b[3];
      match TypeOf(pcb) {
        case R => v := OnR(pcb);
        case I =>
          var len := sdata[2] as int;
          assert 3 + len <= n;
          v := OnI(pcb, sdata[..n][3..3 + len]);
        case S => v := OnS(pcb, sdata[3]);
      }
    }

    method OnGarbled() returns (v: Verdict)
      requires Shape()
      modifies this`slen, sdata
      ensures Shape() && After(v, Value()) == H.OnGarbled(old(Value()))
    {
      hide H.Built;
      if retries == 0 || sentLength != 0 {
        v := ToResync;
      } else {
        Queue(R_BLOCK | EDC_ERROR, []);
        v := Again;
      }
    }

    /** Everything after t1_xcv returned n octets. */
    method OnBlock(n: nat) returns (v: Verdict)
      requires Shape() && n <= sdata.Length && H.WellFramed(t1.kind, sdata[..n])
      modifies Footprint()
      ensures Shape() && After(v, Value()) == H.OnBlock(old(Value()), old(sdata[..n]))
    {
      hide H.Built, Verifies, H.Dispatch, H.OnGarbled, H.WellFramed, After;
      var ok := t1.VerifyChecksum(sdata, n);
      if ok {
        v := Dispatch(n);
      } else {
        v := OnGarbled();
      }
    }

    /** Send the queued block and hear the answer; false when t1_xcv fails. */
    method Exchange() returns (n: int)
      requires Shape()
      modifies this`retries, this`slen, t1`wtx, t1`phase, t1.dev, sdata
      ensures Shape()
      ensures var (l, heard) := H.Xcv(old(t1.dev.Line()), old(t1.kind), old(sdata[..slen]), H.T1_BUFFER_SIZE);
              && t1.dev.Line() == l
              && (n >= 0 <==> heard.Block?)
              && (n >= 0 ==> n == |heard.bytes| && n <= sdata.Length && sdata[..n] == heard.bytes
                             && Value() == H.Awake(old(Value())))
              && (n < 0 ==> H.Fail(t1.Regs()) == H.Step(old(Value()), heard))
    {
      hide H.Xcv, H.OnBlock;
      retries := Dec32(retries);
      n := t1.Xcv(sdata, slen, H.T1_BUFFER_SIZE);
      slen := 0;
      assert sdata[..0] == [];
      if n < 0 {
        t1.phase := H.Dead;
      }
    }

    /** One pass of the loop. */
    method Pass() returns (v: Verdict)
      requires Shape()
      modifies Footprint(), t1.dev
      ensures Shape() && (v == Again || v == Complete || v == Fatal)
      ensures var (l, heard) := H.Xcv(old(t1.dev.Line()), old(t1.kind), old(sdata[..slen]), H.T1_BUFFER_SIZE);
              && t1.dev.Line() == l
              && (v != Fatal ==> heard.Block?)
              && (if v == Fatal then H.Fail(t1.Regs()) else After(v, Value())) == H.Step(old(Value()), heard)
    {
      hide H.Xcv, H.OnBlock, H.Resync;
      var n := Exchange();
      if n < 0 {
        return Fatal;
      }
      v := OnBlock(n);
      v := Settle(v);
    }

    /** What follows the switch. */
    method Settle(was: Verdict) returns (v: Verdict)
      requires Shape()
      modifies this`slen, this`resyncs, this`retries, t1`ns, t1`nr, t1`phase, sdata
      ensures Shape() && (v == Again || v == Complete || v == Fatal)
      ensures (if v == Fatal then H.Fail(t1.Regs()) else After(v, Value())) == After(was, old(Value()))
    {
      hide H.Resync;
      v := was;
      if was == Splendid {
        retries := t1.retries;
        v := Again;
      } else if was == ToResync {
        var ok := Resync();
        v := if ok then Again else Fatal;
      } else if was == Fatal {
        t1.phase := H.Dead;
      }
    }

    method ExpectNext()
      requires Shape()
      modifies t1`nr
      ensures Shape() && Value() == old(Value()).(regs := old(Value()).regs.(nr := Flip(old(t1.nr))))
    {
      FlipIsXor(t1.nr);
      t1.nr := t1.nr ^ 1;
    }

    /** Append to the response, if there is room. */
    method Receive(data: seq<byte>) returns (ok: bool)
      requires Shape()
      modifies rbuf, rbuf.base
      ensures Shape() && ok == (|old(Value()).rbuf| + |data| <= rbuf.size)
      ensures Value() == if ok then old(Value()).(rbuf := old(Value()).rbuf + data) else old(Value())
    {
      ghost var was := rbuf.Value();
      assert was.Compact() == was;
      ok := rbuf.Put(data);
      if ok {
        assert rbuf.base[..rbuf.tail] == rbuf.base[..rbuf.size][..rbuf.tail];
        assert rbuf.base[..rbuf.tail] == was.mem[..was.tail] + data;
      } else {
        assert rbuf.base[..rbuf.tail] == rbuf.base[..rbuf.size][..rbuf.tail] == was.mem[..was.tail];
      }
    }
  }

  /** t1_transceive. The result is the length of the response left in rcv, or negative. The command
      and the response buffer must not be the same memory. */
  method Transceive(t1: T1, dad: byte, snd: array<byte>, sndLen: nat, rcv: array<byte>, rcvLen: nat)
    returns (r: int)
    requires t1.Valid() && sndLen <= snd.Length && rcvLen <= rcv.Length && snd != rcv
    modifies t1, t1.dev, rcv
    ensures t1.Valid()
    ensures var e := H.Transceive(old(t1.Regs()), dad, old(snd[..sndLen]), rcvLen, old(t1.dev.Line()));
            && t1.Regs() == e.regs && t1.dev.Line() == e.line
            && (r >= 0 <==> e.data.Some?)
            && (e.data.Some? ==> r == |e.data.value| && r <= rcvLen && rcv[..r] == e.data.value)
  {
    hide H.Start, H.Built, H.Step, H.Xcv;
    if sndLen == 0 || t1.phase == H.Dead {
      return -1;
    }
    ghost var goal := H.Transceive(t1.Regs(), dad, snd[..sndLen], rcvLen, t1.dev.Line());
    var t := new Transfer(t1, dad, snd, sndLen, rcv, rcvLen);
    var v := Again;
    while v == Again
      invariant t.Shape() && t.t1 == t1 && t.rbuf.base == rcv && t.sbuf.base == snd && t.rbuf.size == rcvLen
      invariant fresh(t) && fresh(t.sbuf) && fresh(t.rbuf) && fresh(t.sdata)
      invariant v == Again || v == Complete || v == Fatal
      invariant v == Again ==> goal == H.Run(t.Value(), t1.dev.Line())
      invariant v == Complete ==> goal == H.Result(t1.Regs(), t1.dev.Line(), Some(t.Value().rbuf))
      invariant v == Fatal ==> goal == H.Result(t1.Regs(), t1.dev.Line(), None)
      decreases v == Again, |t1.dev.arrivals|, |t1.dev.pending|
    {
      v := t.Pass();
    }
    if v == Fatal {
      return -1;
    }
    r := t.rbuf.tail - t.rbuf.head;
  }

  /** t1_resynchronize. The block is one octet longer than the four the code declares, which is
      where its CRC would end. */
  method Resynchronize(t1: T1, nad: byte) returns (ok: bool)
    requires t1.Valid()
    modifies t1, t1.dev
    ensures (t1.Regs(), t1.dev.Line(), ok) == H.Resynchronize(old(t1.Regs()), nad, old(t1.dev.Line()))
  {
    hide H.ResyncAttempt;
    t1.dev.pending := [];
    var block := new byte[5];
    var tries: nat := 3;
    while tries > 0
      invariant t1.Valid() && tries <= 3
      invariant H.Resynchronize(old(t1.Regs()), nad, old(t1.dev.Line()))
                == H.ResyncLoop(t1.Regs(), nad, t1.dev.Line(), tries)
    {
      tries := tries - 1;
      var attempt := t1.ResyncAttempt(block, nad);
      match attempt {
        case Confirmed => return true;
        case Unanswered =>
        case Abandoned => break;
      }
    }
    t1.phase := H.Dead;
    ok := false;
  }

  lemma ResyncBlockIs(kind: Kind, nad: byte, body: seq<byte>, block: seq<byte>)
    requires body == [nad, S_BLOCK | S_RESYNC, 0] && block == (body + Edc(kind, body))[..4]
    ensures block == H.ResyncBlock(kind, nad)
  {
    assert body == Body(nad, S_BLOCK | S_RESYNC, []);
  }

  lemma FlipIsXor(b: bit)
    ensures b ^ 1 == Flip(b)
  {
  }
}
