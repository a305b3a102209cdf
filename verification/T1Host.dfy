/** The terminal's half of T=1 as a transition function: one call of Step is one pass of the
    loop in t1_transceive. */
module T1Host {
  import opened Bytes
  import opened Checksum
  import opened T1Wire

  datatype Phase = Sending | Receiving | Resynch | Dead

  /** The fields of t1_state_t that the protocol reads and writes. */
  datatype Regs = Regs(phase: Phase, ns: bit, nr: bit, ifsc: nat, wtx: byte, retries: nat, kind: Kind) {
    predicate Valid() {
      1 <= ifsc <= 255
    }
  }

  /** One exchange in progress. The send buffer is cmd from head on, out is the block that the
      next pass sends. */
  datatype Xfer = Xfer(
    regs: Regs, dad: byte,
    cmd: seq<byte>, head: nat, lastSend: nat, sentLength: nat,
    rbuf: seq<byte>, room: nat,
    retries: nat, resyncs: nat,
    out: seq<byte>)
  {
    predicate Valid() {
      && regs.Valid()
      && head <= |cmd|
      && lastSend <= |cmd| - head
      && |rbuf| <= room
    }

    function Rest(): seq<byte>
      requires head <= |cmd|
    {
      cmd[head..]
    }
  }

  /** What t1_xcv hands back for a block sent. */
  datatype Heard = NotSent | Silence | Block(bytes: seq<byte>)

  datatype Outcome = Next(x: Xfer) | Done(last: Xfer) | Fail(regs: Regs)

  /** A whole block, as the non-block-oriented t1_xcv reads it: header, then LEN and the check
      octets. It refuses LEN = 254. */
  predicate WellFramed(kind: Kind, b: seq<byte>) {
    |b| >= 3 && b[2] as int < 254 && |b| == 3 + b[2] as int + RcBytes(kind)
  }

  // ---- t1_build --------------------------------------------------------------------------

  function BuiltLen(r: Regs, avail: seq<byte>): nat {
    Min(|avail|, r.ifsc)
  }

  function Built(r: Regs, dad: byte, pcb: byte, avail: seq<byte>): (b: seq<byte>)
    requires r.Valid()
  {
    var len := BuiltLen(r, avail);
    Frame(r.kind, dad, BuiltPcb(pcb, |avail| > r.ifsc, r.ns, r.nr), avail[..len])
  }

  // ---- one pass of the loop -----------------------------------------------------------------

  /** Build and queue a block without information field. */
  function Reply(x: Xfer, pcb: byte): Xfer
    requires x.regs.Valid()
  {
    x.(out := Built(x.regs, x.dad, pcb, []))
  }

  /** Build and queue the next I-block of the command. */
  function SendI(x: Xfer): Xfer
    requires x.regs.Valid() && x.head <= |x.cmd|
  {
    x.(lastSend := BuiltLen(x.regs, x.Rest()), out := Built(x.regs, x.dad, I_BLOCK, x.Rest()))
  }

  /** The card has acknowledged the I-block in flight. */
  function Acknowledged(x: Xfer): Xfer {
    x.(head := x.head + x.lastSend, lastSend := 0, regs := x.regs.(ns := Flip(x.regs.ns)))
  }

  /** "Everything went just splendid". */
  function Fine(x: Xfer): Outcome {
    Next(x.(retries := x.regs.retries))
  }

  /** The resync label. */
  function Resync(x: Xfer): Outcome
    requires x.regs.Valid()
  {
    if x.resyncs == 0 then Fail(x.regs.(phase := Dead))
    else
      var r := x.regs.(ns := 0, nr := 0, phase := Resynch);
      Next(Reply(x.(regs := r, resyncs := x.resyncs - 1), S_BLOCK | S_RESYNC))
  }

  function OnR(x: Xfer, pcb: byte): Outcome
    requires x.Valid()
  {
    if IsError(pcb) then Resync(x)
    else if x.regs.phase == Receiving then Fine(Reply(x, R_BLOCK))
    else
      var y := if SeqOf(pcb) != x.regs.ns
               then Acknowledged(x).(sentLength := x.sentLength + x.lastSend) else x;
      NextI(y)
  }

  /** The card asks for more: if there is no more, it should not have asked. */
  function NextI(x: Xfer): Outcome
    requires x.Valid()
  {
    if x.Rest() == [] then Resync(x) else Fine(SendI(x))
  }

  function OnI(x: Xfer, pcb: byte, data: seq<byte>): Outcome
    requires x.Valid()
  {
    var y := if x.regs.phase == Sending then Acknowledged(x) else x;
    TakeI(y.(regs := y.regs.(phase := Receiving)), pcb, data)
  }

  function TakeI(x: Xfer, pcb: byte, data: seq<byte>): Outcome
    requires x.Valid()
  {
    if SeqOf(pcb) != x.regs.nr then Next(Reply(x, R_BLOCK | OTHER_ERROR))
    else Accept(x, data, HasMore(pcb))
  }

  function Accept(x: Xfer, data: seq<byte>, more: bool): Outcome
    requires x.Valid()
  {
    var y := x.(regs := x.regs.(nr := Flip(x.regs.nr)));
    if |y.rbuf| + |data| > y.room then Fail(y.regs.(phase := Dead))
    else
      var z := y.(rbuf := y.rbuf + data);
      if more then Fine(Reply(z, R_BLOCK)) else Done(z)
  }

  /** data0 is sdata[DATA], the first octet after the prologue (a check octet if LEN is 0). */
  function OnS(x: Xfer, pcb: byte, data0: byte): Outcome
    requires x.Valid()
  {
    if !IsResponse(pcb) then OnRequest(x, SType(pcb), data0)
    else if x.regs.phase == Resynch then Next(Restart(x))
    else Resync(x)
  }

  /** The card confirmed the resynchronisation. */
  function Restart(x: Xfer): Xfer
    requires x.Valid()
  {
    SendI(x.(regs := x.regs.(phase := Sending), sentLength := 0, resyncs := 3,
             retries := x.regs.retries, rbuf := []))
  }

  function OnRequest(x: Xfer, stype: byte, data0: byte): Outcome
    requires x.Valid()
  {
    var answer := S_BLOCK | S_RESPONSE | stype;
    if stype == S_ABORT then Fine(Reply(x, answer))
    else if stype == S_IFS then
      if data0 == 0 then Resync(x)
      else
        NonzeroOctet(data0);
        Fine(Respond(x.(regs := x.regs.(ifsc := data0 as int)), answer, data0))
    else if stype == S_WTX then
      Fine(Respond(x.(regs := x.regs.(wtx := data0)), answer, data0))
    else Resync(x)
  }

  /** Build and queue an S-response with one information octet. */
  function Respond(x: Xfer, pcb: byte, info: byte): Xfer
    requires x.regs.Valid()
  {
    x.(out := Built(x.regs, x.dad, pcb, [info]))
  }

  function OnBlock(x: Xfer, b: seq<byte>): Outcome
    requires x.Valid() && WellFramed(x.regs.kind, b)
  {
    if Verifies(x.regs.kind, b) then Dispatch(x, b) else OnGarbled(x)
  }

  function OnGarbled(x: Xfer): Outcome
    requires x.Valid()
  {
    if x.retries == 0 || x.sentLength != 0 then Resync(x)
    else Next(Reply(x, R_BLOCK | EDC_ERROR))
  }

  function Dispatch(x: Xfer, b: seq<byte>): Outcome
    requires x.Valid() && WellFramed(x.regs.kind, b)
  {
    match TypeOf(b[1])
    case R => OnR(x, b[1])
    case I => OnI(x, b[1], b[3..3 + b[2] as int])
    case S => OnS(x, b[1], b[3])
  }

  /** The exchange once t1_xcv has returned: one try is used up, the waiting time extension is
      spent, and the answer has overwritten the block that was sent. */
  function Awake(x: Xfer): Xfer {
    x.(retries := Dec32(x.retries), regs := x.regs.(wtx := 0), out := [])
  }

  function Step(x: Xfer, heard: Heard): Outcome
    requires x.Valid()
    requires heard.Block? ==> WellFramed(x.regs.kind, heard.bytes)
  {
    match heard
    case NotSent => Fail(x.regs.(phase := Dead))
    case Silence => Fail(x.regs.(wtx := 0, phase := Dead))
    case Block(b) => OnBlock(Awake(x), b)
  }

  /** The exchange at the top of the loop. */
  function Start(regs: Regs, dad: byte, cmd: seq<byte>, room: nat): Xfer
    requires regs.Valid()
  {
    var r := regs.(phase := Sending);
    SendI(Xfer(r, dad, cmd, 0, 0, 0, [], room, r.retries, 3, []))
  }

  // ---- the line ---------------------------------------------------------------------------------

  /** What one block sent to the reader leads to: the driver refuses it, or some octets
      (possibly none) arrive behind those not read yet. */
  datatype Arrival = Refusal | Octets(bytes: seq<byte>)

  /** The device as the protocol sees it: octets that arrived and were not read, what each
      future block will cause to arrive, and the blocks sent so far. */
  datatype Line = Line(pending: seq<byte>, arrivals: seq<Arrival>, sent: seq<seq<byte>>) {

    /** ifd_send_command. */
    function Send(block: seq<byte>): (Line, bool) {
      if arrivals == [] then (this.(sent := sent + [block]), true)
      else
        match arrivals[0]
        case Refusal => (this.(arrivals := arrivals[1..]), false)
        case Octets(bytes) => (Line(pending + bytes, arrivals[1..], sent + [block]), true)
    }

    /** ifd_recv_response for exactly n octets; fails (times out) when fewer arrive. */
    function Recv(n: nat): (Line, Option<seq<byte>>) {
      if |pending| < n then (this, None)
      else (this.(pending := pending[n..]), Some(pending[..n]))
    }
  }

  /** The reading half of t1_xcv: the prologue, then LEN and the check octets. */
  function ReadBlock(line: Line, kind: Kind, rmax: nat): (r: (Line, Heard))
    ensures r.1.Block? ==> WellFramed(kind, r.1.bytes) && |r.1.bytes| <= rmax
    ensures r.0.arrivals == line.arrivals
    ensures r.1.Block? ==> |r.0.pending| < |line.pending|
    ensures !r.1.NotSent?
  {
    var (l1, header) := line.Recv(3);
    if header.None? then (l1, Silence) else ReadRest(l1, header.value, kind, rmax)
  }

  function ReadRest(line: Line, header: seq<byte>, kind: Kind, rmax: nat): (r: (Line, Heard))
    requires |header| == 3
    ensures r.1.Block? ==> WellFramed(kind, r.1.bytes) && |r.1.bytes| <= rmax
    ensures r.0.arrivals == line.arrivals && |r.0.pending| <= |line.pending|
    ensures !r.1.NotSent?
  {
    var n := header[2] as int + RcBytes(kind);
    if n + 3 > rmax || header[2] as int >= 254 then (line, Silence) else
    var (l, tail) := line.Recv(n);
    if tail.None? then (l, Silence) else (l, Block(header + tail.value))
  }

  /** t1_xcv without block orientation. */
  function Xcv(line: Line, kind: Kind, block: seq<byte>, rmax: nat): (r: (Line, Heard))
    ensures r.1.Block? ==> WellFramed(kind, r.1.bytes) && |r.1.bytes| <= rmax
    ensures |r.0.arrivals| <= |line.arrivals|
    ensures r.1.Block? && line.arrivals == [] ==> |r.0.pending| < |line.pending| && r.0.arrivals == []
    ensures line.arrivals != [] ==> |r.0.arrivals| < |line.arrivals|
  {
    var (l, ok) := line.Send(block);
    if ok then ReadBlock(l, kind, rmax) else (l, NotSent)
  }

  const T1_BUFFER_SIZE: nat := 3 + 254 + 2

  datatype Result = Result(regs: Regs, line: Line, data: Option<seq<byte>>)

  /** The loop of t1_transceive, run to its end. */
  function Run(x: Xfer, line: Line): (r: Result)
    requires x.Valid()
    decreases |line.arrivals|, |line.pending|
  {
    var (l, heard) := Xcv(line, x.regs.kind, x.out, T1_BUFFER_SIZE);
    StepKeepsValid(x, heard);
    match Step(x, heard)
    case Next(y) => Run(y, l)
    case Done(y) => Result(y.regs, l, Some(y.rbuf))
    case Fail(r) => Result(r, l, None)
  }

  /** t1_transceive. */
  function Transceive(regs: Regs, dad: byte, cmd: seq<byte>, room: nat, line: Line): Result
    requires regs.Valid()
  {
    if cmd == [] || regs.phase == Dead then Result(regs, line, None)
    else Run(Start(regs, dad, cmd, room), line)
  }

  // ---- t1_resynchronize ---------------------------------------------------------------------------

  /** The four octets sent: an S(RESYNC request), cut short if the check code takes two octets. */
  function ResyncBlock(kind: Kind, nad: byte): (b: seq<byte>)
    ensures |b| == 4
  {
    Frame(kind, nad, S_BLOCK | S_RESYNC, [])[..4]
  }

  datatype Attempt = Confirmed | Unanswered | Abandoned

  /** Ask once and look for the confirmation. */
  function ResyncAttempt(regs: Regs, nad: byte, line: Line): (Regs, Line, Attempt) {
    var r := regs.(ns := 0, nr := 0);
    var (l, heard) := Xcv(line, r.kind, ResyncBlock(r.kind, nad), 4);
    match heard
    case NotSent => (r, l, Abandoned)
    case Silence => (r.(wtx := 0), l, Abandoned)
    case Block(b) =>
      (r.(wtx := 0), l,
       if |b| != 4 then Abandoned
       else if Verifies(r.kind, b) && b[1] == S_BLOCK | S_RESPONSE | S_RESYNC then Confirmed
       else Unanswered)
  }

  function ResyncLoop(regs: Regs, nad: byte, line: Line, tries: nat): (Regs, Line, bool)
    decreases tries
  {
    if tries == 0 then (regs.(phase := Dead), line, false)
    else
      var (r, l, attempt) := ResyncAttempt(regs, nad, line);
      match attempt
      case Confirmed => (r, l, true)
      case Unanswered => ResyncLoop(r, nad, l, tries - 1)
      case Abandoned => (r.(phase := Dead), l, false)
  }

  function Resynchronize(regs: Regs, nad: byte, line: Line): (Regs, Line, bool) {
    ResyncLoop(regs, nad, line.(pending := []), 3)
  }

  // ---- every pass keeps the exchange well-formed ----------------------------------------------------

  /** The outcome of a pass is well-formed and still about the same exchange. */
  ghost predicate Keeps(x: Xfer, o: Outcome) {
    match o
    case Next(y) => y.Valid() && y.regs.kind == x.regs.kind && y.cmd == x.cmd && y.dad == x.dad && y.room == x.room
    case Done(y) => y.Valid() && y.regs.kind == x.regs.kind && y.cmd == x.cmd && y.dad == x.dad && y.room == x.room
    case Fail(r) => r.Valid() && r.kind == x.regs.kind && r.phase == Dead
  }

  lemma ResyncKeeps(x: Xfer)
    requires x.Valid()
    ensures Keeps(x, Resync(x))
  {
    hide Built;
  }

  lemma NextIKeeps(x: Xfer)
    requires x.Valid()
    ensures Keeps(x, NextI(x))
  {
    hide Built, Resync;
    ResyncKeeps(x);
  }

  lemma OnRKeeps(x: Xfer, pcb: byte)
    requires x.Valid()
    ensures Keeps(x, OnR(x, pcb))
  {
    hide Built, SeqOf, IsError, Flip, NextI, Resync;
    ResyncKeeps(x);
    NextIKeeps(if SeqOf(pcb) != x.regs.ns
               then Acknowledged(x).(sentLength := x.sentLength + x.lastSend) else x);
  }

  lemma AcceptKeeps(x: Xfer, data: seq<byte>, more: bool)
    requires x.Valid()
    ensures Keeps(x, Accept(x, data, more))
  {
    hide Built, Flip;
  }

  lemma OnIKeeps(x: Xfer, pcb: byte, data: seq<byte>)
    requires x.Valid()
    ensures Keeps(x, OnI(x, pcb, data))
  {
    hide Built, SeqOf, HasMore, Flip, Accept;
    var y := if x.regs.phase == Sending then Acknowledged(x) else x;
    AcceptKeeps(y.(regs := y.regs.(phase := Receiving)), data, HasMore(pcb));
  }

  lemma OnSKeeps(x: Xfer, pcb: byte, data0: byte)
    requires x.Valid()
    ensures Keeps(x, OnS(x, pcb, data0))
  {
    hide Built, IsResponse, SType, OnRequest;
    OnRequestKeeps(x, SType(pcb), data0);
  }

  lemma OnRequestKeeps(x: Xfer, stype: byte, data0: byte)
    requires x.Valid()
    ensures Keeps(x, OnRequest(x, stype, data0))
  {
    hide Built;
    if data0 != 0 {
      NonzeroOctet(data0);
    }
  }

  lemma StepKeepsValid(x: Xfer, heard: Heard)
    requires x.Valid()
    requires heard.Block? ==> WellFramed(x.regs.kind, heard.bytes)
    ensures Keeps(x, Step(x, heard))
  {
    hide Built, Verifies, OnR, OnI, OnS, TypeOf;
    if heard.Block? {
      var b := heard.bytes;
      var y := Awake(x);
      if Verifies(x.regs.kind, b) {
        match TypeOf(b[1])
        case R => OnRKeeps(y, b[1]);
        case I => OnIKeeps(y, b[1], b[3..3 + b[2] as int]);
        case S => OnSKeeps(y, b[1], b[3]);
      }
    }
  }

  lemma NonzeroOctet(b: byte)
    requires b != 0
    ensures 1 <= b as int <= 255
  {
    if b as int == 0 {
      SameValue(b, 0);
    }
  }
}
