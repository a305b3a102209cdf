/** T=0 (proto-t0.c) and the APDU cases it relies on (apdu.c), as functions of the octets the card
    sends: ISO/IEC 7816-3 sections 10.3 and 12. */
module T0Spec {
  import opened Bytes

  datatype Phase = Idle | Sending | Receiving | Confused

  // ---- the line ------------------------------------------------------------------------------

  /** input: the octets the card will send; accepts: whether the driver takes each of the next
      commands (all, once the list is used up); sent: what was sent. */
  datatype Line = Line(input: seq<byte>, accepts: seq<bool>, sent: seq<seq<byte>>) {

    function Send(data: seq<byte>): (Line, bool) {
      var ok := accepts == [] || accepts[0];
      (Line(input, if accepts == [] then [] else accepts[1..], if ok then sent + [data] else sent), ok)
    }

    function Recv(n: nat): (r: (Line, Option<seq<byte>>))
      ensures r.1.Some? ==> |r.1.value| == n
    {
      if |input| < n then (this, None) else (this.(input := input[n..]), Some(input[..n]))
    }
  }

  // ---- procedure bytes -------------------------------------------------------------------------

  const NULL_BYTE: byte := 0x60

  /** SW1: 6X or 9X. */
  predicate IsStatus(b: byte) {
    b & 0xF0 == 0x60 || b & 0xF0 == 0x90
  }

  /** The octets that announce a status word, NULL included. */
  lemma StatusOctets(b: byte)
    ensures IsStatus(b) <==> 0x60 <= b <= 0x6F || 0x90 <= b <= 0x9F
  {
  }

  /** INS, or INS with the low bit changed: transfer everything that is left. */
  predicate MeansAll(b: byte, ins: byte) {
    (b ^ ins) & 0xFE == 0
  }

  /** The complement of one of these: transfer one octet. */
  predicate MeansOne(b: byte, ins: byte) {
    (!b ^ ins) & 0xFE == 0
  }

  // ---- t0_xcv ------------------------------------------------------------------------------------

  datatype End = Answer(data: seq<byte>) | Failure(confused: bool)

  /** The loop of t0_xcv: rest is still to be sent, got was received, room is the size of the
      receive buffer, nulls counts the NULL bytes so far. */
  function Loop(phase: Phase, ins: byte, maxNulls: nat,
                rest: seq<byte>, got: seq<byte>, room: nat, nulls: nat, line: Line): (r: (End, Line))
    requires nulls <= maxNulls && |got| <= room
    requires phase != Sending ==> |got| < room
    ensures r.0.Answer? ==> |r.0.data| <= room
    decreases |rest| + (room - |got|) + (maxNulls - nulls)
  {
    var (turn, l) := TurnOf(phase, ins, rest, got, room, line);
    match turn
    case Waited =>
      if nulls + 1 > maxNulls then (Failure(true), l) else Loop(phase, ins, maxNulls, rest, got, room, nulls + 1, l)
    case MovedOn(rest', got') => Loop(phase, ins, maxNulls, rest', got', room, nulls, l)
    case Ended(data) => (Answer(data), l)
    case Stuck => (Failure(true), l)
    case Strange => (Failure(false), l)
  }

  datatype Turn = Waited | MovedOn(rest: seq<byte>, got: seq<byte>) | Ended(data: seq<byte>) | Stuck | Strange

  /** One procedure byte, and what it calls for. */
  function TurnOf(phase: Phase, ins: byte, rest: seq<byte>, got: seq<byte>, room: nat, line: Line): (r: (Turn, Line))
    requires |got| <= room && (phase != Sending ==> |got| < room)
    ensures r.0.MovedOn? ==>
              if phase == Sending then |r.0.rest| < |rest| && r.0.got == got
              else r.0.rest == rest && |got| < |r.0.got| < room
    ensures r.0.Ended? ==> |r.0.data| <= room
  {
    var (l, first) := line.Recv(1);
    if first.None? then (Stuck, l) else
    var b := first.value[0];
    if b == NULL_BYTE then (Waited, l)
    else if IsStatus(b) then
      var (end, m) := Status(b, got, room, l);
      (if end.Answer? then Ended(end.data) else Stuck, m)
    else if !MeansAll(b, ins) && !MeansOne(b, ins) then (Strange, l)
    else
      var (moved, m) := Move(phase, MeansAll(b, ins), rest, got, room, l);
      (match moved
       case Ongoing(rest', got') => MovedOn(rest', got')
       case Full(data) => Ended(data)
       case Broken => Stuck, m)
  }

  datatype Moved = Ongoing(rest: seq<byte>, got: seq<byte>) | Full(data: seq<byte>) | Broken

  /** One transfer: everything that is left, or one octet. */
  function Move(phase: Phase, all: bool, rest: seq<byte>, got: seq<byte>, room: nat, line: Line): (r: (Moved, Line))
    requires |got| <= room && (phase != Sending ==> |got| < room)
    ensures r.0.Ongoing? ==>
              if phase == Sending then |r.0.rest| < |rest| && r.0.got == got
              else r.0.rest == rest && |got| < |r.0.got| < room
    ensures r.0.Full? ==> |r.0.data| == room
  {
    if phase == Sending then
      var count := if all then |rest| else 1;
      if rest == [] then (Broken, line) else
      var (m, ok) := line.Send(rest[..count]);
      (if ok then Ongoing(rest[count..], got) else Broken, m)
    else
      var count := if all then room - |got| else 1;
      var (m, data) := line.Recv(count);
      (if data.None? then Broken
       else if |got| + count == room then Full(got + data.value)
       else Ongoing(rest, got + data.value), m)
  }

  /** SW1 was read: store it and SW2. An SW2 that does not fit is read but not kept. */
  function Status(sw1: byte, got: seq<byte>, room: nat, line: Line): (r: (End, Line))
    requires |got| <= room
    ensures r.0.Answer? ==> |r.0.data| <= room
    ensures r.0.Failure? ==> r.0.confused
  {
    if |got| == room then (Failure(true), line) else
    var (l, sw2) := line.Recv(1);
    if sw2.None? then (Failure(true), l)
    else (Answer(if |got| + 1 < room then got + [sw1] + sw2.value else got + [sw1]), l)
  }

  function Xcv(phase: Phase, maxNulls: nat, cmd: seq<byte>, room: nat, line: Line): (r: (End, Line))
    requires |cmd| >= 5 && room >= 1
    ensures r.0.Answer? ==> |r.0.data| <= room
  {
    var (l, ok) := line.Send(cmd[..5]);
    if ok then Loop(phase, cmd[1], maxNulls, cmd[5..], [], room, 0, l) else (Failure(true), l)
  }

  // ---- APDU cases (apdu.c) ------------------------------------------------------------------------

  datatype Case = Case1 | Case2S | Case3S | Case4S

  datatype Apdu = Apdu(cse: Case, lc: nat, le: nat)

  /** A length octet: 0 stands for 256. */
  function Length(b: byte): (n: nat)
    ensures 1 <= n <= 256 && n % 256 == b as int
  {
    if b as int == 0 then 256 else b as int
  }

  /** ifd_iso_apdu_parse: the case and the lengths, or None for anything else. */
  function ParseApdu(cmd: seq<byte>): (r: Option<Apdu>)
    ensures r.Some? ==> |cmd| >= 4 && r.value.le <= 256 && (r.value.lc > 0 ==> |cmd| >= 5 + r.value.lc)
    ensures r.Some? && r.value.lc == 0 ==> |cmd| == if r.value.cse.Case1? then 4 else 5
  {
    if |cmd| < 4 then None
    else if |cmd| == 4 then Some(Apdu(Case1, 0, 0))
    else if |cmd| == 5 then Some(Apdu(Case2S, 0, Length(cmd[4])))
    else
      var lc := Length(cmd[4]);
      if |cmd| == 5 + lc then Some(Apdu(Case3S, lc, 0))
      else if |cmd| == 5 + lc + 1 then Some(Apdu(Case4S, lc, Length(cmd[5 + lc])))
      else None
  }

  // ---- t0_transceive ----------------------------------------------------------------------------------

  datatype Outcome = Outcome(phase: Phase, line: Line, data: Option<seq<byte>>)

  /** Le for GET RESPONSE: the card's 61XX may shorten it. */
  function Shortened(sw: seq<byte>, le: nat): (n: nat)
    requires |sw| == 2
    ensures n <= le
  {
    if sw[0] == 0x61 && sw[1] != 0 && (sw[1] as int) < le then sw[1] as int else le
  }

  function LengthByte(le: nat): byte
    requires le <= 256
  {
    if le == 256 then 0 else ToByte(le)
  }

  function GetResponse(cla: byte, le: nat): seq<byte>
    requires le <= 256
  {
    [cla, 0xC0, 0, 0, LengthByte(le)]
  }

  /** The response was not produced: 6X other than 61. */
  predicate Refused(sw1: byte) {
    sw1 != 0x61 && sw1 & 0xF0 == 0x60
  }

  /** Exchange in which the card sends: whatever comes of it, the protocol is idle again. */
  function Fetch(maxNulls: nat, header: seq<byte>, le: nat, line: Line): Outcome
    requires |header| >= 5
  {
    var (end, l) := Xcv(Receiving, maxNulls, header, le + 2, line);
    Outcome(Idle, l, if end.Answer? then Some(end.data) else None)
  }

  /** What the receive buffer must hold for this command. */
  function Needed(cmd: seq<byte>): nat {
    match ParseApdu(cmd) case Some(a) => a.le + 2 case None => 2
  }

  function Transceive(phase: Phase, maxNulls: nat, cmd: seq<byte>, room: nat, line: Line): Outcome {
    if phase != Idle || room < 2 then Outcome(phase, line, None)
    else
      match ParseApdu(cmd)
      case None => Outcome(phase, line, None)
      case Some(a) =>
        if a.lc == 0 then
          Fetch(maxNulls, if a.cse.Case1? then cmd[..4] + [0] else cmd, a.le, line)
        else SendData(maxNulls, cmd, a, room, line)
  }

  /** A command with data; in case 4 the response is then asked for. */
  function SendData(maxNulls: nat, cmd: seq<byte>, a: Apdu, room: nat, line: Line): Outcome
    requires room >= 2 && |cmd| >= 5 + a.lc && a.le <= 256
  {
    var (end, l) := Xcv(Sending, maxNulls, cmd[..5 + a.lc], room, line);
    match end
    case Failure(confused) => Outcome(if confused then Confused else Sending, l, None)
    case Answer(sw) =>
      if |sw| > 2 then Outcome(Idle, l, Some(sw))
      else if |sw| != 2 then Outcome(Sending, l, None)
      else if a.cse.Case4S? && !Refused(sw[0]) then FetchResponse(maxNulls, cmd[0], sw, a.le, l)
      else Outcome(Idle, l, Some(sw))
  }

  function FetchResponse(maxNulls: nat, cla: byte, sw: seq<byte>, le: nat, line: Line): Outcome
    requires |sw| == 2 && le <= 256
  {
    Fetch(maxNulls, GetResponse(cla, Shortened(sw, le)), Shortened(sw, le), line)
  }
}
