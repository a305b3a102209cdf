/** T=0 against a card that keeps to ISO/IEC 7816-3 section 10.3.3, and against any card. */
module T0Delivery {
  import opened Bytes
  import opened T0Spec

  // ---- a conforming card ------------------------------------------------------------------------

  /** A procedure byte: NULL, a call for everything that is left, or a call for one octet; the two
      calls exist in two variants (INS and INS xor 1). */
  datatype Event = Null | All(variant: bit) | One(variant: bit)

  function ProcedureByte(e: Event, ins: byte): byte {
    match e
    case Null => 0x60
    case All(v) => ins ^ v
    case One(v) => !(ins ^ v)
  }

  /** The standard keeps instruction codes clear of 6X and 9X, which announce a status. */
  predicate LegalIns(ins: byte) {
    !(0x60 <= ins <= 0x6F) && !(0x90 <= ins <= 0x9F)
  }

  predicate IsStatusWord(sw: seq<byte>) {
    |sw| == 2 && (0x61 <= sw[0] <= 0x6F || 0x90 <= sw[0] <= 0x9F)
  }

  lemma ProcedureBytesRead(e: Event, ins: byte)
    requires LegalIns(ins)
    ensures var b := ProcedureByte(e, ins);
            match e {
              case Null => b == NULL_BYTE
              case All(_) => b != NULL_BYTE && !IsStatus(b) && MeansAll(b, ins)
              case One(_) => b != NULL_BYTE && !IsStatus(b) && !MeansAll(b, ins) && MeansOne(b, ins)
            }
  {
    match e
    case Null =>
    case All(v) => if v == 0 { AllRead(ins, 0); } else { AllRead(ins, 1); }
    case One(v) => if v == 0 { OneRead(ins, 0); } else { OneRead(ins, 1); }
  }

  lemma AllRead(ins: byte, v: byte)
    requires LegalIns(ins) && v <= 1
    ensures var b := ins ^ v; b != NULL_BYTE && !IsStatus(b) && MeansAll(b, ins)
  {
  }

  lemma OneRead(ins: byte, v: byte)
    requires LegalIns(ins) && v <= 1
    ensures var b := !(ins ^ v); b != NULL_BYTE && !IsStatus(b) && !MeansAll(b, ins) && MeansOne(b, ins)
  {
  }

  function Nulls(script: seq<Event>): nat {
    if script == [] then 0 else (if script[0].Null? then 1 else 0) + Nulls(script[1..])
  }

  // ---- the terminal sends -------------------------------------------------------------------------

  /** The script calls for no more than n octets in all; the card may end early. */
  predicate Calls(script: seq<Event>, n: nat)
    decreases script
  {
    if script == [] then true
    else
      match script[0]
      case Null => Calls(script[1..], n)
      case All(_) => n > 0 && Calls(script[1..], 0)
      case One(_) => n > 0 && Calls(script[1..], n - 1)
  }

  /** It calls for all n. */
  predicate CallsAll(script: seq<Event>, n: nat)
    decreases script
  {
    if script == [] then n == 0
    else
      match script[0]
      case Null => CallsAll(script[1..], n)
      case All(_) => true
      case One(_) => n > 0 && CallsAll(script[1..], n - 1)
  }

  function Procedure(script: seq<Event>, ins: byte): seq<byte> {
    if script == [] then [] else [ProcedureByte(script[0], ins)] + Procedure(script[1..], ins)
  }

  /** What the terminal sends in answer to the calls. */
  function Pieces(script: seq<Event>, data: seq<byte>): seq<seq<byte>>
    requires Calls(script, |data|)
    decreases script
  {
    if script == [] then []
    else
      match script[0]
      case Null => Pieces(script[1..], data)
      case All(_) => [data] + Pieces(script[1..], [])
      case One(_) => [data[..1]] + Pieces(script[1..], data[1..])
  }

  function Joined(pieces: seq<seq<byte>>): seq<byte> {
    if pieces == [] then [] else pieces[0] + Joined(pieces[1..])
  }

  /** The card gets octets once and in order: the data from its beginning, and all of it exactly if it
      called for all. */
  lemma {:induction false} PiecesJoin(script: seq<Event>, data: seq<byte>)
    requires Calls(script, |data|)
    ensures Joined(Pieces(script, data)) <= data
    ensures Joined(Pieces(script, data)) == data <==> CallsAll(script, |data|)
    decreases script
  {
    if script != [] {
      match script[0]
      case Null => PiecesJoin(script[1..], data);
      case All(_) =>
        PiecesJoin(script[1..], []);
        assert ([data] + Pieces(script[1..], []))[1..] == Pieces(script[1..], []);
      case One(_) =>
        PiecesJoin(script[1..], data[1..]);
        assert ([data[..1]] + Pieces(script[1..], data[1..]))[1..] == Pieces(script[1..], data[1..]);
        FirstAndRest(data, Joined(Pieces(script[1..], data[1..])));
    }
  }

  lemma FirstAndRest(data: seq<byte>, part: seq<byte>)
    requires data != [] && part <= data[1..]
    ensures data[..1] + part <= data && (data[..1] + part == data <==> part == data[1..])
  {
    assert data == data[..1] + data[1..];
    assert (data[..1] + part)[1..] == part;
  }

  /** One octet off the front of the input. */
  lemma RecvOne(line: Line, b: byte, more: seq<byte>)
    requires line.input == [b] + more
    ensures line.Recv(1) == (line.(input := more), Some([b]))
  {
    assert line.input[..1] == [b] && line.input[1..] == more;
  }

  lemma StatusRead(sw: seq<byte>, got: seq<byte>, room: nat, line: Line, more: seq<byte>)
    requires |sw| == 2 && |got| + 2 <= room && line.input == [sw[1]] + more
    ensures Status(sw[0], got, room, line) == (Answer(got + sw), line.(input := more))
  {
    RecvOne(line, sw[1], more);
    assert got + [sw[0]] + [sw[1]] == got + sw;
  }

  /** The passes of the sending loop, by the procedure byte read. */
  lemma SendPassNull(ins: byte, maxNulls: nat, data: seq<byte>, room: nat, nulls: nat, line: Line, rest: seq<byte>)
    requires nulls < maxNulls && line.input == [NULL_BYTE] + rest
    ensures Loop(Sending, ins, maxNulls, data, [], room, nulls, line)
            == Loop(Sending, ins, maxNulls, data, [], room, nulls + 1, line.(input := rest))
  {
    RecvOne(line, NULL_BYTE, rest);
  }

  lemma SendPassMove(ins: byte, maxNulls: nat, b: byte, data: seq<byte>, n: nat, room: nat, nulls: nat,
                     line: Line, rest: seq<byte>)
    requires b != NULL_BYTE && !IsStatus(b) && data != [] && nulls <= maxNulls
    requires if MeansAll(b, ins) then n == |data| else MeansOne(b, ins) && n == 1
    requires line.accepts == [] && line.input == [b] + rest
    ensures Loop(Sending, ins, maxNulls, data, [], room, nulls, line)
            == Loop(Sending, ins, maxNulls, data[n..], [], room, nulls, Line(rest, [], line.sent + [data[..n]]))
  {
    hide MeansAll, MeansOne, IsStatus;
    RecvOne(line, b, rest);
  }

  lemma SendPassStatus(ins: byte, maxNulls: nat, sw: seq<byte>, data: seq<byte>, room: nat, nulls: nat,
                       line: Line, more: seq<byte>)
    requires IsStatusWord(sw) && nulls <= maxNulls && room >= 2 && line.input == sw + more
    ensures Loop(Sending, ins, maxNulls, data, [], room, nulls, line) == (Answer(sw), line.(input := more))
  {
    hide MeansAll, MeansOne, IsStatus;
    assert line.input == [sw[0]] + ([sw[1]] + more);
    RecvOne(line, sw[0], [sw[1]] + more);
    StatusRead(sw, [], room, line.(input := [sw[1]] + more), more);
    StatusIsStatus(sw);
    assert [] + sw == sw;
  }

  /** The loop while sending: one pass per event, then the status. */
  lemma {:induction false} SendLoop(ins: byte, maxNulls: nat, script: seq<Event>, data: seq<byte>, sw: seq<byte>,
                                    room: nat, nulls: nat, line: Line, more: seq<byte>)
    requires LegalIns(ins) && IsStatusWord(sw) && Calls(script, |data|) && room >= 2
    requires nulls + Nulls(script) <= maxNulls && line.accepts == []
    requires line.input == Procedure(script, ins) + sw + more
    ensures Loop(Sending, ins, maxNulls, data, [], room, nulls, line)
            == (Answer(sw), Line(more, [], line.sent + Pieces(script, data)))
    decreases script
  {
    hide MeansAll, MeansOne, IsStatus, ProcedureByte, Loop, LegalIns;
    if script == [] {
      assert line.input == sw + more;
      SendPassStatus(ins, maxNulls, sw, data, room, nulls, line, more);
      assert line.sent + [] == line.sent;
    } else {
      var e, tail := script[0], script[1..];
      var b := ProcedureByte(e, ins);
      ProcedureBytesRead(e, ins);
      var rest := Procedure(tail, ins) + sw + more;
      JoinFour([b], Procedure(tail, ins), sw, more);
      match e
      case Null =>
        SendPassNull(ins, maxNulls, data, room, nulls, line, rest);
        SendLoop(ins, maxNulls, tail, data, sw, room, nulls + 1, line.(input := rest), more);
      case All(_) =>
        SendPassMove(ins, maxNulls, b, data, |data|, room, nulls, line, rest);
        assert data[..|data|] == data && data[|data|..] == [];
        SendLoop(ins, maxNulls, tail, [], sw, room, nulls, Line(rest, [], line.sent + [data]), more);
        JoinThree(line.sent, [data], Pieces(tail, []));
      case One(_) =>
        SendPassMove(ins, maxNulls, b, data, 1, room, nulls, line, rest);
        SendLoop(ins, maxNulls, tail, data[1..], sw, room, nulls, Line(rest, [], line.sent + [data[..1]]), more);
        JoinThree(line.sent, [data[..1]], Pieces(tail, data[1..]));
    }
  }

  lemma StatusIsStatus(sw: seq<byte>)
    requires IsStatusWord(sw)
    ensures IsStatus(sw[0]) && sw[0] != NULL_BYTE
  {
  }

  // ---- the terminal receives --------------------------------------------------------------------------

  /** What the card sends for the rest of its data: procedure bytes, single octets after a One, and
      after an All everything left together with the status. */
  function Transmission(script: seq<Event>, ins: byte, data: seq<byte>, sw: seq<byte>): seq<byte>
    decreases script
  {
    if script == [] then sw
    else
      [ProcedureByte(script[0], ins)] +
      match script[0]
      case Null => Transmission(script[1..], ins, data, sw)
      case All(_) => data + sw
      case One(_) => data[..Min(1, |data|)] + Transmission(script[1..], ins, data[Min(1, |data|)..], sw)
  }

  /** The script moves at most n octets: one by one, or the rest after an All, which then ends the
      exchange. */
  predicate Moves(script: seq<Event>, n: nat)
    decreases script
  {
    if script == [] then true
    else
      match script[0]
      case Null => Moves(script[1..], n)
      case All(_) => script[1..] == []
      case One(_) => n > 0 && Moves(script[1..], n - 1)
  }

  /** The octets of the data that it moves. */
  function Moved(script: seq<Event>, data: seq<byte>): seq<byte>
    requires Moves(script, |data|)
    decreases script
  {
    if script == [] then []
    else
      match script[0]
      case Null => Moved(script[1..], data)
      case All(_) => data
      case One(_) => data[..1] + Moved(script[1..], data[1..])
  }

  /** They are the data from its beginning, and all of it exactly if the card called for all. */
  lemma {:induction false} MovedIsPrefix(script: seq<Event>, data: seq<byte>)
    requires Moves(script, |data|)
    ensures Moved(script, data) <= data
    ensures Moved(script, data) == data <==> CallsAll(script, |data|)
    decreases script
  {
    if script != [] {
      match script[0]
      case Null => MovedIsPrefix(script[1..], data);
      case All(_) =>
      case One(_) =>
        MovedIsPrefix(script[1..], data[1..]);
        FirstAndRest(data, Moved(script[1..], data[1..]));
    }
  }

  /** The passes of the receiving loop, by the procedure byte read. */
  lemma PassNull(ins: byte, maxNulls: nat, got: seq<byte>, room: nat, nulls: nat, line: Line, rest: seq<byte>)
    requires nulls < maxNulls && |got| < room && line.input == [NULL_BYTE] + rest
    ensures Loop(Receiving, ins, maxNulls, [], got, room, nulls, line)
            == Loop(Receiving, ins, maxNulls, [], got, room, nulls + 1, line.(input := rest))
  {
    RecvOne(line, NULL_BYTE, rest);
  }

  lemma PassStatus(ins: byte, maxNulls: nat, sw: seq<byte>, got: seq<byte>, room: nat, nulls: nat, line: Line, more: seq<byte>)
    requires IsStatusWord(sw) && nulls <= maxNulls && |got| + 2 <= room && line.input == sw + more
    ensures Loop(Receiving, ins, maxNulls, [], got, room, nulls, line) == (Answer(got + sw), line.(input := more))
  {
    hide MeansAll, MeansOne, IsStatus;
    assert line.input == [sw[0]] + ([sw[1]] + more);
    RecvOne(line, sw[0], [sw[1]] + more);
    StatusRead(sw, got, room, line.(input := [sw[1]] + more), more);
    StatusIsStatus(sw);
  }

  lemma PassAll(ins: byte, maxNulls: nat, b: byte, block: seq<byte>, got: seq<byte>, room: nat, nulls: nat,
                line: Line, more: seq<byte>)
    requires b != NULL_BYTE && !IsStatus(b) && MeansAll(b, ins)
    requires nulls <= maxNulls && |got| < room == |got| + |block| && line.input == [b] + (block + more)
    ensures Loop(Receiving, ins, maxNulls, [], got, room, nulls, line) == (Answer(got + block), line.(input := more))
  {
    hide MeansAll, MeansOne, IsStatus;
    RecvOne(line, b, block + more);
    assert (block + more)[..|block|] == block && (block + more)[|block|..] == more;
  }

  lemma PassOne(ins: byte, maxNulls: nat, b: byte, x: byte, got: seq<byte>, room: nat, nulls: nat,
                line: Line, rest: seq<byte>)
    requires b != NULL_BYTE && !IsStatus(b) && !MeansAll(b, ins) && MeansOne(b, ins)
    requires nulls <= maxNulls && |got| + 1 < room && line.input == [b] + ([x] + rest)
    ensures Loop(Receiving, ins, maxNulls, [], got, room, nulls, line)
            == Loop(Receiving, ins, maxNulls, [], got + [x], room, nulls, line.(input := rest))
  {
    hide MeansAll, MeansOne, IsStatus;
    RecvOne(line, b, [x] + rest);
    RecvOne(line.(input := [x] + rest), x, rest);
  }

  /** The loop while receiving: every data octet once and in order, then the status. */
  lemma {:induction false} ReceiveLoop(ins: byte, maxNulls: nat, script: seq<Event>, data: seq<byte>, sw: seq<byte>,
                                       got: seq<byte>, room: nat, nulls: nat, line: Line, more: seq<byte>)
    requires LegalIns(ins) && IsStatusWord(sw) && Moves(script, |data|)
    requires room == |got| + |data| + 2
    requires nulls + Nulls(script) <= maxNulls
    requires line.input == Transmission(script, ins, data, sw) + more
    ensures Loop(Receiving, ins, maxNulls, [], got, room, nulls, line)
            == (Answer(got + Moved(script, data) + sw), line.(input := more))
    decreases script
  {
    hide MeansAll, MeansOne, IsStatus, ProcedureByte, Loop, Transmission, LegalIns;
    TransmissionStarts(script, ins, data, sw, more);
    if script == [] {
      assert got + Moved(script, data) == got;
      PassStatus(ins, maxNulls, sw, got, room, nulls, line, more);
    } else {
      var e, tail := script[0], script[1..];
      var b := ProcedureByte(e, ins);
      ProcedureBytesRead(e, ins);
      match e
      case Null =>
        var rest := Transmission(tail, ins, data, sw) + more;
        PassNull(ins, maxNulls, got, room, nulls, line, rest);
        ReceiveLoop(ins, maxNulls, tail, data, sw, got, room, nulls + 1, line.(input := rest), more);
      case All(_) =>
        PassAll(ins, maxNulls, b, data + sw, got, room, nulls, line, more);
        assert got + (data + sw) == got + data + sw;
      case One(_) =>
        var rest := Transmission(tail, ins, data[1..], sw) + more;
        PassOne(ins, maxNulls, b, data[0], got, room, nulls, line, rest);
        ReceiveLoop(ins, maxNulls, tail, data[1..], sw, got + [data[0]], room, nulls, line.(input := rest), more);
        assert data[..1] == [data[0]];
        JoinThree(got, [data[0]], Moved(tail, data[1..]));
    }
  }

  /** What comes first in a transmission. */
  lemma TransmissionStarts(script: seq<Event>, ins: byte, data: seq<byte>, sw: seq<byte>, more: seq<byte>)
    requires Moves(script, |data|)
    ensures var t := Transmission(script, ins, data, sw) + more;
            if script == [] then t == sw + more
            else
              var b := ProcedureByte(script[0], ins);
              match script[0]
              case Null => t == [b] + (Transmission(script[1..], ins, data, sw) + more)
              case All(_) => t == [b] + (data + sw + more)
              case One(_) =>
                data != [] && t == [b] + ([data[0]] + (Transmission(script[1..], ins, data[1..], sw) + more))
  {
    hide ProcedureByte;
    if script != [] {
      var b, tail := ProcedureByte(script[0], ins), script[1..];
      match script[0]
      case Null => JoinThree([b], Transmission(tail, ins, data, sw), more);
      case All(_) => JoinThree([b], data + sw, more);
      case One(_) =>
        assert data[..1] == [data[0]];
        JoinThree([b], [data[0]] + Transmission(tail, ins, data[1..], sw), more);
        JoinThree([data[0]], Transmission(tail, ins, data[1..], sw), more);
    }
  }

  // ---- whole commands ---------------------------------------------------------------------------------

  /** Case 3: the card gets exactly the command, the caller exactly the status word. A card that
      answers before it has called for everything gets the beginning of the command. */
  lemma Case3Delivery(maxNulls: nat, cmd: seq<byte>, room: nat, script: seq<Event>, sw: seq<byte>,
                      line: Line, more: seq<byte>)
    requires ParseApdu(cmd).Some? && ParseApdu(cmd).value.cse == Case3S && room >= 2
    requires LegalIns(cmd[1]) && IsStatusWord(sw) && Calls(script, |cmd| - 5) && Nulls(script) <= maxNulls
    requires line.accepts == [] && line.input == Procedure(script, cmd[1]) + sw + more
    ensures var o := Transceive(Idle, maxNulls, cmd, room, line);
            && o.phase == Idle && o.data == Some(sw) && o.line.input == more
            && o.line.sent == line.sent + [cmd[..5]] + Pieces(script, cmd[5..])
            && cmd[..5] + Joined(Pieces(script, cmd[5..])) <= cmd
            && (cmd[..5] + Joined(Pieces(script, cmd[5..])) == cmd <==> CallsAll(script, |cmd| - 5))
  {
    hide Loop, IsStatus;
    PiecesJoin(script, cmd[5..]);
    HeaderAndPart(cmd, Joined(Pieces(script, cmd[5..])));
    assert cmd[..|cmd|] == cmd;
    SendLoop(cmd[1], maxNulls, script, cmd[5..], sw, room, 0, Line(line.input, [], line.sent + [cmd[..5]]), more);
  }

  lemma HeaderAndPart(cmd: seq<byte>, part: seq<byte>)
    requires |cmd| >= 5 && part <= cmd[5..]
    ensures cmd[..5] + part <= cmd && (cmd[..5] + part == cmd <==> part == cmd[5..])
  {
    assert cmd == cmd[..5] + cmd[5..];
    assert (cmd[..5] + part)[5..] == part;
  }

  /** Case 2: the caller gets exactly the data that the card moved, and the status word. They are all
      the data exactly if the card called for all. */
  lemma Case2Delivery(maxNulls: nat, cmd: seq<byte>, room: nat, script: seq<Event>, data: seq<byte>, sw: seq<byte>,
                      line: Line, more: seq<byte>)
    requires ParseApdu(cmd).Some? && ParseApdu(cmd).value.cse == Case2S && |data| == ParseApdu(cmd).value.le
    requires room >= 2 && LegalIns(cmd[1]) && IsStatusWord(sw)
    requires Moves(script, |data|) && Nulls(script) <= maxNulls
    requires line.accepts == [] && line.input == Transmission(script, cmd[1], data, sw) + more
    ensures Transceive(Idle, maxNulls, cmd, room, line)
            == Outcome(Idle, Line(more, [], line.sent + [cmd]), Some(Moved(script, data) + sw))
    ensures Moved(script, data) <= data && (Moved(script, data) == data <==> CallsAll(script, |data|))
  {
    hide Loop, IsStatus;
    MovedIsPrefix(script, data);
    assert cmd[..5] == cmd && cmd[5..] == [];
    ReceiveLoop(cmd[1], maxNulls, script, data, sw, [], |data| + 2, 0,
                Line(line.input, [], line.sent + [cmd]), more);
    assert [] + Moved(script, data) == Moved(script, data);
  }

  /** The commands by their parts: a header of four octets, data behind their length, the length of the
      response (0 standing for 256). */
  lemma ApduForms(header: seq<byte>, lc: byte, data: seq<byte>, le: byte)
    requires |header| == 4 && |data| == if lc as int == 0 then 256 else lc as int
    ensures var n := if le as int == 0 then 256 else le as int;
            && ParseApdu(header) == Some(Apdu(Case1, 0, 0))
            && ParseApdu(header + [le]) == Some(Apdu(Case2S, 0, n))
            && ParseApdu(header + [lc] + data) == Some(Apdu(Case3S, |data|, 0))
            && ParseApdu(header + [lc] + data + [le]) == Some(Apdu(Case4S, |data|, n))
  {
    var case3 := header + [lc] + data;
    assert case3[4] == lc && (case3 + [le])[4] == lc && (case3 + [le])[5 + |data|] == le;
  }

  /** There are no others. */
  lemma NoOtherApdu(cmd: seq<byte>)
    ensures ParseApdu(cmd).None? <==>
              || |cmd| < 4
              || (|cmd| > 5 && var lc := if cmd[4] as int == 0 then 256 else cmd[4] as int;
                               |cmd| != 5 + lc && |cmd| != 5 + lc + 1)
  {
  }

  /** Case 1: a header with a zero length octet goes out, the status word comes back. */
  lemma Case1Delivery(maxNulls: nat, cmd: seq<byte>, room: nat, script: seq<Event>, sw: seq<byte>, line: Line, more: seq<byte>)
    requires |cmd| == 4 && room >= 2 && LegalIns(cmd[1]) && IsStatusWord(sw)
    requires Moves(script, 0) && Nulls(script) <= maxNulls
    requires line.accepts == [] && line.input == Transmission(script, cmd[1], [], sw) + more
    ensures Transceive(Idle, maxNulls, cmd, room, line)
            == Outcome(Idle, Line(more, [], line.sent + [cmd + [0]]), Some(sw))
  {
    hide Loop, IsStatus;
    var header := cmd[..4] + [0];
    assert cmd[..4] == cmd;
    assert header[..5] == header && header[5..] == [];
    ReceiveLoop(cmd[1], maxNulls, script, [], sw, [], 2, 0, Line(line.input, [], line.sent + [header]), more);
    assert [] + [] + sw == sw;
  }

  /** Case 4 is case 3 followed, unless the card refused, by the case 2 command GET RESPONSE, on
      every line whatsoever. */
  lemma Case4IsCase3ThenGetResponse(phase: Phase, maxNulls: nat, cmd: seq<byte>, room: nat, line: Line)
    requires ParseApdu(cmd).Some? && ParseApdu(cmd).value.cse == Case4S
    ensures var first := Transceive(phase, maxNulls, cmd[..|cmd| - 1], room, line);
            var whole := Transceive(phase, maxNulls, cmd, room, line);
            if first.phase == Idle && first.data.Some? && |first.data.value| == 2 && !Refused(first.data.value[0]) then
              var le := Shortened(first.data.value, ParseApdu(cmd).value.le);
              whole == Transceive(Idle, maxNulls, GetResponse(cmd[0], le), le + 2, first.line)
            else whole == first
  {
    ParseWithoutLe(cmd);
    var a := ParseApdu(cmd).value;
    hide SendData, Refused, ParseApdu, Shortened, GetResponse, Fetch;
    if phase == Idle && room >= 2 {
      SendDataWithoutLe(maxNulls, cmd, cmd[..|cmd| - 1], a, room, line);
      var first := SendData(maxNulls, cmd[..|cmd| - 1], Apdu(Case3S, a.lc, 0), room, line);
      if Continues(first) {
        ShortenedRange(first.data.value, a.le);
        GetResponseIsCase2(maxNulls, cmd[0], Shortened(first.data.value, a.le), first.line);
      }
    }
  }

  /** A status word that lets the terminal ask for the response. */
  predicate Continues(o: Outcome) {
    o.phase == Idle && o.data.Some? && |o.data.value| == 2 && !Refused(o.data.value[0])
  }

  lemma SendDataWithoutLe(maxNulls: nat, cmd: seq<byte>, case3: seq<byte>, a: Apdu, room: nat, line: Line)
    requires room >= 2 && a.cse == Case4S && |case3| == 5 + a.lc < |cmd| && a.le <= 256
    requires case3[..5 + a.lc] == cmd[..5 + a.lc]
    ensures var first := SendData(maxNulls, case3, Apdu(Case3S, a.lc, 0), room, line);
            SendData(maxNulls, cmd, a, room, line)
            == if Continues(first) then FetchResponse(maxNulls, cmd[0], first.data.value, a.le, first.line) else first
  {
    hide Xcv, Refused, FetchResponse;
  }

  lemma ParseWithoutLe(cmd: seq<byte>)
    requires ParseApdu(cmd).Some? && ParseApdu(cmd).value.cse == Case4S
    ensures var case3, lc := cmd[..|cmd| - 1], ParseApdu(cmd).value.lc;
            && ParseApdu(case3) == Some(Apdu(Case3S, lc, 0)) && lc > 0
            && case3[..5 + lc] == cmd[..5 + lc] && |case3| == 5 + lc < |cmd| && 1 <= ParseApdu(cmd).value.le <= 256
  {
  }

  lemma GetResponseIsCase2(maxNulls: nat, cla: byte, le: nat, line: Line)
    requires 1 <= le <= 256
    ensures Transceive(Idle, maxNulls, GetResponse(cla, le), le + 2, line)
            == Fetch(maxNulls, GetResponse(cla, le), le, line)
  {
    hide Xcv;
    LengthByteRead(le);
    assert ParseApdu(GetResponse(cla, le)) == Some(Apdu(Case2S, 0, le));
  }

  /** The second command of case 4 in numbers: it is left out exactly after 60 and 62 to 6F; otherwise it
      is class C0 00 00 and a length octet, which says n after 61 n with 0 < n < Le and Le after anything
      else (0 standing for 256). */
  lemma SecondCommand(cla: byte, sw: seq<byte>, le: nat)
    requires |sw| == 2 && 1 <= le <= 256
    ensures Refused(sw[0]) <==> sw[0] == 0x60 || 0x62 <= sw[0] <= 0x6F
    ensures var n := Shortened(sw, le); var c := GetResponse(cla, n);
            && n == (if sw[0] == 0x61 && 0 < sw[1] as int < le then sw[1] as int else le)
            && |c| == 5 && c[..4] == [cla, 0xC0, 0x00, 0x00] && c[4] as int == n % 256
            && ParseApdu(c) == Some(Apdu(Case2S, 0, n))
  {
    hide ToByte;
    ShortenedRange(sw, le);
    RefusedNumbers(sw[0]);
    ZeroOctet(sw[1]);
    LengthByteRead(Shortened(sw, le));
  }

  lemma RefusedNumbers(b: byte)
    ensures Refused(b) <==> b == 0x60 || 0x62 <= b <= 0x6F
  {
  }

  lemma ZeroOctet(b: byte)
    ensures b == 0 <==> b as int == 0
  {
    if b as int == 0 {
      SameValue(b, 0);
    }
  }

  lemma ShortenedRange(sw: seq<byte>, le: nat)
    requires |sw| == 2 && 1 <= le <= 256
    ensures 1 <= Shortened(sw, le) <= 256
  {
    if sw[1] as int == 0 {
      SameValue(sw[1], 0);
    }
  }

  lemma LengthByteRead(le: nat)
    requires 1 <= le <= 256
    ensures Length(LengthByte(le)) == le
  {
  }

  // ---- against any card ----------------------------------------------------------------------------------

  /** However the card behaves, t0_xcv reads no more octets than the data in flight, the NULLs it
      tolerates and a status account for. */
  lemma {:induction false} ReadsBounded(phase: Phase, ins: byte, maxNulls: nat, rest: seq<byte>, got: seq<byte>,
                                        room: nat, nulls: nat, line: Line)
    requires nulls <= maxNulls && |got| <= room && (phase != Sending ==> |got| < room)
    ensures var (_, l) := Loop(phase, ins, maxNulls, rest, got, room, nulls, line);
            |line.input| - |l.input| <= |rest| + 2 * (room - |got|) + (maxNulls - nulls) + 2
    decreases |rest| + (room - |got|) + (maxNulls - nulls)
  {
    hide TurnOf;
    TurnReads(phase, ins, rest, got, room, line);
    var (turn, l) := TurnOf(phase, ins, rest, got, room, line);
    match turn
    case Waited =>
      if nulls + 1 <= maxNulls {
        ReadsBounded(phase, ins, maxNulls, rest, got, room, nulls + 1, l);
      }
    case MovedOn(rest', got') => ReadsBounded(phase, ins, maxNulls, rest', got', room, nulls, l);
    case Ended(_) =>
    case Stuck =>
    case Strange =>
  }

  /** How much one turn reads. */
  lemma TurnReads(phase: Phase, ins: byte, rest: seq<byte>, got: seq<byte>, room: nat, line: Line)
    requires |got| <= room && (phase != Sending ==> |got| < room)
    ensures var (turn, l) := TurnOf(phase, ins, rest, got, room, line);
            var read := |line.input| - |l.input|;
            match turn
            case Waited => read <= 1
            case MovedOn(_, got') => read <= 1 + |got'| - |got|
            case Ended(_) => read <= 2 || read <= 1 + room - |got|
            case Stuck => read <= 2
            case Strange => read <= 1
  {
    hide MeansAll, MeansOne, IsStatus;
  }

  /** When a driver refuses the header of a command with data, the protocol is confused. */
  lemma RefusedHeaderConfuses(maxNulls: nat, cmd: seq<byte>, room: nat)
    requires room >= 2 && ParseApdu(cmd).Some? && ParseApdu(cmd).value.lc > 0
    ensures Transceive(Idle, maxNulls, cmd, room, Line([], [false], [])).phase == Confused
  {
    hide Loop;
  }

  /** Exactly the commands with data, given room for a status word, can leave the protocol other than
      idle. */
  lemma OnlySendingConfuses(maxNulls: nat, cmd: seq<byte>, room: nat)
    ensures (exists line :: Transceive(Idle, maxNulls, cmd, room, line).phase != Idle)
            <==> room >= 2 && ParseApdu(cmd).Some? && ParseApdu(cmd).value.lc > 0
  {
    hide Loop;
    if room >= 2 && ParseApdu(cmd).Some? && ParseApdu(cmd).value.lc > 0 {
      RefusedHeaderConfuses(maxNulls, cmd, room);
    } else {
      forall line
        ensures Transceive(Idle, maxNulls, cmd, room, line).phase == Idle
      {
      }
    }
  }

  /** A command whose data could not be handed over leaves the protocol unusable for good: every
      later command fails without anything being sent or read. */
  lemma FailedSendIsFinal(maxNulls: nat, cmd: seq<byte>, room: nat, line: Line, later: seq<byte>, room': nat, line': Line)
    ensures var o := Transceive(Idle, maxNulls, cmd, room, line);
            o.phase != Idle ==>
              && ParseApdu(cmd).Some? && ParseApdu(cmd).value.lc > 0 && o.data.None?
              && Transceive(o.phase, maxNulls, later, room', line') == Outcome(o.phase, line', None)
  {
    hide Loop;
    SendingAnswersTwo(maxNulls, cmd, room, line);
  }

  /** While sending, an answer is a two-octet status word: the code's check for anything else
      never applies. */
  lemma SendingAnswersTwo(maxNulls: nat, cmd: seq<byte>, room: nat, line: Line)
    ensures |cmd| >= 5 && room >= 2 ==>
              var (end, _) := Xcv(Sending, maxNulls, cmd, room, line);
              end.Answer? ==> |end.data| == 2
    ensures ParseApdu(cmd).Some? && ParseApdu(cmd).value.lc > 0 && room >= 2 ==>
              var (end, _) := Xcv(Sending, maxNulls, cmd[..5 + ParseApdu(cmd).value.lc], room, line);
              end.Answer? ==> |end.data| == 2
  {
    hide Loop;
    if |cmd| >= 5 && room >= 2 {
      LoopAnswersTwo(cmd[1], maxNulls, cmd[5..], room, 0, line.Send(cmd[..5]).0);
      if ParseApdu(cmd).Some? && ParseApdu(cmd).value.lc > 0 {
        var c := cmd[..5 + ParseApdu(cmd).value.lc];
        LoopAnswersTwo(c[1], maxNulls, c[5..], room, 0, line.Send(c[..5]).0);
      }
    }
  }

  lemma {:induction false} LoopAnswersTwo(ins: byte, maxNulls: nat, rest: seq<byte>, room: nat, nulls: nat, line: Line)
    requires nulls <= maxNulls && room >= 2
    ensures var (end, _) := Loop(Sending, ins, maxNulls, rest, [], room, nulls, line);
            end.Answer? ==> |end.data| == 2
    decreases |rest| + (maxNulls - nulls)
  {
    hide MeansAll, MeansOne, IsStatus;
    var (l, first) := line.Recv(1);
    if first.Some? {
      var b := first.value[0];
      if b == NULL_BYTE {
        if nulls + 1 <= maxNulls {
          LoopAnswersTwo(ins, maxNulls, rest, room, nulls + 1, l);
        }
      } else if !IsStatus(b) && (MeansAll(b, ins) || MeansOne(b, ins)) && rest != [] {
        var count := if MeansAll(b, ins) then |rest| else 1;
        LoopAnswersTwo(ins, maxNulls, rest[count..], room, nulls, l.Send(rest[..count]).0);
      }
    }
  }
}
