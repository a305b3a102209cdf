/** What the terminal's side of T=1 guarantees against any card and any line whatsoever. */
module T1Safety {
  import opened Bytes
  import opened Checksum
  import opened T1Wire
  import opened T1Host
  import opened T1Card
  import opened T1Delivery

  // ---- runs against arbitrary answers ------------------------------------------------------

  ghost predicate Framed(kind: Kind, hs: seq<Heard>) {
    forall h :: h in hs && h.Block? ==> WellFramed(kind, h.bytes)
  }

  /** The loop over a finite stretch of answers. */
  function Feed(x: Xfer, hs: seq<Heard>): Outcome
    requires x.Valid() && Framed(x.regs.kind, hs)
    decreases hs
  {
    if hs == [] then Next(x)
    else
      StepKeepsValid(x, hs[0]);
      match Step(x, hs[0])
      case Next(y) => Feed(y, hs[1..])
      case Done(y) => Done(y)
      case Fail(r) => Fail(r)
  }

  // ---- what is sent ----------------------------------------------------------------------------

  /** The block about to be sent is well-formed; if it is an I-block, it carries the next octets
      of the command, and its more-data bit is set exactly when octets remain after them. */
  ghost predicate SendsProperly(x: Xfer) {
    && x.Valid()
    && var blk := Parse(x.regs.kind, x.out);
       && blk.Some?
       && (blk.value.IBlk? ==>
             && blk.value.data == x.cmd[x.head..x.head + x.lastSend]
             && blk.value.more == (x.head + x.lastSend < |x.cmd|)
             && blk.value.seqno == x.regs.ns
             && x.lastSend == Min(x.regs.ifsc, |x.cmd| - x.head))
  }

  lemma SendISendsProperly(x: Xfer)
    requires x.regs.Valid() && x.head <= |x.cmd| && |x.rbuf| <= x.room
    ensures SendsProperly(SendI(x)) && IsI(SendI(x))
  {
    hide Parse, Built;
    ReadsI(x.regs, x.dad, x.Rest());
    var n := BuiltLen(x.regs, x.Rest());
    assert x.Rest()[..n] == x.cmd[x.head..x.head + n];
  }

  lemma ReplySendsProperly(x: Xfer, err: byte)
    requires x.Valid() && (err == 0 || err == EDC_ERROR || err == OTHER_ERROR)
    ensures SendsProperly(Reply(x, R_BLOCK | err)) && !IsI(Reply(x, R_BLOCK | err))
  {
    hide Parse, Frame, BuiltPcb;
    BuiltPcbMeans(false, x.regs.ns, x.regs.nr, 0);
    assert R_BLOCK | 0 == R_BLOCK;
    ParseEncode(x.regs.kind, x.dad, RBlk(x.regs.nr, err));
  }

  lemma SBlockSendsProperly(x: Xfer, flags: byte, stype: byte, info: seq<byte>)
    requires x.Valid() && |info| <= 1 && stype < 16 && (flags == 0 || flags == S_RESPONSE)
    ensures var y := x.(out := Built(x.regs, x.dad, S_BLOCK | flags | stype, info));
            SendsProperly(y) && !IsI(y)
  {
    hide Parse, Frame, BuiltPcb;
    var blk := SBlk(stype, flags == S_RESPONSE, info);
    SPcb(flags, stype, x.regs.ns, x.regs.nr);
    assert info[..|info|] == info;
    ParseEncode(x.regs.kind, x.dad, blk);
  }

  lemma SPcb(flags: byte, t: byte, ns: bit, nr: bit)
    requires t < 16 && (flags == 0 || flags == S_RESPONSE)
    ensures BuiltPcb(S_BLOCK | flags | t, false, ns, nr) == PcbOf(SBlk(t, flags == S_RESPONSE, []))
  {
  }

  lemma ResyncSendsProperly(x: Xfer)
    requires x.Valid()
    ensures Resync(x).Next? ==> SendsProperly(Resync(x).x) && !IsI(Resync(x).x) && Advances(x, Resync(x).x)
  {
    hide Parse, Built;
    var r := x.regs.(ns := 0, nr := 0, phase := Resynch);
    var y := x.(regs := r, resyncs := if x.resyncs == 0 then 0 else x.resyncs - 1);
    assert S_BLOCK | 0 | S_RESYNC == S_BLOCK | S_RESYNC;
    SBlockSendsProperly(y, 0, S_RESYNC, []);
  }

  /** Where a pass may leave the send position: it moves only past the block in flight, and then
      nothing is in flight. */
  ghost predicate Advances(x: Xfer, y: Xfer) {
    || (y.head == x.head && y.lastSend == x.lastSend)
    || (y.head == x.head + x.lastSend && y.lastSend == 0)
  }

  /** The same when the pass ends with a new I-block. */
  ghost predicate AdvancesToI(x: Xfer, y: Xfer) {
    y.head == x.head || y.head == x.head + x.lastSend
  }

  ghost predicate IsI(x: Xfer) {
    var blk := Parse(x.regs.kind, x.out);
    blk.Some? && blk.value.IBlk?
  }

  /** A pass that goes on sends a proper block from an admissible position. */
  ghost predicate Proceeds(x: Xfer, o: Outcome) {
    o.Next? ==>
      && SendsProperly(o.x)
      && (if IsI(o.x) then AdvancesToI(x, o.x) else Advances(x, o.x))
  }

  lemma OnRProceeds(x: Xfer, pcb: byte)
    requires x.Valid()
    ensures Proceeds(x, OnR(x, pcb))
  {
    hide Parse, Built, SeqOf, IsError, IsI, SendsProperly;
    var y := if SeqOf(pcb) != x.regs.ns
             then Acknowledged(x).(sentLength := x.sentLength + x.lastSend) else x;
    ResyncSendsProperly(x);
    ResyncSendsProperly(y);
    ReplySendsProperly(x.(retries := x.regs.retries), 0);
    assert R_BLOCK | 0 == R_BLOCK;
    SendISendsProperly(y.(retries := y.regs.retries));
  }

  lemma OnIProceeds(x: Xfer, pcb: byte, data: seq<byte>)
    requires x.Valid()
    ensures Proceeds(x, OnI(x, pcb, data))
  {
    hide Parse, Built, SeqOf, HasMore, IsI, SendsProperly;
    var y := if x.regs.phase == Sending then Acknowledged(x) else x;
    var z := y.(regs := y.regs.(phase := Receiving));
    var w := z.(regs := z.regs.(nr := Flip(z.regs.nr)), rbuf := z.rbuf + data, retries := z.regs.retries);
    ReplySendsProperly(z, OTHER_ERROR);
    if |w.rbuf| <= w.room {
      ReplySendsProperly(w, 0);
      assert R_BLOCK | 0 == R_BLOCK;
    }
  }

  lemma OnRequestProceeds(x: Xfer, stype: byte, data0: byte)
    requires x.Valid() && stype < 16
    ensures Proceeds(x, OnRequest(x, stype, data0))
  {
    hide Parse, Built, IsI, SendsProperly;
    ResyncSendsProperly(x);
    var y := x.(retries := x.regs.retries);
    SBlockSendsProperly(y, S_RESPONSE, stype, []);
    SBlockSendsProperly(y.(regs := y.regs.(wtx := data0)), S_RESPONSE, stype, [data0]);
    if data0 != 0 {
      NonzeroOctet(data0);
      SBlockSendsProperly(y.(regs := y.regs.(ifsc := data0 as int)), S_RESPONSE, stype, [data0]);
    }
  }

  lemma OnSProceeds(x: Xfer, pcb: byte, data0: byte)
    requires x.Valid()
    ensures Proceeds(x, OnS(x, pcb, data0))
  {
    hide Parse, Built, OnRequest, SType, IsResponse, IsI, SendsProperly;
    STypeSmall(pcb);
    OnRequestProceeds(x, SType(pcb), data0);
    ResyncSendsProperly(x);
    SendISendsProperly(x.(regs := x.regs.(phase := Sending), sentLength := 0, resyncs := 3,
                          retries := x.regs.retries, rbuf := []));
  }

  lemma STypeSmall(pcb: byte)
    ensures SType(pcb) < 16
  {
  }

  /** Every pass, whatever was heard. */
  lemma StepProceeds(x: Xfer, heard: Heard)
    requires x.Valid()
    requires heard.Block? ==> WellFramed(x.regs.kind, heard.bytes)
    ensures Proceeds(x, Step(x, heard))
  {
    hide Parse, Built, Verifies, OnR, OnI, OnS, TypeOf, IsI, SendsProperly;
    if heard.Block? {
      var b := heard.bytes;
      var y := Awake(x);
      if !Verifies(x.regs.kind, b) {
        ResyncSendsProperly(y);
        ReplySendsProperly(y, EDC_ERROR);
      } else {
        match TypeOf(b[1])
        case R => OnRProceeds(y, b[1]);
        case I => OnIProceeds(y, b[1], b[3..3 + b[2] as int]);
        case S => OnSProceeds(y, b[1], b[3]);
      }
    }
  }

  /** The I-blocks of a run, in order: where each starts and how long it is. */
  ghost function Offers(x: Xfer, hs: seq<Heard>): seq<(nat, nat)>
    requires x.Valid() && Framed(x.regs.kind, hs)
    decreases hs
  {
    (if IsI(x) then [(x.head, x.lastSend)] else []) +
    if hs == [] then []
    else
      StepKeepsValid(x, hs[0]);
      match Step(x, hs[0])
      case Next(y) => Offers(y, hs[1..])
      case Done(_) => []
      case Fail(_) => []
  }

  /** Each block starts where the one before it started or ended, the first at start or start + len. */
  ghost predicate Contiguous(offers: seq<(nat, nat)>, start: nat, len: nat)
    decreases offers
  {
    offers == [] ||
    ((offers[0].0 == start || offers[0].0 == start + len) && Contiguous(offers[1..], offers[0].0, offers[0].1))
  }

  /** x has not moved on since an I-block of len octets at start, or is just past it. */
  ghost predicate Since(x: Xfer, start: nat, len: nat) {
    (x.head == start && x.lastSend == len) || (x.head == start + len && x.lastSend == 0)
  }

  /** Against any card: successive I-blocks repeat or continue the command, never skip. */
  lemma {:induction false} OffersContiguous(x: Xfer, hs: seq<Heard>, start: nat, len: nat)
    requires SendsProperly(x) && Framed(x.regs.kind, hs)
    requires if IsI(x) then x.head == start || x.head == start + len else Since(x, start, len)
    ensures Contiguous(Offers(x, hs), start, len)
    decreases hs
  {
    hide Parse, Step, IsI;
    var (start', len') := if IsI(x) then (x.head, x.lastSend) else (start, len);
    if hs != [] {
      StepKeepsValid(x, hs[0]);
      StepProceeds(x, hs[0]);
      match Step(x, hs[0])
      case Next(y) =>
        OffersContiguous(y, hs[1..], start', len');
        var tail := Offers(y, hs[1..]);
        assert Offers(x, hs) == (if IsI(x) then [(x.head, x.lastSend)] else []) + tail;
        if IsI(x) {
          assert ([(x.head, x.lastSend)] + tail)[1..] == tail;
        } else {
          assert [] + tail == tail;
        }
      case Done(_) =>
      case Fail(_) =>
    }
  }

  /** In every state a run reaches, the block sent is proper. */
  lemma {:induction false} RunSendsProperly(x: Xfer, hs: seq<Heard>)
    requires SendsProperly(x) && Framed(x.regs.kind, hs)
    ensures Feed(x, hs).Next? ==> SendsProperly(Feed(x, hs).x)
    decreases hs
  {
    hide Parse, Step;
    if hs != [] {
      StepKeepsValid(x, hs[0]);
      StepProceeds(x, hs[0]);
      if Step(x, hs[0]).Next? {
        RunSendsProperly(Step(x, hs[0]).x, hs[1..]);
      }
    }
  }

  /** From the start of an exchange: the I-blocks begin with the command's first octet. */
  lemma TransceiveOffers(regs: Regs, dad: byte, cmd: seq<byte>, room: nat, hs: seq<Heard>)
    requires regs.Valid() && cmd != [] && Framed(regs.kind, hs)
    ensures var x := Start(regs, dad, cmd, room);
            && SendsProperly(x)
            && Contiguous(Offers(x, hs), 0, 0)
            && (Feed(x, hs).Next? ==> SendsProperly(Feed(x, hs).x))
  {
    hide Parse, Built, Step, IsI, Offers, Feed;
    var r := regs.(phase := Sending);
    SendISendsProperly(Xfer(r, dad, cmd, 0, 0, 0, [], room, r.retries, 3, []));
    OffersContiguous(Start(regs, dad, cmd, room), hs, 0, 0);
    RunSendsProperly(Start(regs, dad, cmd, room), hs);
  }

  // ---- what is received ----------------------------------------------------------------------------------

  /** What a pass does to the receive buffer. */
  datatype Entry = Took(seqno: bit, payload: seq<byte>) | Asked | Cleared | Nothing

  /** Read off the blocks on the line: a resynchronisation is requested; an I-block with the
      number expected arrives; an S-response arrives while a resynchronisation is under way. */
  ghost function EntryOf(x: Xfer, heard: Heard): Entry
    requires x.Valid()
    requires heard.Block? ==> WellFramed(x.regs.kind, heard.bytes)
  {
    var o := Step(x, heard);
    var blk := if heard.Block? then Parse(x.regs.kind, heard.bytes) else None;
    if o.Next? && Parse(x.regs.kind, o.x.out) == Some(SBlk(S_RESYNC, false, [])) then Asked
    else if blk.None? then Nothing
    else
      match blk.value
      case IBlk(n, _, data) => if n == x.regs.nr then Took(n, data) else Nothing
      case SBlk(_, response, _) => if response && x.regs.phase == Resynch then Cleared else Nothing
      case RBlk(_, _) => Nothing
  }

  ghost function Journal(x: Xfer, hs: seq<Heard>): seq<Entry>
    requires x.Valid() && Framed(x.regs.kind, hs)
    decreases hs
  {
    if hs == [] then []
    else
      StepKeepsValid(x, hs[0]);
      [EntryOf(x, hs[0])] +
      match Step(x, hs[0])
      case Next(y) => Journal(y, hs[1..])
      case Done(_) => []
      case Fail(_) => []
  }

  /** The payloads taken since the buffer was last cleared. */
  function Collected(before: seq<byte>, log: seq<Entry>): seq<byte>
    decreases log
  {
    if log == [] then before
    else
      match log[0]
      case Took(_, payload) => Collected(before + payload, log[1..])
      case Cleared => Collected([], log[1..])
      case _ => Collected(before, log[1..])
  }

  /** Numbers alternate from the one expected; a resynchronisation request starts again at 0. */
  predicate Alternates(expected: bit, log: seq<Entry>)
    decreases log
  {
    log == [] ||
    match log[0]
    case Took(n, _) => n == expected && Alternates(Flip(expected), log[1..])
    case Asked => Alternates(0, log[1..])
    case _ => Alternates(expected, log[1..])
  }

  /** One pass does to buffer and number exactly what its entry says. */
  ghost predicate Accounts(x: Xfer, y: Xfer, entry: Entry) {
    match entry
    case Took(n, data) => n == x.regs.nr && y.regs.nr == Flip(n) && y.rbuf == x.rbuf + data
    case Asked => y.regs.nr == 0 && y.rbuf == x.rbuf
    case Cleared => y.regs.nr == x.regs.nr && y.rbuf == []
    case Nothing => y.regs.nr == x.regs.nr && y.rbuf == x.rbuf
  }

  // Which handler leaves which trace.

  ghost predicate Untouched(x: Xfer, o: Outcome) {
    match o
    case Next(y) => !AsksResync(y) && y.regs.nr == x.regs.nr && y.rbuf == x.rbuf
    case Done(y) => false
    case Fail(_) => true
  }

  ghost predicate AsksResync(x: Xfer) {
    Parse(x.regs.kind, x.out) == Some(SBlk(S_RESYNC, false, []))
  }

  ghost predicate Resyncing(x: Xfer, o: Outcome) {
    match o
    case Next(y) => AsksResync(y) && y.regs.nr == 0 && y.rbuf == x.rbuf
    case Done(y) => false
    case Fail(_) => true
  }

  lemma ResyncTrace(x: Xfer)
    requires x.Valid()
    ensures Resyncing(x, Resync(x))
  {
    hide Parse, Frame, BuiltPcb;
    var r := x.regs.(ns := 0, nr := 0, phase := Resynch);
    BuiltPcbMeans(false, r.ns, r.nr, 0);
    ParseEncode(x.regs.kind, x.dad, SBlk(S_RESYNC, false, []));
  }

  lemma ReplyTrace(x: Xfer, err: byte)
    requires x.Valid() && (err == 0 || err == EDC_ERROR || err == OTHER_ERROR)
    ensures !AsksResync(Reply(x, R_BLOCK | err))
  {
    hide Parse, Frame, BuiltPcb;
    BuiltPcbMeans(false, x.regs.ns, x.regs.nr, 0);
    assert R_BLOCK | 0 == R_BLOCK;
    ParseEncode(x.regs.kind, x.dad, RBlk(x.regs.nr, err));
  }

  lemma SendITrace(x: Xfer)
    requires x.regs.Valid() && x.head <= |x.cmd|
    ensures !AsksResync(SendI(x))
  {
    hide Parse, Built;
    ReadsI(x.regs, x.dad, x.Rest());
  }

  lemma AnswerTrace(x: Xfer, stype: byte, info: seq<byte>)
    requires x.Valid() && |info| <= 1 && stype < 16
    ensures !AsksResync(x.(out := Built(x.regs, x.dad, S_BLOCK | S_RESPONSE | stype, info)))
  {
    hide Parse, Frame, BuiltPcb;
    SPcb(S_RESPONSE, stype, x.regs.ns, x.regs.nr);
    assert info[..|info|] == info;
    ParseEncode(x.regs.kind, x.dad, SBlk(stype, true, info));
  }

  lemma OnRTrace(x: Xfer, pcb: byte)
    requires x.Valid()
    ensures Untouched(x, OnR(x, pcb)) || Resyncing(x, OnR(x, pcb))
  {
    hide Parse, Built, SeqOf, IsError, AsksResync;
    var y := if SeqOf(pcb) != x.regs.ns
             then Acknowledged(x).(sentLength := x.sentLength + x.lastSend) else x;
    ResyncTrace(x);
    ResyncTrace(y);
    ReplyTrace(x.(retries := x.regs.retries), 0);
    assert R_BLOCK | 0 == R_BLOCK;
    SendITrace(y.(retries := y.regs.retries));
  }

  lemma OnITrace(x: Xfer, pcb: byte, data: seq<byte>)
    requires x.Valid()
    ensures match OnI(x, pcb, data)
            case Next(y) => !AsksResync(y) && Accounts(x, y, if SeqOf(pcb) == x.regs.nr then Took(x.regs.nr, data) else Nothing)
            case Done(y) => Accounts(x, y, Took(x.regs.nr, data)) && SeqOf(pcb) == x.regs.nr
            case Fail(_) => true
  {
    hide Parse, Built, SeqOf, HasMore, AsksResync;
    var y := if x.regs.phase == Sending then Acknowledged(x) else x;
    var z := y.(regs := y.regs.(phase := Receiving));
    var w := z.(regs := z.regs.(nr := Flip(z.regs.nr)), rbuf := z.rbuf + data, retries := z.regs.retries);
    ReplyTrace(z, OTHER_ERROR);
    if |w.rbuf| <= w.room {
      ReplyTrace(w, 0);
      assert R_BLOCK | 0 == R_BLOCK;
    }
  }

  lemma OnRequestTrace(x: Xfer, stype: byte, data0: byte)
    requires x.Valid() && stype < 16
    ensures Untouched(x, OnRequest(x, stype, data0)) || Resyncing(x, OnRequest(x, stype, data0))
  {
    hide Parse, Built, AsksResync;
    ResyncTrace(x);
    var y := x.(retries := x.regs.retries);
    AnswerTrace(y, stype, []);
    AnswerTrace(y.(regs := y.regs.(wtx := data0)), stype, [data0]);
    if data0 != 0 {
      NonzeroOctet(data0);
      AnswerTrace(y.(regs := y.regs.(ifsc := data0 as int)), stype, [data0]);
    }
  }

  lemma OnSTrace(x: Xfer, pcb: byte, data0: byte)
    requires x.Valid()
    ensures var o := OnS(x, pcb, data0);
            if IsResponse(pcb) && x.regs.phase == Resynch
            then o.Next? && !AsksResync(o.x) && Accounts(x, o.x, Cleared)
            else Untouched(x, o) || Resyncing(x, o)
  {
    hide Parse, Built, OnRequest, SType, IsResponse, AsksResync;
    STypeSmall(pcb);
    OnRequestTrace(x, SType(pcb), data0);
    ResyncTrace(x);
    SendITrace(x.(regs := x.regs.(phase := Sending), sentLength := 0, resyncs := 3,
                  retries := x.regs.retries, rbuf := []));
  }

  /** How a framed block parses, in the terms the handlers use. */
  lemma ParseFramed(kind: Kind, b: seq<byte>)
    requires WellFramed(kind, b)
    ensures Verifies(kind, b) ==>
      match TypeOf(b[1])
      case I => Parse(kind, b) == Some(IBlk(SeqOf(b[1]), HasMore(b[1]), b[3..3 + b[2] as int]))
      case R => Parse(kind, b).None? || Parse(kind, b).value.RBlk?
      case S => Parse(kind, b) == Some(SBlk(SType(b[1]), IsResponse(b[1]), b[3..3 + b[2] as int]))
    ensures !Verifies(kind, b) ==> Parse(kind, b).None?
  {
    hide Verifies, TypeOf, SeqOf, HasMore, SType, IsResponse;
  }

  ghost predicate Accounted(x: Xfer, heard: Heard)
    requires x.Valid()
    requires heard.Block? ==> WellFramed(x.regs.kind, heard.bytes)
  {
    match Step(x, heard)
    case Next(y) => Accounts(x, y, EntryOf(x, heard))
    case Done(y) => Accounts(x, y, EntryOf(x, heard))
    case Fail(_) => true
  }

  lemma AsksIs(x: Xfer)
    ensures AsksResync(x) == (Parse(x.regs.kind, x.out) == Some(SBlk(S_RESYNC, false, [])))
  {
  }

  lemma GarbledAccounted(x: Xfer, b: seq<byte>)
    requires x.Valid() && WellFramed(x.regs.kind, b) && !Verifies(x.regs.kind, b)
    ensures Accounted(x, Block(b))
  {
    hide Parse, Built, Verifies, Edc, AsksResync;
    ParseFramed(x.regs.kind, b);
    var y := Awake(x);
    ResyncTrace(y);
    ReplyTrace(y, EDC_ERROR);
    AsksIs(if Step(x, Block(b)).Next? then Step(x, Block(b)).x else x);
  }

  lemma RAccounted(x: Xfer, b: seq<byte>)
    requires x.Valid() && WellFramed(x.regs.kind, b) && Verifies(x.regs.kind, b) && TypeOf(b[1]) == R
    ensures Accounted(x, Block(b))
  {
    StepKeepsValid(x, Block(b));
    hide Parse, Built, Verifies, OnR, OnI, OnS, TypeOf;
    ParseFramed(x.regs.kind, b);
    OnRTrace(Awake(x), b[1]);
  }

  lemma IAccounted(x: Xfer, b: seq<byte>)
    requires x.Valid() && WellFramed(x.regs.kind, b) && Verifies(x.regs.kind, b) && TypeOf(b[1]) == I
    ensures Accounted(x, Block(b))
  {
    StepKeepsValid(x, Block(b));
    hide Parse, Built, Verifies, OnR, OnI, OnS, TypeOf, SeqOf, HasMore, AsksResync;
    ParseFramed(x.regs.kind, b);
    OnITrace(Awake(x), b[1], b[3..3 + b[2] as int]);
    AsksIs(if Step(x, Block(b)).Next? then Step(x, Block(b)).x else x);
  }

  lemma SAccounted(x: Xfer, b: seq<byte>)
    requires x.Valid() && WellFramed(x.regs.kind, b) && Verifies(x.regs.kind, b) && TypeOf(b[1]) == S
    ensures Accounted(x, Block(b))
  {
    StepKeepsValid(x, Block(b));
    hide Parse, Built, Verifies, OnR, OnI, OnS, TypeOf, SType, IsResponse;
    ParseFramed(x.regs.kind, b);
    OnSTrace(Awake(x), b[1], b[3]);
  }

  /** Every pass does to receive buffer and expected number what its journal entry says. */
  lemma StepAccounts(x: Xfer, heard: Heard)
    requires x.Valid()
    requires heard.Block? ==> WellFramed(x.regs.kind, heard.bytes)
    ensures Accounted(x, heard)
  {
    if heard.Block? {
      var b := heard.bytes;
      hide Accounted, Verifies, TypeOf;
      if !Verifies(x.regs.kind, b) {
        GarbledAccounted(x, b);
      } else {
        match TypeOf(b[1])
        case R => RAccounted(x, b);
        case I => IAccounted(x, b);
        case S => SAccounted(x, b);
      }
    }
  }

  /** Against any card: the receive buffer holds exactly the payloads of the I-blocks taken since
      it was last cleared, and their numbers alternate between resynchronisation requests, so no
      block is taken twice in a row. */
  lemma {:induction false} RunAccounts(x: Xfer, hs: seq<Heard>)
    requires x.Valid() && Framed(x.regs.kind, hs)
    ensures var log := Journal(x, hs);
            match Feed(x, hs)
            case Next(y) => y.rbuf == Collected(x.rbuf, log) && Alternates(x.regs.nr, log)
            case Done(y) => y.rbuf == Collected(x.rbuf, log) && Alternates(x.regs.nr, log)
            case Fail(_) => true
    decreases hs
  {
    hide Step, EntryOf;
    if hs != [] {
      StepKeepsValid(x, hs[0]);
      StepAccounts(x, hs[0]);
      var e := EntryOf(x, hs[0]);
      match Step(x, hs[0])
      case Next(y) =>
        RunAccounts(y, hs[1..]);
        assert ([e] + Journal(y, hs[1..]))[1..] == Journal(y, hs[1..]);
      case Done(y) =>
        assert [e] + [] == [e] && [e][1..] == [];
      case Fail(_) =>
    }
  }

  // ---- limits of the implementation ------------------------------------------------------------------------

  /** After a resynchronisation the command is not rewound: the next I-block continues at the position
      reached before, so the whole command is sent again if and only if nothing was acknowledged. */
  lemma ResyncDoesNotRewind(x: Xfer, nad: byte, stype: byte)
    requires SendsProperly(x) && x.regs.phase == Resynch && stype < 16
    ensures var b := Encode(x.regs.kind, nad, SBlk(stype, true, []));
            && WellFramed(x.regs.kind, b)
            && var o := Step(x, Block(b));
               && o.Next? && o.x.regs.phase == Sending && o.x.Valid() && o.x.rbuf == []
               && Parse(x.regs.kind, o.x.out)
                  == Some(IBlk(x.regs.ns, x.regs.ifsc < |x.cmd| - x.head,
                               x.cmd[x.head..x.head + Min(x.regs.ifsc, |x.cmd| - x.head)]))
               && o.x.head == x.head && (o.x.Rest() == x.cmd <==> x.head == 0)
  {
    hide Encode, Parse, Verifies, Built, TypeOf, IsResponse, SType;
    var blk := SBlk(stype, true, []);
    EncodedFields(x.regs.kind, nad, blk);
    var y := Restart(Awake(x));
    ReadsI(y.regs, y.dad, y.Rest());
    var n := BuiltLen(y.regs, y.Rest());
    assert y.Rest()[..n] == x.cmd[x.head..x.head + n];
    assert x.cmd[0..] == x.cmd;
  }

  /** And a call does get there: a chained command, the acknowledgement of its first block, and a
      garbled answer. */
  lemma ResyncMidCommand(regs: Regs, dad: byte, cmd: seq<byte>, room: nat, nad: byte, noise: seq<byte>)
    requires regs.Valid() && |cmd| > regs.ifsc
    requires WellFramed(regs.kind, noise) && !Verifies(regs.kind, noise)
    ensures var hs := [Block(Encode(regs.kind, nad, RBlk(Flip(regs.ns), 0))), Block(noise)];
            && Framed(regs.kind, hs)
            && var o := Feed(Start(regs, dad, cmd, room), hs);
               && o.Next? && SendsProperly(o.x) && o.x.regs.phase == Resynch && o.x.cmd == cmd
               && o.x.head == regs.ifsc > 0
               && Parse(regs.kind, o.x.out) == Some(SBlk(S_RESYNC, false, []))
  {
    hide Encode, Parse, Verifies, Built, Step, WellFramed;
    var x := Start(regs, dad, cmd, room);
    var b := Encode(regs.kind, nad, RBlk(Flip(regs.ns), 0));
    StepOnAcknowledgement(x, nad, Flip(regs.ns));
    var y := Continued(x);
    StepKeepsValid(x, Block(b));
    StepOnNoise(y, noise);
    ResyncKeeps(Awake(y));
    ReadsResync(Awake(y).regs.(ns := 0, nr := 0, phase := Resynch), dad);
    ResyncSendsProperly(Awake(y));
    FeedTwo(x, Block(b), Block(noise), y, Resync(Awake(y)).x);
  }

  lemma FeedTwo(x: Xfer, h1: Heard, h2: Heard, y: Xfer, z: Xfer)
    requires x.Valid() && Framed(x.regs.kind, [h1, h2]) && y.Valid() && y.regs.kind == x.regs.kind
    requires h1.Block? ==> WellFramed(x.regs.kind, h1.bytes)
    requires h2.Block? ==> WellFramed(x.regs.kind, h2.bytes)
    requires Step(x, h1) == Next(y) && Step(y, h2) == Next(z)
    ensures Feed(x, [h1, h2]) == Next(z)
  {
    StepKeepsValid(x, h1);
    StepKeepsValid(y, h2);
    hide Step, WellFramed;
    assert [h1, h2][1..] == [h2] && [h2][1..] == [];
    assert Feed(z, []) == Next(z);
    assert Feed(y, [h2]) == Next(z);
  }

  // ---- what reaches the terminal after some blocks sent ----------------------------------------------------

  /** All octets that have arrived when n more blocks have been sent; None if one was refused. */
  function Coming(pending: seq<byte>, arrivals: seq<Arrival>, n: nat): Option<seq<byte>>
    decreases n
  {
    if n == 0 || arrivals == [] then Some(pending)
    else
      match arrivals[0]
      case Refusal => None
      case Octets(bytes) => Coming(pending + bytes, arrivals[1..], n - 1)
  }

  lemma {:induction false} ComingBehind(a: seq<byte>, b: seq<byte>, arrivals: seq<Arrival>, n: nat)
    ensures Coming(a + b, arrivals, n).Some? == Coming(b, arrivals, n).Some?
    ensures Coming(b, arrivals, n).Some? ==>
              Coming(a + b, arrivals, n).value == a + Coming(b, arrivals, n).value
    decreases n
  {
    if n > 0 && arrivals != [] && arrivals[0].Octets? {
      JoinThree(a, b, arrivals[0].bytes);
      ComingBehind(a, b + arrivals[0].bytes, arrivals[1..], n - 1);
    }
  }

  /** Any block with LEN = 254 or 255 is refused and ends the exchange; the standard allows 254. */
  lemma LongestBlockRefused(x: Xfer, line: Line)
    requires x.Valid()
    requires var s := Coming(line.pending, line.arrivals, 1);
             s.Some? && |s.value| >= 3 && s.value[2] as int >= 254
    ensures var r := Run(x, line);
            r.data.None? && r.regs.phase == Dead
  {
    var l1 := line.Send(x.out).0;
    assert line.Send(x.out).1 && l1.pending == Coming(line.pending, line.arrivals, 1).value;
    assert l1.pending[..3][2] == l1.pending[2];
    hide Step, WellFramed;
    assert Xcv(line, x.regs.kind, x.out, T1_BUFFER_SIZE).1 == Silence;
    SilenceKills(x);
  }

  lemma SilenceKills(x: Xfer)
    requires x.Valid()
    ensures Step(x, Silence).Fail? && Step(x, Silence).regs.phase == Dead
  {
  }

  /** A dead protocol object stays dead: no later call sends or reads anything. */
  lemma {:induction false} DeadStaysDead(regs: Regs, line: Line, es: seq<Exchange>)
    requires regs.Valid() && regs.phase == Dead
    ensures var (regs', line', answers) := TransceiveAll(regs, line, es);
            regs' == regs && line' == line && |answers| == |es| && forall i :: 0 <= i < |es| ==> answers[i] == None
    decreases es
  {
    if es != [] {
      DeadStaysDead(regs, line, es[1..]);
    }
  }

  lemma CrcAttemptAbandoned(regs: Regs, nad: byte, line: Line)
    requires regs.kind == CRC
    ensures ResyncAttempt(regs, nad, line).2 == Abandoned
  {
    hide Verifies, ResyncBlock, Xcv;
  }

  /** With the CRC, t1_resynchronize fails whatever the card answers: a confirmation is five octets
      long and only four are read. */
  lemma ResyncFailsWithCrc(regs: Regs, nad: byte, line: Line)
    requires regs.kind == CRC
    ensures var (r, _, ok) := Resynchronize(regs, nad, line);
            !ok && r.phase == Dead
  {
    hide ResyncAttempt;
    CrcAttemptAbandoned(regs, nad, line.(pending := []));
  }

  predicate Confirms(b: seq<byte>)
    requires |b| == 4
  {
    Verifies(LRC, b) && b[1] == S_BLOCK | S_RESPONSE | S_RESYNC
  }

  /** The request with index i is sent, and the octets that have arrived by then go on, behind the
      blocks read before, with a block without information field. */
  predicate Answered(pending: seq<byte>, arrivals: seq<Arrival>, i: nat) {
    var s := Coming(pending, arrivals, i + 1);
    s.Some? && |s.value| >= 4 * i + 4 && s.value[4 * i + 2] as int == 0
  }

  function AnswerAt(pending: seq<byte>, arrivals: seq<Arrival>, i: nat): (b: seq<byte>)
    requires Answered(pending, arrivals, i)
    ensures |b| == 4
  {
    Coming(pending, arrivals, i + 1).value[4 * i..4 * i + 4]
  }

  /** The first confirming answer is the one with index i, and all up to it were heard. */
  predicate ConfirmedAt(pending: seq<byte>, arrivals: seq<Arrival>, i: nat) {
    (forall j :: 0 <= j <= i ==> Answered(pending, arrivals, j)) && Confirms(AnswerAt(pending, arrivals, i))
  }

  lemma AnswersBehind(pending: seq<byte>, arrivals: seq<Arrival>, i: nat)
    requires Answered(pending, arrivals, 0)
    ensures var rest := Coming(pending, arrivals, 1).value[4..];
            var tail := if arrivals == [] then [] else arrivals[1..];
            && Answered(pending, arrivals, i + 1) == Answered(rest, tail, i)
            && (Answered(rest, tail, i) ==> AnswerAt(pending, arrivals, i + 1) == AnswerAt(rest, tail, i))
  {
    var s := Coming(pending, arrivals, 1).value;
    var rest, tail := s[4..], if arrivals == [] then [] else arrivals[1..];
    assert s == s[..4] + rest;
    ComingBehind(s[..4], rest, tail, i + 1);
    assert Coming(pending, arrivals, i + 2) == Coming(s, tail, i + 1);
  }

  /** With the LRC, on any line whatsoever, t1_resynchronize succeeds exactly if one of its three
      requests is confirmed and every request up to that one was sent and answered by a block
      without information field. Octets that were waiting before are dropped. */
  lemma ResyncWithLrc(regs: Regs, nad: byte, line: Line)
    requires regs.kind == LRC
    ensures Resynchronize(regs, nad, line).2 <==> exists i :: 0 <= i < 3 && ConfirmedAt([], line.arrivals, i)
  {
    LoopConfirms(regs, nad, line.(pending := []), 3);
  }

  lemma {:induction false} LoopConfirms(regs: Regs, nad: byte, line: Line, tries: nat)
    requires regs.kind == LRC
    ensures ResyncLoop(regs, nad, line, tries).2
            <==> exists i :: 0 <= i < tries && ConfirmedAt(line.pending, line.arrivals, i)
    decreases tries
  {
    hide ResyncAttempt, Confirms, Coming, Answered, AnswerAt;
    if tries > 0 {
      AttemptHears(regs, nad, line);
      var (r, l, attempt) := ResyncAttempt(regs, nad, line);
      if attempt == Unanswered {
        LoopConfirms(r, nad, l, tries - 1);
        forall i: nat
          ensures ConfirmedAt(line.pending, line.arrivals, i + 1) == ConfirmedAt(l.pending, l.arrivals, i)
        {
          ConfirmedBehind(line.pending, line.arrivals, i);
        }
        if exists i :: 0 <= i < tries && ConfirmedAt(line.pending, line.arrivals, i) {
          var i :| 0 <= i < tries && ConfirmedAt(line.pending, line.arrivals, i);
          if i > 0 {
            var j := i - 1;
            assert ConfirmedAt(line.pending, line.arrivals, j + 1);
            assert ConfirmedAt(l.pending, l.arrivals, j);
          }
        }
        if exists j :: 0 <= j < tries - 1 && ConfirmedAt(l.pending, l.arrivals, j) {
          var j :| 0 <= j < tries - 1 && ConfirmedAt(l.pending, l.arrivals, j);
          assert ConfirmedAt(line.pending, line.arrivals, j + 1);
        }
      } else if attempt == Confirmed {
        assert ConfirmedAt(line.pending, line.arrivals, 0);
      }
    }
  }

  lemma ConfirmedBehind(pending: seq<byte>, arrivals: seq<Arrival>, i: nat)
    requires Answered(pending, arrivals, 0)
    ensures var rest := Coming(pending, arrivals, 1).value[4..];
            var tail := if arrivals == [] then [] else arrivals[1..];
            ConfirmedAt(pending, arrivals, i + 1) == ConfirmedAt(rest, tail, i)
  {
    var rest := Coming(pending, arrivals, 1).value[4..];
    var tail := if arrivals == [] then [] else arrivals[1..];
    hide Coming, Answered, AnswerAt, Confirms;
    forall j: nat
      ensures Answered(pending, arrivals, j + 1) == Answered(rest, tail, j)
    {
      AnswersBehind(pending, arrivals, j);
    }
    AnswersBehind(pending, arrivals, i);
    if ConfirmedAt(rest, tail, i) {
      forall j | 0 <= j <= i + 1
        ensures Answered(pending, arrivals, j)
      {
        if j > 0 {
          assert Answered(rest, tail, j - 1);
        }
      }
    }
    if ConfirmedAt(pending, arrivals, i + 1) {
      forall j | 0 <= j <= i
        ensures Answered(rest, tail, j)
      {
        assert Answered(pending, arrivals, j + 1);
      }
    }
  }

  lemma AttemptHears(regs: Regs, nad: byte, line: Line)
    requires regs.kind == LRC
    ensures var (r, l, attempt) := ResyncAttempt(regs, nad, line);
            if !Answered(line.pending, line.arrivals, 0) then attempt == Abandoned
            else
              && r.kind == LRC && l.pending == Coming(line.pending, line.arrivals, 1).value[4..]
              && l.arrivals == (if line.arrivals == [] then [] else line.arrivals[1..])
              && attempt == if Confirms(AnswerAt(line.pending, line.arrivals, 0)) then Confirmed else Unanswered
  {
    var block := ResyncBlock(LRC, nad);
    hide Verifies, ResyncBlock;
    var (l, ok) := line.Send(block);
    var s := Coming(line.pending, line.arrivals, 1);
    assert ok == s.Some? && (ok ==> l.pending == s.value);
    if ok {
      FourOctetsHeard(l);
      hide ReadBlock;
    }
  }

  lemma FourOctetsHeard(line: Line)
    ensures var (l, heard) := ReadBlock(line, LRC, 4);
            if |line.pending| >= 4 && line.pending[2] as int == 0
            then heard == Block(line.pending[..4]) && l == line.(pending := line.pending[4..])
            else heard == Silence
  {
    var p := line.pending;
    if |p| >= 3 {
      assert p[..3][2] == p[2];
      if |p| >= 4 {
        assert p[..3] + p[3..][..1] == p[..4] && p[3..][1..] == p[4..];
      }
    }
  }
}
