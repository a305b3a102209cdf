/** What the terminal answers to any block in any state: one pass of the loop in terms of blocks
    instead of octets. */
module T1Answers {
  import opened Bytes
  import opened Checksum
  import opened T1Wire
  import opened T1Host
  import opened T1Card
  import opened T1Delivery

  /** The block queued is this one, under the address of the exchange. */
  predicate Sends(y: Xfer, blk: Blk) {
    y.out != [] && y.out[0] == y.dad && Parse(y.regs.kind, y.out) == Some(blk)
  }

  /** The block queued is the part of the command at the position reached, as long as the chunk size
      admits, under the current number and chained exactly if more follows. */
  predicate SendsPart(y: Xfer) {
    y.head <= |y.cmd| &&
    var n := Min(y.regs.ifsc, |y.cmd| - y.head);
    && n >= 0 && y.lastSend == n
    && Sends(y, IBlk(y.regs.ns, y.regs.ifsc < |y.cmd| - y.head, y.cmd[y.head..y.head + n]))
  }

  /** The exchange is the one before but for the block queued, the tries left and the waiting time
      extension, which is spent. */
  predicate Unmoved(x: Xfer, y: Xfer) {
    y == x.(out := y.out, retries := y.retries, regs := x.regs.(wtx := 0))
  }

  /** The card has taken the block in flight: the position and the count of acknowledged octets move
      over it, and the number changes. */
  function Moved(x: Xfer): (y: Xfer)
    requires x.Valid()
    ensures y.Valid()
  {
    x.(head := x.head + x.lastSend, lastSend := 0, sentLength := x.sentLength + x.lastSend,
       regs := x.regs.(ns := 1 - x.regs.ns))
  }

  /** The exchange when an I-block has told that the block in flight was received. */
  function Heeded(x: Xfer): (y: Xfer)
    requires x.Valid()
    ensures y.Valid()
  {
    var ns := if x.regs.phase == Sending then 1 - x.regs.ns else x.regs.ns;
    x.(head := if x.regs.phase == Sending then x.head + x.lastSend else x.head,
       lastSend := if x.regs.phase == Sending then 0 else x.lastSend,
       regs := x.regs.(ns := ns, phase := Receiving, wtx := 0))
  }

  /** The terminal resynchronises where it is, or gives up if it has done so too often. */
  predicate Resynchronises(x: Xfer, o: Outcome) {
    match o
    case Next(y) =>
      && y.regs == x.regs.(wtx := 0, ns := 0, nr := 0, phase := Resynch)
      && y == x.(regs := y.regs, out := y.out, retries := Dec32(x.retries), resyncs := y.resyncs)
      && y.resyncs == x.resyncs - 1
      && Sends(y, SBlk(0, false, []))
    case Done(_) => false
    case Fail(r) => r == x.regs.(wtx := 0, phase := Dead) && x.resyncs == 0
  }

  /** What a pass does about an I-block with this number, chaining bit and payload. */
  predicate AnswersI(x: Xfer, ns: bit, more: bool, data: seq<byte>, o: Outcome)
    requires x.Valid()
  {
    var y := Heeded(x);
    match o
    case Next(z) =>
      if ns != x.regs.nr then
        z == y.(out := z.out, retries := Dec32(x.retries)) && Sends(z, RBlk(x.regs.nr, 2))
      else
        && more && |x.rbuf| + |data| <= x.room
        && z == y.(out := z.out, retries := x.regs.retries, rbuf := x.rbuf + data, regs := y.regs.(nr := 1 - x.regs.nr))
        && Sends(z, RBlk(1 - x.regs.nr, 0))
    case Done(z) =>
      && ns == x.regs.nr && !more && |x.rbuf| + |data| <= x.room
      && z == y.(out := z.out, retries := Dec32(x.retries), rbuf := x.rbuf + data, regs := y.regs.(nr := 1 - x.regs.nr))
    case Fail(r) =>
      && ns == x.regs.nr && |x.rbuf| + |data| > x.room
      && r == y.regs.(nr := 1 - x.regs.nr, phase := Dead)
  }

  /** What a pass does about an S-block of this type whose first octet behind the prologue is data0. */
  predicate AnswersS(x: Xfer, t: byte, response: bool, data0: byte, o: Outcome) {
    if response && x.regs.phase == Resynch then
      && o.Next? && SendsPart(o.x)
      && o.x == x.(regs := x.regs.(phase := Sending, wtx := 0), sentLength := 0, rbuf := [], resyncs := 3,
                   retries := x.regs.retries, lastSend := o.x.lastSend, out := o.x.out)
    else if !response && t == 2 then
      o.Next? && Unmoved(x, o.x) && o.x.retries == x.regs.retries && Sends(o.x, SBlk(2, true, []))
    else if !response && t == 1 && data0 != 0 then
      && o.Next? && Sends(o.x, SBlk(1, true, [data0]))
      && o.x == x.(regs := x.regs.(ifsc := data0 as int, wtx := 0), retries := x.regs.retries, out := o.x.out)
    else if !response && t == 3 then
      && o.Next? && Sends(o.x, SBlk(3, true, [data0]))
      && o.x == x.(regs := x.regs.(wtx := data0), retries := x.regs.retries, out := o.x.out)
    else Resynchronises(x, o)
  }

  // ---- what is queued --------------------------------------------------------------------------

  lemma PartQueued(x: Xfer)
    requires x.Valid()
    ensures SendsPart(SendI(x))
  {
    hide Parse, Built;
    ReadsI(x.regs, x.dad, x.Rest());
    BuiltNad(x.regs, x.dad, I_BLOCK, x.Rest());
    assert x.Rest()[..BuiltLen(x.regs, x.Rest())] == x.cmd[x.head..x.head + BuiltLen(x.regs, x.Rest())];
  }

  lemma RBlockQueued(x: Xfer, err: byte)
    requires x.Valid() && (err == 0 || err == 1 || err == 2)
    ensures Sends(Reply(x, 0x80 | err), RBlk(x.regs.nr, err))
  {
    hide Parse, Frame, BuiltPcb;
    BuiltPcbMeans(false, x.regs.ns, x.regs.nr, 0);
    BuiltNad(x.regs, x.dad, 0x80 | err, []);
    ParseEncode(x.regs.kind, x.dad, RBlk(x.regs.nr, err));
  }

  lemma ResponseQueued(x: Xfer, t: byte, info: seq<byte>)
    requires x.Valid() && t < 16 && |info| <= 1
    ensures var y := x.(out := Built(x.regs, x.dad, S_BLOCK | S_RESPONSE | t, info)); Sends(y, SBlk(t, true, info))
  {
    hide Parse, Frame, BuiltPcb;
    BuiltPcbMeans(false, x.regs.ns, x.regs.nr, t);
    BuiltNad(x.regs, x.dad, S_BLOCK | S_RESPONSE | t, info);
    assert info[..|info|] == info;
    ParseEncode(x.regs.kind, x.dad, SBlk(t, true, info));
  }

  lemma ResyncQueued(x: Xfer)
    requires x.Valid()
    ensures Resynchronises(x, Resync(Awake(x)))
  {
    hide Built, Parse;
    var r := x.regs.(wtx := 0, ns := 0, nr := 0, phase := Resynch);
    ReadsResync(r, x.dad);
    BuiltNad(r, x.dad, S_BLOCK | S_RESYNC, []);
  }

  // ---- what each block leads to ----------------------------------------------------------------

  /** Garbled octets: an R-block with the error code 1, as long as a try is left and nothing has been
      acknowledged. */
  lemma GarbledAnswered(x: Xfer, b: seq<byte>)
    requires x.Valid() && WellFramed(x.regs.kind, b) && !Verifies(x.regs.kind, b)
    ensures var o := Step(x, Block(b));
            if Dec32(x.retries) == 0 || x.sentLength != 0 then Resynchronises(x, o)
            else o.Next? && Unmoved(x, o.x) && o.x.retries == Dec32(x.retries) && Sends(o.x, RBlk(x.regs.nr, 1))
  {
    hide Built, Verifies, WellFramed, Parse, Sends, Resync;
    StepOnNoise(x, b);
    ResyncQueued(x);
    RBlockQueued(Awake(x), EDC_ERROR);
  }

  lemma FlipIs(b: bit)
    ensures Flip(b) == 1 - b
  {
  }

  lemma NextIAnswered(x: Xfer)
    requires x.Valid()
    ensures var o := NextI(Awake(x));
            if x.head == |x.cmd| then Resynchronises(x, o)
            else
              && o.Next? && Unmoved(x.(lastSend := o.x.lastSend), o.x)
              && o.x.retries == x.regs.retries && SendsPart(o.x)
  {
    hide Built, Resync, Parse;
    ResyncQueued(x);
    PartQueued(Awake(x));
  }

  lemma OnRAnswered(x: Xfer, pcb: byte)
    requires x.Valid() && !IsError(pcb)
    ensures var o := OnR(Awake(x), pcb);
            if x.regs.phase == Receiving then
              o.Next? && Unmoved(x, o.x) && o.x.retries == x.regs.retries && Sends(o.x, RBlk(x.regs.nr, 0))
            else
              o == NextI(Awake(if SeqOf(pcb) == x.regs.ns then x else Moved(x)))
  {
    hide Built, SeqOf, IsError, NextI, Parse;
    if x.regs.phase == Receiving {
      RBlockQueued(Awake(x), 0);
      assert R_BLOCK | 0 == R_BLOCK;
    } else {
      FlipIs(x.regs.ns);
    }
  }

  /** R-blocks. While the terminal receives, one without error bits makes it ask for the expected block
      again. Otherwise one that names the number of the block in flight makes it send that part again,
      one that names the other number makes it send the part after it. Where there is no such part, and
      whenever error bits are set, it resynchronises. */
  lemma RBlockAnswered(x: Xfer, nad: byte, nr: bit, err: byte)
    requires x.Valid() && err < 16
    ensures var b := Encode(x.regs.kind, nad, RBlk(nr, err));
            WellFramed(x.regs.kind, b) &&
            var o := Step(x, Block(b));
            if err != 0 then Resynchronises(x, o)
            else if x.regs.phase == Receiving then
              o.Next? && Unmoved(x, o.x) && o.x.retries == x.regs.retries && Sends(o.x, RBlk(x.regs.nr, 0))
            else
              var y := if nr == x.regs.ns then x else Moved(x);
              if y.head == |x.cmd| then Resynchronises(y, o)
              else
                && o.Next? && Unmoved(y.(lastSend := o.x.lastSend), o.x)
                && o.x.retries == x.regs.retries && SendsPart(o.x)
  {
    if err != 0 {
      StepOnComplaint(x, nad, nr, err);
      ResyncQueued(x);
    } else {
      StepOnR(x, nad, nr);
      OnRAnswered(x, Encode(x.regs.kind, nad, RBlk(nr, 0))[1]);
      NextIAnswered(if nr == x.regs.ns then x else Moved(x));
    }
    hide Step, Encode, Resynchronises, Sends, SendsPart;
  }

  lemma OnIAnswered(x: Xfer, pcb: byte, data: seq<byte>)
    requires x.Valid()
    ensures AnswersI(x, SeqOf(pcb), HasMore(pcb), data, OnI(Awake(x), pcb, data))
  {
    hide Built, SeqOf, HasMore, Flip, Parse;
    FlipIs(x.regs.ns);
    FlipIs(x.regs.nr);
    var y := Heeded(x).(retries := Dec32(x.retries), out := []);
    RBlockQueued(y, OTHER_ERROR);
    if |x.rbuf| + |data| <= x.room {
      RBlockQueued(y.(regs := y.regs.(nr := 1 - x.regs.nr), rbuf := x.rbuf + data), 0);
      assert R_BLOCK | 0 == R_BLOCK;
    }
  }

  /** I-blocks. The first one tells that the block in flight was received. One with another number than
      expected is answered by an R-block with the error code 2 and leaves the data alone; too long a
      response kills the protocol; any other is appended, and the terminal asks for more or is done. */
  lemma IBlockAnswered(x: Xfer, nad: byte, ns: bit, more: bool, data: seq<byte>)
    requires x.Valid() && |data| <= LONGEST
    ensures var b := Encode(x.regs.kind, nad, IBlk(ns, more, data));
            && WellFramed(x.regs.kind, b)
            && AnswersI(x, ns, more, data, Step(x, Block(b)))
  {
    StepOnI(x, nad, ns, more, data);
    OnIAnswered(x, Encode(x.regs.kind, nad, IBlk(ns, more, data))[1], data);
    hide Step, Encode, AnswersI;
  }

  lemma StepOnS(x: Xfer, nad: byte, t: byte, response: bool, data: seq<byte>)
    requires x.Valid() && t < 16 && |data| <= LONGEST
    ensures var b := Encode(x.regs.kind, nad, SBlk(t, response, data));
            && WellFramed(x.regs.kind, b)
            && Step(x, Block(b)) == OnS(Awake(x), b[1], b[3]) && SType(b[1]) == t && IsResponse(b[1]) == response
            && b[3] == (data + b[3 + |data|..])[0]
  {
    hide Verifies, TypeOf, SType, IsResponse, Encode, OnS;
    var b := Encode(x.regs.kind, nad, SBlk(t, response, data));
    EncodedFields(x.regs.kind, nad, SBlk(t, response, data));
    assert data != [] ==> b[3] == b[3..3 + |data|][0];
  }

  lemma ResponseAnswered(x: Xfer, pcb: byte, data0: byte)
    requires x.Valid() && IsResponse(pcb)
    ensures AnswersS(x, SType(pcb), true, data0, OnS(Awake(x), pcb, data0))
  {
    hide Built, Parse, IsResponse, Resync;
    ResyncQueued(x);
    PartQueued(x.(regs := x.regs.(phase := Sending, wtx := 0), sentLength := 0, rbuf := [], resyncs := 3,
                  retries := x.regs.retries, out := []));
  }

  lemma AbortAnswered(x: Xfer)
    requires x.Valid()
    ensures AnswersS(x, 2, false, 0, OnRequest(Awake(x), 2, 0))
  {
    hide Built, Parse, Resync;
    ResponseQueued(Awake(x), 2, []);
  }

  lemma IfsAnswered(x: Xfer, n: byte)
    requires x.Valid() && n != 0
    ensures AnswersS(x, 1, false, n, OnRequest(Awake(x), 1, n))
  {
    hide Built, Parse, Resync;
    NonzeroOctet(n);
    var y := Awake(x);
    ResponseQueued(y.(regs := y.regs.(ifsc := n as int)), 1, [n]);
  }

  lemma WtxAnswered(x: Xfer, n: byte)
    requires x.Valid()
    ensures AnswersS(x, 3, false, n, OnRequest(Awake(x), 3, n))
  {
    hide Built, Parse, Resync;
    var y := Awake(x);
    ResponseQueued(y.(regs := y.regs.(wtx := n)), 3, [n]);
  }

  lemma RequestAnswered(x: Xfer, t: byte, data0: byte)
    requires x.Valid() && t < 16
    ensures AnswersS(x, t, false, data0, OnRequest(Awake(x), t, data0))
  {
    if t == 2 {
      AbortAnswered(x);
    } else if t == 1 && data0 != 0 {
      IfsAnswered(x, data0);
    } else if t == 3 {
      WtxAnswered(x, data0);
    } else {
      ResyncQueued(x);
    }
    hide Built, Sends, Resync, Resynchronises, SendsPart;
  }

  /** S-blocks. Any S-response confirms a pending resynchronisation: the command goes on from the position
      reached, with all counters as at the start. Requests to abort, to change the chunk size (but not
      to 0) and to wait are answered in kind; everything else makes the terminal resynchronise. The octet
      looked at is the first of the information field; if that is empty, the first check octet. */
  lemma SBlockAnswered(x: Xfer, nad: byte, t: byte, response: bool, data: seq<byte>)
    requires x.Valid() && t < 16 && |data| <= LONGEST
    ensures var b := Encode(x.regs.kind, nad, SBlk(t, response, data));
            && WellFramed(x.regs.kind, b)
            && AnswersS(x, t, response, (data + b[3 + |data|..])[0], Step(x, Block(b)))
  {
    StepOnS(x, nad, t, response, data);
    var b := Encode(x.regs.kind, nad, SBlk(t, response, data));
    if response {
      ResponseAnswered(x, b[1], b[3]);
    } else {
      RequestAnswered(x, t, b[3]);
    }
    hide Step, Encode, AnswersS, OnRequest;
  }

  /** An empty command is refused, and nothing changes. */
  lemma EmptyCommandRefused(regs: Regs, dad: byte, room: nat, line: Line)
    requires regs.Valid()
    ensures Transceive(regs, dad, [], room, line) == Result(regs, line, None)
  {
  }

  /** Failures of the line are final. */
  lemma LineFailureKills(x: Xfer, heard: Heard)
    requires x.Valid() && (heard.NotSent? || heard.Silence?)
    ensures var o := Step(x, heard); o.Fail? && o.regs.phase == Dead
  {
  }
}
