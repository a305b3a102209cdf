/** Terminal and card together: delivery, recovery and agreement of the sequence numbers. */
module T1Delivery {
  import opened Bytes
  import opened Checksum
  import opened T1Wire
  import opened T1Host
  import opened T1Card

  // ---- the joint run --------------------------------------------------------------------

  /** Terminal and card after the terminal's block was taken in by the card. The terminal sends its
      command from position `from` on: 0, or where the last resynchronisation found it. */
  datatype Play =
    | Playing(x: Xfer, c: Card, from: nat)
    | Over(last: Xfer, end: Card, from: nat)
    | Broken

  /** The terminal while the card asks for its block again and again; None if it sends another one. */
  function Repeated(x: Xfer, c: Card, again: seq<byte>): (r: Option<Xfer>)
    requires x.Valid()
    ensures r.Some? ==> r.value.Valid() && r.value.regs.kind == x.regs.kind && r.value.cmd == x.cmd
    ensures r.Some? ==> r.value.out == x.out
    decreases again
  {
    if again == [] then Some(x)
    else
      var heard := AskAgain(x.regs.kind, c, again[0]);
      EncodedFields(x.regs.kind, again[0], RBlk(c.nr, 0));
      StepKeepsValid(x, Block(heard));
      match Step(x, Block(heard))
      case Next(y) => if y.out == x.out then Repeated(y, c, again[1..]) else None
      case _ => None
  }

  /** The terminal's next block reaches the card, perhaps not at the first try. */
  function TakeIn(app: App, x: Xfer, c: Card, from: nat, again: seq<byte>): Play
    requires x.Valid()
  {
    match Repeated(x, c, again)
    case Some(y) => Read(app, y, c, from)
    case None => Broken
  }

  function Read(app: App, x: Xfer, c: Card, from: nat): Play {
    var blk := Parse(x.regs.kind, x.out);
    if blk.None? then Broken else
    var d := Absorb(c, blk.value, app);
    if d.None? then Broken else Playing(x, d.value, from)
  }

  /** The guards of the terminal: a garbled answer now makes it resynchronise, and error bits do. */
  predicate Resyncs(x: Xfer, item: Item) {
    if item.noise.Some? then Dec32(x.retries) == 0 || x.sentLength != 0 else item.turn.Complain?
  }

  /** One answer of the card, the terminal's pass over it, and its next block. */
  function PlayItem(app: App, x: Xfer, c: Card, from: nat, item: Item): Play
    requires x.Valid() && c.Valid() && LegalItem(app, x, c, item)
    requires c.last.Some? ==> c.last.value <= LONGEST
  {
    var (d, blk) := Speak(c, item.turn);
    var heard := HeardAs(x.regs.kind, item, blk);
    HeardIsFramed(x.regs.kind, item, blk);
    match Step(x, Block(heard))
    case Next(y) =>
      StepKeepsValid(x, Block(heard));
      TakeIn(app, y, d, if Resyncs(x, item) then x.head else from, item.again)
    case Done(y) => Over(y, d, from)
    case Fail(_) => Broken
  }

  lemma HeardIsFramed(kind: Kind, item: Item, blk: Blk)
    requires blk.Valid() && |blk.Info()| <= LONGEST
    requires item.noise.Some? ==> WellFramed(kind, item.noise.value)
    ensures WellFramed(kind, HeardAs(kind, item, blk))
  {
    if item.noise.None? {
      EncodedFields(kind, item.nad, blk);
    }
  }

  /** The card keeps to its rules. The line may garble any answer, as long as the terminal has a
      resynchronisation left when it needs one and room for what the card will then answer. It may
      also garble blocks of the terminal: the first of them, those sent after an answer that arrived
      (an S-response the card may always ask for again), and the repetitions. */
  ghost predicate LegalItem(app: App, x: Xfer, c: Card, item: Item)
    requires x.Valid()
  {
    && CanTurn(c, item.turn)
    && (item.noise.Some? ==> WellFramed(x.regs.kind, item.noise.value) && !Verifies(x.regs.kind, item.noise.value))
    && (item.turn.Complain? ==> item.noise.None?)
    && (Resyncs(x, item) ==> x.resyncs > 0 && |app(x.Rest())| <= x.room)
    && (item.again != [] ==> item.noise.None? && CanRepeat(x, c, item.turn))
  }

  /** After these answers an I-block or an acknowledgement of the terminal follows. */
  predicate CanRepeat(x: Xfer, c: Card, turn: Turn) {
    match turn
    case Answer(k) => c.talking ==> k < |c.rest|
    case Confirm => x.head < |x.cmd|
    case _ => false
  }

  // ---- the joint invariant -----------------------------------------------------------------

  /** How much of the command has been sent, the block in flight included. */
  function Sent(x: Xfer): nat {
    x.head + if x.regs.phase == Sending then x.lastSend else 0
  }

  ghost predicate Owes(app: App, x: Xfer, c: Card, from: nat) {
    && x.Valid() && c.Valid() && x.cmd != [] && from <= x.head
    && |app(x.cmd[from..])| <= x.room && (x.sentLength != 0 ==> x.head > 0)
    && if c.confirming then Resetting(x, c, from) else Exchanging(app, x, c, from)
  }

  /** The card owes the confirmation of a resynchronisation. */
  predicate Resetting(x: Xfer, c: Card, from: nat) {
    && c == RESET && x.regs.phase == Resynch && x.regs.ns == 0 && x.regs.nr == 0 && from == x.head
  }

  ghost predicate Exchanging(app: App, x: Xfer, c: Card, from: nat)
    requires x.Valid() && from <= x.head
  {
    && x.resyncs == 3 && (x.regs.phase == Sending || x.regs.phase == Receiving)
    && Sent(x) <= |x.cmd| && c.got == x.cmd[from..Sent(x)]
    && (c.talking <==> Sent(x) == |x.cmd|)
    && (!c.talking ==> x.lastSend > 0)
    && c.nr == (if x.regs.phase == Sending then Flip(x.regs.ns) else x.regs.ns)
    && c.ns == x.regs.nr
    && (x.regs.phase == Receiving ==> c.talking)
    && (x.regs.phase == Sending ==> x.rbuf == [])
    && (c.talking ==> x.rbuf + c.rest == app(x.cmd[from..]))
    && (c.last.Some? ==> c.last.value <= LONGEST && (c.last.value == 0 ==> c.rest == []))
  }

  ghost predicate Finished(app: App, y: Xfer, d: Card, from: nat) {
    && y.Valid() && from <= |y.cmd| && y.rbuf == app(y.cmd[from..])
    && d.got == y.cmd[from..] && d.AtBoundary()
    && d.nr == y.regs.ns && d.NextNs() == y.regs.nr
    && y.regs.phase == Receiving && y.resyncs == 3
  }

  ghost predicate Good(app: App, p: Play) {
    match p
    case Playing(x, c, from) => Owes(app, x, c, from)
    case Over(y, d, from) => Finished(app, y, d, from)
    case Broken => false
  }

  // ---- what the card reads in the terminal's blocks ---------------------------------------------

  lemma ReadsI(r: Regs, dad: byte, avail: seq<byte>)
    requires r.Valid()
    ensures Parse(r.kind, Built(r, dad, I_BLOCK, avail))
            == Some(IBlk(r.ns, |avail| > r.ifsc, avail[..BuiltLen(r, avail)]))
  {
    hide Parse, Frame, BuiltPcb;
    var blk := IBlk(r.ns, |avail| > r.ifsc, avail[..BuiltLen(r, avail)]);
    BuiltPcbMeans(|avail| > r.ifsc, r.ns, r.nr, 0);
    ParseEncode(r.kind, dad, blk);
  }

  /** The first octet of every block is the address of the exchange. */
  lemma BuiltNad(r: Regs, dad: byte, pcb: byte, avail: seq<byte>)
    requires r.Valid()
    ensures |Built(r, dad, pcb, avail)| >= 3 && Built(r, dad, pcb, avail)[0] == dad
  {
    hide BuiltPcb;
  }

  lemma ReadsR(r: Regs, dad: byte)
    requires r.Valid()
    ensures Parse(r.kind, Built(r, dad, R_BLOCK, [])) == Some(RBlk(r.nr, 0))
    ensures Parse(r.kind, Built(r, dad, R_BLOCK | EDC_ERROR, [])) == Some(RBlk(r.nr, EDC_ERROR))
  {
    hide Parse, Frame, BuiltPcb;
    BuiltPcbMeans(false, r.ns, r.nr, 0);
    ParseEncode(r.kind, dad, RBlk(r.nr, 0));
    ParseEncode(r.kind, dad, RBlk(r.nr, EDC_ERROR));
  }

  lemma ReadsResponse(r: Regs, dad: byte, req: Request)
    requires r.Valid()
    ensures Parse(r.kind, Built(r, dad, S_BLOCK | S_RESPONSE | req.SType(), [req.Info()]))
            == Some(SBlk(req.SType(), true, [req.Info()]))
  {
    hide Parse, Frame, BuiltPcb;
    var blk := SBlk(req.SType(), true, [req.Info()]);
    AskValid(req);
    BuiltPcbMeans(false, r.ns, r.nr, req.SType());
    assert [req.Info()][..1] == [req.Info()];
    ParseEncode(r.kind, dad, blk);
  }

  // ---- what the terminal does with the card's blocks --------------------------------------------

  lemma StepOnI(x: Xfer, nad: byte, ns: bit, more: bool, data: seq<byte>)
    requires x.Valid() && |data| <= LONGEST
    ensures var b := Encode(x.regs.kind, nad, IBlk(ns, more, data));
            && WellFramed(x.regs.kind, b)
            && Step(x, Block(b)) == OnI(Awake(x), b[1], data) && SeqOf(b[1]) == ns && HasMore(b[1]) == more
  {
    hide Verifies, TypeOf, SeqOf, HasMore, Encode, OnI;
    EncodedFields(x.regs.kind, nad, IBlk(ns, more, data));
  }

  lemma StepOnR(x: Xfer, nad: byte, nr: bit)
    requires x.Valid()
    ensures var b := Encode(x.regs.kind, nad, RBlk(nr, 0));
            && WellFramed(x.regs.kind, b)
            && Step(x, Block(b)) == OnR(Awake(x), b[1]) && SeqOf(b[1]) == nr && !IsError(b[1])
  {
    hide Verifies, TypeOf, SeqOf, Encode, OnR;
    EncodedFields(x.regs.kind, nad, RBlk(nr, 0));
  }

  lemma StepOnAsk(x: Xfer, nad: byte, req: Request)
    requires x.Valid()
    ensures req.SType() < 16
    ensures var b := Encode(x.regs.kind, nad, SBlk(req.SType(), false, [req.Info()]));
            && WellFramed(x.regs.kind, b)
            && Step(x, Block(b)) == OnRequest(Awake(x), req.SType(), req.Info())
  {
    hide Verifies, TypeOf, SType, IsResponse, Encode, OnRequest;
    AskValid(req);
    var blk := SBlk(req.SType(), false, [req.Info()]);
    var b := Encode(x.regs.kind, nad, blk);
    EncodedFields(x.regs.kind, nad, blk);
    assert b[3] == b[3..4][0];
  }

  // ---- a block of the terminal that the card could not read -----------------------------------------

  /** A terminal that has just sent an I-block or an acknowledgement. */
  predicate Poised(x: Xfer)
    requires x.Valid()
  {
    && x.retries == x.regs.retries
    && match x.regs.phase {
         case Sending => x.Rest() != [] && SendI(x) == x
         case Receiving => Reply(x, R_BLOCK) == x
         case _ => false
       }
  }

  /** The same with no waiting time extension left. */
  function Slept(x: Xfer): Xfer {
    x.(regs := x.regs.(wtx := 0))
  }

  /** Asked for the block it has just sent, the terminal sends the same octets again and is where it
      was. */
  lemma SameBlockAgain(x: Xfer, c: Card, nad: byte)
    requires x.Valid() && Poised(x) && (x.regs.phase == Sending ==> c.nr == x.regs.ns)
    ensures Slept(x).Valid() && Poised(Slept(x)) && Slept(x).out == x.out
    ensures var b := AskAgain(x.regs.kind, c, nad);
            WellFramed(x.regs.kind, b) && Step(x, Block(b)) == Next(Slept(x))
  {
    hide Encode, Step, SeqOf, IsError;
    StepOnR(x, nad, c.nr);
    BuiltSleeps(x, I_BLOCK, x.Rest());
    BuiltSleeps(x, R_BLOCK, []);
    hide Built;
  }

  lemma BuiltSleeps(x: Xfer, pcb: byte, avail: seq<byte>)
    requires x.Valid()
    ensures Built(x.regs.(wtx := 0), x.dad, pcb, avail) == Built(x.regs, x.dad, pcb, avail)
  {
    hide Frame, BuiltPcb;
  }

  lemma {:induction false} RepeatsUntilRead(x: Xfer, c: Card, again: seq<byte>)
    requires x.Valid() && Poised(x) && (x.regs.phase == Sending ==> c.nr == x.regs.ns)
    ensures Repeated(x, c, again) == Some(if again == [] then x else Slept(x))
    decreases again
  {
    hide Step, AskAgain, Poised;
    if again != [] {
      SameBlockAgain(x, c, again[0]);
      RepeatsUntilRead(Slept(x), c, again[1..]);
    }
  }

  /** The same where again is allowed only behind a block that can be repeated. */
  lemma RepeatsSame(y: Xfer, d: Card, again: seq<byte>)
    requires y.Valid() && y.regs.wtx == 0
    requires again != [] ==> Poised(y) && (y.regs.phase == Sending ==> d.nr == y.regs.ns)
    ensures Repeated(y, d, again) == Some(y)
  {
    hide Step, AskAgain, Poised;
    if again != [] {
      RepeatsUntilRead(y, d, again);
    }
  }

  // ---- one answer at a time ------------------------------------------------------------------------

  /** The terminal after a request of the card. */
  function Granted(x: Xfer, req: Request): Xfer
    requires x.Valid() && req.Valid()
  {
    var y := Awake(x).(retries := x.regs.retries);
    var r := match req
             case IfsRequest(n) => (NonzeroOctet(n); y.regs.(ifsc := n as int))
             case WtxRequest(n) => y.regs.(wtx := n);
    Respond(y.(regs := r), S_BLOCK | S_RESPONSE | req.SType(), req.Info())
  }

  lemma StepOnRequest(x: Xfer, nad: byte, req: Request)
    requires x.Valid() && req.Valid()
    ensures req.SType() < 16
    ensures var b := Encode(x.regs.kind, nad, SBlk(req.SType(), false, [req.Info()]));
            && WellFramed(x.regs.kind, b)
            && Step(x, Block(b)) == Next(Granted(x, req))
  {
    hide Step, Encode, Built;
    StepOnAsk(x, nad, req);
  }

  lemma GrantedIs(x: Xfer, req: Request)
    requires x.Valid() && req.Valid()
    ensures var y := Granted(x, req);
            && y.Valid() && y.regs.(ifsc := x.regs.ifsc, wtx := x.regs.wtx) == x.regs
            && y.cmd == x.cmd && y.head == x.head && y.room == x.room && y.lastSend == x.lastSend
            && y.sentLength == x.sentLength && y.resyncs == x.resyncs && y.rbuf == x.rbuf
            && y.retries == x.regs.retries && y.dad == x.dad
  {
    hide Built;
  }

  lemma GrantedOwes(app: App, x: Xfer, c: Card, from: nat, req: Request)
    requires Owes(app, x, c, from) && !c.confirming && req.Valid()
    ensures var y := Granted(x, req);
            Owes(app, y, c.(asking := None), from) && y.rbuf == x.rbuf && Sent(y) == Sent(x)
  {
    hide Granted;
    GrantedIs(x, req);
  }

  /** A request is answered and leaves everything else as it was. */
  lemma AskCase(app: App, x: Xfer, c: Card, from: nat, item: Item)
    requires Owes(app, x, c, from) && LegalItem(app, x, c, item)
    requires item.noise.None? && item.turn.Ask?
    ensures Good(app, PlayItem(app, x, c, from, item))
    ensures var p := PlayItem(app, x, c, from, item);
            && p.Playing? && p.x.rbuf == x.rbuf && Sent(p.x) == Sent(x) && p.from == from
            && p.x.sentLength == x.sentLength && p.x.retries == x.regs.retries && p.x.regs.retries == x.regs.retries
            && p.c == c.(asking := None) && !c.confirming
  {
    hide Parse, Built, Encode, Step;
    var req := item.turn.req;
    StepOnRequest(x, item.nad, req);
    GrantedOwes(app, x, c, from, req);
    ReadsResponse(Granted(x, req).regs, x.dad, req);
    hide Owes;
  }

  /** The acknowledgement of a chained block of the command: the position moves over the block in
      flight, and the next one goes out. */
  lemma AcknowledgementCase(app: App, x: Xfer, c: Card, from: nat, item: Item)
    requires Owes(app, x, c, from) && LegalItem(app, x, c, item)
    requires item.noise.None? && item.turn.Answer? && !c.talking
    ensures Good(app, PlayItem(app, x, c, from, item))
    ensures var p := PlayItem(app, x, c, from, item);
            && p.Playing? && p.x.rbuf == x.rbuf && p.from == from && !p.c.confirming
            && p.x.head == x.head + x.lastSend == Sent(x)
            && p.x.lastSend == Min(x.regs.ifsc, |x.cmd| - p.x.head) > 0
            && p.x.sentLength == x.sentLength + x.lastSend && p.x.retries == p.x.regs.retries
  {
    StepOnAcknowledgement(x, item.nad, c.nr);
    ContinuedOwes(app, x, c, from);
    ContinuedPoised(x);
    RepeatsSame(Continued(x), c, item.again);
    ReadsI(Continued(x).regs, x.dad, Continued(x).Rest());
    hide Parse, Built, Encode, Step, SeqOf, IsError, Absorb, Owes, Repeated, Poised, Continued;
  }

  /** The exchange after an acknowledgement while part of the command is left. */
  function Continued(x: Xfer): Xfer
    requires x.Valid()
  {
    SendI(Acknowledged(Awake(x)).(sentLength := x.sentLength + x.lastSend)).(retries := x.regs.retries)
  }

  lemma ContinuedPoised(x: Xfer)
    requires x.Valid() && x.regs.phase == Sending && x.head + x.lastSend < |x.cmd|
    ensures var y := Continued(x);
            && y.Valid() && Poised(y) && y.regs.wtx == 0 && y.regs.phase == Sending && y.regs.ns == Flip(x.regs.ns)
            && y.cmd == x.cmd && y.dad == x.dad && y.out == Built(y.regs, x.dad, I_BLOCK, y.Rest())
  {
    hide Built;
  }

  lemma StepOnAcknowledgement(x: Xfer, nad: byte, nr: bit)
    requires x.Valid() && x.regs.phase == Sending && nr != x.regs.ns && x.head + x.lastSend < |x.cmd|
    ensures var b := Encode(x.regs.kind, nad, RBlk(nr, 0));
            WellFramed(x.regs.kind, b) && Step(x, Block(b)) == Next(Continued(x))
  {
    hide Built, Encode, Step, SeqOf, IsError;
    StepOnR(x, nad, nr);
  }

  lemma ContinuedOwes(app: App, x: Xfer, c: Card, from: nat)
    requires Owes(app, x, c, from) && !c.confirming && !c.talking && c.asking.None?
    ensures x.regs.phase == Sending && c.nr != x.regs.ns && x.head + x.lastSend < |x.cmd|
    ensures var y := Continued(x); var n := BuiltLen(y.regs, y.Rest());
            var d := Absorb(c, IBlk(y.regs.ns, |y.Rest()| > y.regs.ifsc, y.Rest()[..n]), app);
            && d.Some? && Owes(app, y, d.value, from) && !d.value.confirming
            && y.rbuf == x.rbuf && y.head == x.head + x.lastSend
            && y.lastSend == Min(x.regs.ifsc, |x.cmd| - y.head) > 0
            && y.sentLength == x.sentLength + x.lastSend && y.retries == y.regs.retries == x.regs.retries
  {
    hide Built;
    var y := Continued(x);
    var n := BuiltLen(y.regs, y.Rest());
    assert y.cmd[from..y.head] + y.Rest()[..n] == y.cmd[from..y.head + n];
    assert y.cmd[from..|y.cmd|] == y.cmd[from..];
  }

  /** The exchange after an I-block with the expected number was taken. */
  function Accepted(x: Xfer, data: seq<byte>): Xfer {
    var y := if x.regs.phase == Sending then Acknowledged(Awake(x)) else Awake(x);
    y.(regs := y.regs.(phase := Receiving, nr := Flip(y.regs.nr)), rbuf := y.rbuf + data)
  }

  lemma OnIAccepts(x: Xfer, pcb: byte, data: seq<byte>)
    requires x.Valid() && SeqOf(pcb) == x.regs.nr && |x.rbuf| + |data| <= x.room
    ensures var y := if x.regs.phase == Sending then Acknowledged(x) else x;
            var z := y.(regs := y.regs.(phase := Receiving, nr := Flip(y.regs.nr)), rbuf := y.rbuf + data);
            OnI(x, pcb, data) == if HasMore(pcb) then Fine(Reply(z, R_BLOCK)) else Done(z)
  {
    hide Built, SeqOf, HasMore;
  }

  lemma StepOnPiece(x: Xfer, nad: byte, more: bool, data: seq<byte>)
    requires x.Valid() && |data| <= LONGEST && |x.rbuf| + |data| <= x.room
    ensures var b := Encode(x.regs.kind, nad, IBlk(x.regs.nr, more, data));
            && WellFramed(x.regs.kind, b)
            && Step(x, Block(b)) == if more then Fine(Reply(Accepted(x, data), R_BLOCK)) else Done(Accepted(x, data))
  {
    hide Built, Encode, Step, SeqOf, HasMore, OnI;
    StepOnI(x, nad, x.regs.nr, more, data);
    OnIAccepts(Awake(x), Encode(x.regs.kind, nad, IBlk(x.regs.nr, more, data))[1], data);
  }

  /** A piece of the response: taken exactly once, acknowledged if more follows. */
  lemma PieceCase(app: App, x: Xfer, c: Card, from: nat, item: Item)
    requires Owes(app, x, c, from) && LegalItem(app, x, c, item)
    requires item.noise.None? && item.turn.Answer? && c.talking
    ensures Good(app, PlayItem(app, x, c, from, item))
    ensures var p := PlayItem(app, x, c, from, item);
            if item.turn.k == |c.rest| then p.Over? && p.from == from
            else
              && p.Playing? && p.x.rbuf == x.rbuf + c.rest[..item.turn.k] && item.turn.k > 0 && Sent(p.x) == Sent(x)
              && p.from == from && p.x.sentLength == x.sentLength && p.x.retries == p.x.regs.retries == x.regs.retries
              && p.c.talking && !p.c.confirming
  {
    if item.turn.k == |c.rest| {
      LastPiece(app, x, c, from, item);
    } else {
      MorePiece(app, x, c, from, item);
    }
  }

  lemma LastPiece(app: App, x: Xfer, c: Card, from: nat, item: Item)
    requires Owes(app, x, c, from) && LegalItem(app, x, c, item)
    requires item.noise.None? && item.turn == Answer(|c.rest|) && c.talking
    ensures var p := PlayItem(app, x, c, from, item);
            p.Over? && Finished(app, p.last, p.end, p.from) && p.from == from
  {
    hide Parse, Built, Encode, Step;
    StepOnPiece(x, item.nad, false, c.rest[..|c.rest|]);
    assert c.rest[..|c.rest|] == c.rest;
    assert x.cmd[from..|x.cmd|] == x.cmd[from..];
  }

  lemma MorePiece(app: App, x: Xfer, c: Card, from: nat, item: Item)
    requires Owes(app, x, c, from) && LegalItem(app, x, c, item)
    requires item.noise.None? && item.turn.Answer? && item.turn.k < |c.rest| && c.talking
    ensures var p := PlayItem(app, x, c, from, item);
            && p.Playing? && Owes(app, p.x, p.c, p.from) && p.from == from
            && p.x.rbuf == x.rbuf + c.rest[..item.turn.k] && item.turn.k > 0 && Sent(p.x) == Sent(x)
            && p.x.sentLength == x.sentLength && p.x.retries == p.x.regs.retries == x.regs.retries
            && p.c.talking && !p.c.confirming
  {
    hide Parse, Built, Encode, Step;
    var k := item.turn.k;
    assert c.rest[..k] + c.rest[k..] == c.rest;
    assert |x.rbuf| + k <= x.room && c.ns == x.regs.nr;
    PieceTaken(app, x, c, from, k);
    StoredPoised(x, c.rest[..k]);
    RepeatsSame(Stored(x, c.rest[..k]), Speak(c, item.turn).0, item.again);
    hide Owes, Repeated, Poised;
    StepOnPiece(x, item.nad, true, c.rest[..k]);
    ReadsR(Accepted(x, c.rest[..k]).regs, x.dad);
  }

  /** The exchange after a piece of the response that is not the last. */
  function Stored(x: Xfer, piece: seq<byte>): Xfer
    requires x.Valid()
  {
    Reply(Accepted(x, piece), R_BLOCK).(retries := x.regs.retries)
  }

  lemma StoredIs(x: Xfer, piece: seq<byte>)
    requires x.Valid() && (x.regs.phase == Sending || x.regs.phase == Receiving)
    ensures var y := Stored(x, piece); var ns := if x.regs.phase == Sending then Flip(x.regs.ns) else x.regs.ns;
            && y.regs == x.regs.(phase := Receiving, ns := ns, nr := Flip(x.regs.nr), wtx := 0)
            && y.cmd == x.cmd && y.head == Sent(x) && y.room == x.room && y.dad == x.dad
            && y.lastSend <= x.lastSend && (x.regs.phase == Sending ==> y.lastSend == 0)
            && y.sentLength == x.sentLength && y.resyncs == x.resyncs && y.retries == x.regs.retries
            && y.rbuf == x.rbuf + piece
  {
    hide Built;
  }

  lemma StoredPoised(x: Xfer, piece: seq<byte>)
    requires x.Valid() && |x.rbuf| + |piece| <= x.room
    ensures var y := Stored(x, piece); y.Valid() && Poised(y) && y.regs.wtx == 0 && y.regs.phase == Receiving
  {
    hide Built, Flip, SendI, Poised;
    var z := Accepted(x, piece);
    assert z.Valid() && z.regs.phase == Receiving && z.regs.wtx == 0 && z.regs.retries == x.regs.retries;
    hide Accepted;
    ReplyPoised(z);
  }

  lemma ReplyPoised(z: Xfer)
    requires z.Valid() && z.regs.phase == Receiving
    ensures var y := Reply(z, R_BLOCK).(retries := z.regs.retries); y.Valid() && Poised(y)
  {
    hide Built;
  }

  lemma PieceTaken(app: App, x: Xfer, c: Card, from: nat, k: nat)
    requires Owes(app, x, c, from) && c.talking && 0 < k < |c.rest|
    ensures var y := Stored(x, c.rest[..k]);
            && Owes(app, y, c.(rest := c.rest[k..], ns := Flip(c.ns), last := None), from)
            && y.rbuf == x.rbuf + c.rest[..k] && Sent(y) == Sent(x)
  {
    hide Stored;
    var piece, left := c.rest[..k], c.rest[k..];
    assert piece + left == c.rest;
    JoinThree(x.rbuf, piece, left);
    StoredIs(x, piece);
  }

  /** A garbled answer that the terminal can afford: it asks again, the card repeats itself. */
  lemma NoiseCase(app: App, x: Xfer, c: Card, from: nat, item: Item)
    requires Owes(app, x, c, from) && LegalItem(app, x, c, item)
    requires item.noise.Some? && !Resyncs(x, item)
    ensures Good(app, PlayItem(app, x, c, from, item))
    ensures var p := PlayItem(app, x, c, from, item);
            && p.Playing? && p.x.rbuf == x.rbuf && Sent(p.x) == Sent(x) && p.from == from
            && p.x.sentLength == 0 && p.x.retries == Dec32(x.retries) && p.x.regs.retries == x.regs.retries
            && p.c.talking == c.talking && p.c.confirming == c.confirming
  {
    AskedAgainOwes(app, x, c, from, item.turn);
    StepOnNoise(x, item.noise.value);
    ReadsR(Awake(x).regs, x.dad);
    hide Parse, Built, Encode, Verifies, Absorb, Owes, Step;
  }

  /** The exchange after a garbled answer that the terminal can afford. */
  function AskedAgain(x: Xfer): Xfer
    requires x.Valid()
  {
    Reply(Awake(x), R_BLOCK | EDC_ERROR)
  }

  lemma StepOnNoise(x: Xfer, b: seq<byte>)
    requires x.Valid() && WellFramed(x.regs.kind, b) && !Verifies(x.regs.kind, b)
    ensures Step(x, Block(b)) == if Dec32(x.retries) == 0 || x.sentLength != 0 then Resync(Awake(x))
                                 else Next(AskedAgain(x))
  {
    hide Built, Verifies, WellFramed;
  }

  lemma AskedAgainOwes(app: App, x: Xfer, c: Card, from: nat, turn: Turn)
    requires Owes(app, x, c, from) && CanTurn(c, turn) && !turn.Complain?
    ensures var d := Speak(c, turn).0;
            && Owes(app, AskedAgain(x), d, from) && Absorb(d, RBlk(x.regs.nr, EDC_ERROR), app) == Some(d)
            && d.talking == c.talking && d.confirming == c.confirming
  {
    hide Built;
  }

  /** What the terminal hears then sends it to the resync label. */
  lemma StepOnTrouble(x: Xfer, c: Card, item: Item)
    requires x.Valid() && c.Valid() && CanTurn(c, item.turn) && (c.last.Some? ==> c.last.value <= LONGEST)
    requires item.noise.Some? ==> WellFramed(x.regs.kind, item.noise.value) && !Verifies(x.regs.kind, item.noise.value)
    requires Resyncs(x, item)
    ensures var (d, blk) := Speak(c, item.turn); var heard := HeardAs(x.regs.kind, item, blk);
            && WellFramed(x.regs.kind, heard) && Step(x, Block(heard)) == Resync(Awake(x))
            && d.Valid()
  {
    hide Step, Encode, Verifies, WellFramed, Resync;
    if item.noise.Some? {
      StepOnNoise(x, item.noise.value);
    } else {
      StepOnComplaint(x, item.nad, item.turn.nr, item.turn.err);
    }
  }

  /** A garbled answer that it cannot afford, or error bits: it resynchronises, and the command will
      go on from the position it had reached. */
  lemma ResyncCase(app: App, x: Xfer, c: Card, from: nat, item: Item)
    requires Owes(app, x, c, from) && LegalItem(app, x, c, item)
    requires Resyncs(x, item)
    ensures Good(app, PlayItem(app, x, c, from, item))
    ensures var p := PlayItem(app, x, c, from, item);
            && p.Playing? && p.c.confirming && p.x.head == x.head == p.from && p.x.resyncs == x.resyncs - 1
            && (x.sentLength != 0 ==> p.from > 0)
  {
    hide Parse, Built, Encode, Verifies, Step, Speak, HeardAs;
    StepOnTrouble(x, c, item);
    ResyncedOwes(app, x, c, from);
    ReadsResync(Resynced(x).regs, x.dad);
    hide Owes, Resync, Resynced;
  }

  /** The exchange when a resynchronisation was asked for. */
  function Resynced(x: Xfer): Xfer
    requires x.Valid() && x.resyncs > 0
  {
    Resync(Awake(x)).x
  }

  lemma ResyncedOwes(app: App, x: Xfer, c: Card, from: nat)
    requires Owes(app, x, c, from) && x.resyncs > 0 && |app(x.Rest())| <= x.room
    ensures var y := Resynced(x);
            && Resync(Awake(x)) == Next(y) && Owes(app, y, RESET, x.head)
            && y.head == x.head && y.resyncs == x.resyncs - 1 && y.regs.kind == x.regs.kind && y.regs.Valid()
            && y.out == Built(y.regs, x.dad, S_BLOCK | S_RESYNC, []) && (x.sentLength != 0 ==> x.head > 0)
  {
    hide Built;
    assert x.cmd[x.head..] == x.Rest();
  }

  lemma StepOnComplaint(x: Xfer, nad: byte, nr: bit, err: byte)
    requires x.Valid() && 0 < err < 16
    ensures var b := Encode(x.regs.kind, nad, RBlk(nr, err));
            WellFramed(x.regs.kind, b) && Step(x, Block(b)) == Resync(Awake(x))
  {
    hide Verifies, TypeOf, Encode, Resync, SeqOf;
    EncodedFields(x.regs.kind, nad, RBlk(nr, err));
  }

  lemma ReadsResync(r: Regs, dad: byte)
    requires r.Valid()
    ensures Parse(r.kind, Built(r, dad, S_BLOCK | S_RESYNC, [])) == Some(SBlk(S_RESYNC, false, []))
  {
    hide Parse, Frame, BuiltPcb;
    BuiltPcbMeans(false, r.ns, r.nr, 0);
    ParseEncode(r.kind, dad, SBlk(S_RESYNC, false, []));
  }

  lemma StepOnConfirm(x: Xfer, nad: byte)
    requires x.Valid() && x.regs.phase == Resynch
    ensures var b := Encode(x.regs.kind, nad, SBlk(S_RESYNC, true, []));
            && WellFramed(x.regs.kind, b)
            && Step(x, Block(b)) == Next(Restart(Awake(x)))
  {
    hide Verifies, TypeOf, SType, IsResponse, Encode, Restart;
    EncodedFields(x.regs.kind, nad, SBlk(S_RESYNC, true, []));
  }

  lemma RestartPoised(x: Xfer)
    requires x.Valid()
    ensures var y := Restart(Awake(x));
            && y.Valid() && y.regs.wtx == 0 && y.regs.phase == Sending && y.regs.ns == x.regs.ns
            && (x.head < |x.cmd| ==> Poised(y))
  {
    hide Built;
  }

  /** The confirmation: the command goes on, and the card takes what comes for a new one. */
  lemma ConfirmCase(app: App, x: Xfer, c: Card, from: nat, item: Item)
    requires Owes(app, x, c, from) && LegalItem(app, x, c, item)
    requires item.noise.None? && item.turn.Confirm?
    ensures Good(app, PlayItem(app, x, c, from, item))
    ensures var p := PlayItem(app, x, c, from, item);
            && p.Playing? && p.from == from == p.x.head && !p.c.confirming && p.x.rbuf == [] && p.x.sentLength == 0
  {
    hide Parse, Built, Encode, Step;
    StepOnConfirm(x, item.nad);
    var y := Restart(Awake(x));
    RestartPoised(x);
    RepeatsSame(y, c, item.again);
    hide Repeated, Poised;
    ReadsI(y.regs, y.dad, y.Rest());
    var n := BuiltLen(y.regs, y.Rest());
    assert [] + y.Rest()[..n] == y.cmd[from..from + n];
    assert y.cmd[from..|y.cmd|] == y.cmd[from..];
  }

  /** One legal answer keeps the invariant or ends the exchange as it should. */
  lemma ItemKeepsGood(app: App, x: Xfer, c: Card, from: nat, item: Item)
    requires Owes(app, x, c, from) && LegalItem(app, x, c, item)
    ensures Good(app, PlayItem(app, x, c, from, item))
  {
    if Resyncs(x, item) {
      ResyncCase(app, x, c, from, item);
    } else if item.noise.Some? {
      NoiseCase(app, x, c, from, item);
    } else if item.turn.Ask? {
      AskCase(app, x, c, from, item);
    } else if item.turn.Confirm? {
      ConfirmCase(app, x, c, from, item);
    } else if c.talking {
      PieceCase(app, x, c, from, item);
    } else {
      AcknowledgementCase(app, x, c, from, item);
    }
  }

  // ---- whole exchanges ---------------------------------------------------------------------------------

  /** Every answer of the script is one the card may give when its turn comes, and the script
      stops when the exchange is over. */
  ghost predicate Legal(app: App, p: Play, script: seq<Item>)
    requires Good(app, p)
    decreases script
  {
    script == [] ||
    (p.Playing? && LegalItem(app, p.x, p.c, script[0]) &&
     (ItemKeepsGood(app, p.x, p.c, p.from, script[0]);
      Legal(app, PlayItem(app, p.x, p.c, p.from, script[0]), script[1..])))
  }

  ghost function PlayAll(app: App, p: Play, script: seq<Item>): (q: Play)
    requires Good(app, p) && Legal(app, p, script)
    ensures Good(app, q)
    decreases script
  {
    if script == [] then p
    else
      ItemKeepsGood(app, p.x, p.c, p.from, script[0]);
      PlayAll(app, PlayItem(app, p.x, p.c, p.from, script[0]), script[1..])
  }

  /** Answers that are neither garbled nor requests. */
  function Answers(script: seq<Item>): nat {
    if script == [] then 0
    else (if script[0].noise.None? && script[0].turn.Answer? then 1 else 0) + Answers(script[1..])
  }

  /** The script makes the terminal resynchronise nowhere. */
  ghost predicate Quiet(app: App, p: Play, script: seq<Item>)
    requires Good(app, p) && Legal(app, p, script)
    decreases script
  {
    script == [] ||
    (!Resyncs(p.x, script[0]) &&
     (ItemKeepsGood(app, p.x, p.c, p.from, script[0]);
      Quiet(app, PlayItem(app, p.x, p.c, p.from, script[0]), script[1..])))
  }

  /** What is still to be transferred. */
  function Remaining(app: App, x: Xfer, from: nat): int
    requires from <= |x.cmd|
  {
    |x.cmd| - Sent(x) + |app(x.cmd[from..])| - |x.rbuf|
  }

  /** Between resynchronisations no exchange can take more answers than it has octets to transfer. */
  lemma {:induction false} AnswersMakeProgress(app: App, p: Play, script: seq<Item>)
    requires Good(app, p) && Legal(app, p, script) && Quiet(app, p, script)
    requires p.Playing? ==> !p.c.confirming
    ensures var q := PlayAll(app, p, script);
            q.Playing? ==>
              && p.Playing? && !q.c.confirming && q.from == p.from
              && Remaining(app, q.x, q.from) + Answers(script) <= Remaining(app, p.x, p.from)
    decreases script
  {
    if script != [] {
      var item := script[0];
      ItemKeepsGood(app, p.x, p.c, p.from, item);
      var p1 := PlayItem(app, p.x, p.c, p.from, item);
      ItemMakesProgress(app, p.x, p.c, p.from, item);
      hide PlayItem, Owes, Finished;
      AnswersMakeProgress(app, p1, script[1..]);
    }
  }

  lemma ItemMakesProgress(app: App, x: Xfer, c: Card, from: nat, item: Item)
    requires Owes(app, x, c, from) && LegalItem(app, x, c, item) && !Resyncs(x, item) && !c.confirming
    ensures var p := PlayItem(app, x, c, from, item);
            p.Playing? ==>
              && Owes(app, p.x, p.c, p.from)
              && p.x.cmd == x.cmd && p.from == from && !p.c.confirming
              && Remaining(app, p.x, from) + (if item.noise.None? && item.turn.Answer? then 1 else 0)
                 <= Remaining(app, x, from)
  {
    ItemKeepsCommand(app, x, c, from, item);
    ItemKeepsGood(app, x, c, from, item);
    if item.noise.Some? {
      NoiseCase(app, x, c, from, item);
    } else if item.turn.Ask? {
      AskCase(app, x, c, from, item);
    } else if c.talking {
      PieceCase(app, x, c, from, item);
    } else {
      AcknowledgementCase(app, x, c, from, item);
    }
    hide PlayItem;
  }

  lemma ItemKeepsCommand(app: App, x: Xfer, c: Card, from: nat, item: Item)
    requires x.Valid() && c.Valid() && LegalItem(app, x, c, item)
    requires c.last.Some? ==> c.last.value <= LONGEST
    ensures match PlayItem(app, x, c, from, item)
            case Playing(y, _, _) => y.cmd == x.cmd
            case Over(y, _, _) => y.cmd == x.cmd
            case Broken => true
  {
    var (d, blk) := Speak(c, item.turn);
    HeardIsFramed(x.regs.kind, item, blk);
    StepKeepsValid(x, Block(HeardAs(x.regs.kind, item, blk)));
    hide Step, Parse, Encode;
  }

  /** Terminal and card agree on both sequence numbers and no block is under way. */
  ghost predicate InStep(regs: Regs, c: Card) {
    regs.Valid() && regs.phase != Dead && c.AtBoundary() && c.nr == regs.ns && c.NextNs() == regs.nr
  }

  /** After power-on, with the defaults of t1_init, they do. */
  lemma PowerOnInStep()
    ensures InStep(Regs(Sending, 0, 0, 32, 0, 3, LRC), FRESH)
  {
  }

  function Opening(app: App, regs: Regs, c: Card, dad: byte, cmd: seq<byte>, room: nat, again: seq<byte>): Play
    requires regs.Valid()
  {
    TakeIn(app, Start(regs, dad, cmd, room), c, 0, again)
  }

  /** The terminal when the card has read its first block. */
  function Begun(regs: Regs, dad: byte, cmd: seq<byte>, room: nat, again: seq<byte>): Xfer
    requires regs.Valid()
  {
    var x := Start(regs, dad, cmd, room);
    if again == [] then x else Slept(x)
  }

  lemma StartPoised(regs: Regs, dad: byte, cmd: seq<byte>, room: nat)
    requires regs.Valid() && cmd != []
    ensures var x := Start(regs, dad, cmd, room); x.Valid() && Poised(x)
  {
    hide Built;
  }

  lemma OpeningGood(app: App, regs: Regs, c: Card, dad: byte, cmd: seq<byte>, room: nat, again: seq<byte>)
    requires InStep(regs, c) && cmd != [] && |app(cmd)| <= room
    ensures var p := Opening(app, regs, c, dad, cmd, room, again);
            && p.Playing? && Good(app, p) && p.x == Begun(regs, dad, cmd, room, again) && p.from == 0
            && !p.c.confirming && (p.c.talking <==> |cmd| <= regs.ifsc)
  {
    hide Parse, Built, Repeated, Poised, Read, Good;
    StartPoised(regs, dad, cmd, room);
    RepeatsUntilRead(Start(regs, dad, cmd, room), c, again);
    BegunGood(app, regs, c, dad, cmd, room, again);
  }

  lemma BegunIs(regs: Regs, dad: byte, cmd: seq<byte>, room: nat, again: seq<byte>)
    requires regs.Valid()
    ensures var x := Begun(regs, dad, cmd, room, again);
            && x.Valid() && x.regs.(wtx := regs.wtx) == regs.(phase := Sending)
            && x.dad == dad && x.cmd == cmd && x.head == 0 && x.lastSend == Min(|cmd|, regs.ifsc)
            && x.sentLength == 0 && x.rbuf == [] && x.room == room && x.retries == regs.retries && x.resyncs == 3
            && x.out == Built(regs.(phase := Sending), dad, I_BLOCK, cmd)
  {
    hide Built;
    assert cmd[0..] == cmd;
  }

  lemma BegunGood(app: App, regs: Regs, c: Card, dad: byte, cmd: seq<byte>, room: nat, again: seq<byte>)
    requires InStep(regs, c) && cmd != [] && |app(cmd)| <= room
    ensures c.nr == regs.ns
    ensures var x := Begun(regs, dad, cmd, room, again); var p := Read(app, x, c, 0);
            && p.Playing? && Good(app, p) && p.x == x && p.from == 0
            && !p.c.confirming && (p.c.talking <==> |cmd| <= regs.ifsc)
  {
    hide Parse, Built, Begun;
    BegunIs(regs, dad, cmd, room, again);
    ReadsI(regs.(phase := Sending), dad, cmd);
    assert cmd[0..] == cmd && cmd[..|cmd|] == cmd;
    var n := BuiltLen(regs, cmd);
    assert [] + cmd[..n] == cmd[..n] == cmd[0..n];
  }

  /** The card is never at a loss: it can always repeat what it must, or give what it owes. */
  function PlainItem(c: Card): Item {
    Item(if c.confirming then Confirm
         else if c.asking.Some? then Ask(c.asking.value)
         else if c.last.Some? then Answer(c.last.value)
         else Answer(if c.talking then Min(LONGEST, |c.rest|) else 0), 0, None, [])
  }

  /** Every run that is not over can be played to its end. */
  lemma {:induction false} RunsCanFinish(app: App, p: Play) returns (script: seq<Item>)
    requires Good(app, p)
    ensures Legal(app, p, script) && PlayAll(app, p, script).Over?
    decreases if p.Playing? && p.c.confirming then 1 else 0,
              if p.Playing? then 2 * Remaining(app, p.x, p.from) + (if p.c.asking.Some? then 1 else 0) else -1
  {
    if p.Over? {
      script := [];
    } else {
      var item := PlainItem(p.c);
      ItemKeepsGood(app, p.x, p.c, p.from, item);
      if p.c.confirming {
        ConfirmCase(app, p.x, p.c, p.from, item);
      } else {
        ItemMakesProgress(app, p.x, p.c, p.from, item);
        if item.turn.Ask? {
          AskCase(app, p.x, p.c, p.from, item);
        }
      }
      var p1 := PlayItem(app, p.x, p.c, p.from, item);
      hide PlayItem, Owes, Finished;
      var tail := RunsCanFinish(app, p1);
      script := [item] + tail;
      assert script[1..] == tail;
    }
  }

  // ---- on the line ----------------------------------------------------------------------------------------

  /** The requests of a card that cannot read a block so many times. */
  function Requests(kind: Kind, c: Card, again: seq<byte>): seq<Arrival> {
    if again == [] then [] else [Octets(AskAgain(kind, c, again[0]))] + Requests(kind, c, again[1..])
  }

  /** What an answer of the card, and the requests that follow it, bring to the terminal. */
  function HeardFrom(kind: Kind, c: Card, item: Item): seq<Arrival>
    requires c.Valid() && CanTurn(c, item.turn) && (c.last.Some? ==> c.last.value <= LONGEST)
  {
    var (d, blk) := Speak(c, item.turn);
    [Octets(HeardAs(kind, item, blk))] + Requests(kind, d, item.again)
  }

  /** The octets that reach the terminal in a joint run. */
  ghost function Arriving(app: App, p: Play, script: seq<Item>): seq<Arrival>
    requires Good(app, p) && Legal(app, p, script)
    decreases script
  {
    if script == [] then []
    else
      var item := script[0];
      ItemKeepsGood(app, p.x, p.c, p.from, item);
      HeardFrom(p.x.regs.kind, p.c, item)
      + Arriving(app, PlayItem(app, p.x, p.c, p.from, item), script[1..])
  }

  function Copies(block: seq<byte>, n: nat): seq<seq<byte>> {
    if n == 0 then [] else [block] + Copies(block, n - 1)
  }

  /** The block that stays on its way while the card asks for it again. */
  function Pending(p: Play): seq<byte> {
    if p.Playing? then p.x.out else []
  }

  function SentWith(p: Play, p1: Play, item: Item): seq<seq<byte>>
    requires p.Playing?
  {
    [p.x.out] + Copies(Pending(p1), |item.again|)
  }

  /** The blocks that the terminal sends during a joint run, but for the one that the card takes in
      last. */
  ghost function SentIn(app: App, p: Play, script: seq<Item>): seq<seq<byte>>
    requires Good(app, p) && Legal(app, p, script)
    decreases script
  {
    if script == [] then []
    else
      var item := script[0];
      ItemKeepsGood(app, p.x, p.c, p.from, item);
      var p1 := PlayItem(app, p.x, p.c, p.from, item);
      SentWith(p, p1, item) + SentIn(app, p1, script[1..])
  }

  lemma FramedBlock(kind: Kind, b: seq<byte>)
    requires WellFramed(kind, b)
    ensures |b| >= 3 && b[2] as int < 254 && |b| == 3 + b[2] as int + RcBytes(kind) && RcBytes(kind) <= 2
  {
  }

  /** A framed block that arrives alone is heard as it is. */
  lemma XcvHearsBlock(line: Line, kind: Kind, block: seq<byte>, b: seq<byte>, more: seq<Arrival>)
    requires line.pending == [] && line.arrivals == [Octets(b)] + more && WellFramed(kind, b)
    ensures Xcv(line, kind, block, T1_BUFFER_SIZE) == (Line([], more, line.sent + [block]), Block(b))
  {
    hide Verifies, WellFramed;
    FramedBlock(kind, b);
    assert line.arrivals[1..] == more;
    assert line.pending + b == b;
    var l1 := Line(b, more, line.sent + [block]);
    assert line.Send(block) == (l1, true);
    var l2 := Line(b[3..], more, line.sent + [block]);
    var header := b[..3];
    assert l1.Recv(3) == (l2, Some(header));
    assert header[2] == b[2];
    var n := header[2] as int + RcBytes(kind);
    assert b[3..][..n] == b[3..] && b[3..][n..] == [];
    assert l2.Recv(n) == (Line([], more, line.sent + [block]), Some(b[3..]));
    assert b[..3] + b[3..] == b;
  }

  /** What one pass of the loop hears decides how the run goes on. */
  lemma RunHears(x: Xfer, heard: seq<byte>, line: Line, rest: seq<Arrival>)
    requires x.Valid() && WellFramed(x.regs.kind, heard)
    requires line.pending == [] && line.arrivals == [Octets(heard)] + rest
    ensures var line1 := Line([], rest, line.sent + [x.out]);
            match Step(x, Block(heard))
            case Next(y) => y.Valid() && Run(x, line) == Run(y, line1)
            case Done(y) => Run(x, line) == Result(y.regs, line1, Some(y.rbuf))
            case Fail(r) => Run(x, line) == Result(r, line1, None)
  {
    XcvHearsBlock(line, x.regs.kind, x.out, heard, rest);
    StepKeepsValid(x, Block(heard));
    hide Step, Xcv;
  }

  /** While the card asks for a block again the loop sends it again. */
  lemma {:induction false} RunRepeats(x: Xfer, c: Card, again: seq<byte>, line: Line, rest: seq<Arrival>)
    requires x.Valid() && Repeated(x, c, again).Some?
    requires line.pending == [] && line.arrivals == Requests(x.regs.kind, c, again) + rest
    ensures Run(x, line) == Run(Repeated(x, c, again).value, Line([], rest, line.sent + Copies(x.out, |again|)))
    decreases again
  {
    hide Step, Run, AskAgain;
    if again == [] {
      assert line.arrivals == rest && line.sent + [] == line.sent;
    } else {
      var heard := AskAgain(x.regs.kind, c, again[0]);
      HeardRequest(x.regs.kind, c, again[0]);
      StepKeepsValid(x, Block(heard));
      var rest1 := Requests(x.regs.kind, c, again[1..]) + rest;
      JoinThree([Octets(heard)], Requests(x.regs.kind, c, again[1..]), rest);
      RunHears(x, heard, line, rest1);
      var y := Step(x, Block(heard)).x;
      RunRepeats(y, c, again[1..], Line([], rest1, line.sent + [x.out]), rest);
      JoinThree(line.sent, [x.out], Copies(x.out, |again| - 1));
    }
  }

  lemma HeardRequest(kind: Kind, c: Card, nad: byte)
    ensures WellFramed(kind, AskAgain(kind, c, nad))
  {
    EncodedFields(kind, nad, RBlk(c.nr, 0));
  }

  lemma OverAsksNothing(app: App, p: Play, item: Item)
    requires p.Playing? && Owes(app, p.x, p.c, p.from) && LegalItem(app, p.x, p.c, item)
    requires PlayItem(app, p.x, p.c, p.from, item).Over?
    ensures item.again == []
  {
    if item.again != [] {
      hide PlayItem;
      if item.turn.Confirm? {
        ConfirmCase(app, p.x, p.c, p.from, item);
      } else if p.c.talking {
        PieceCase(app, p.x, p.c, p.from, item);
      } else {
        AcknowledgementCase(app, p.x, p.c, p.from, item);
      }
    }
  }

  lemma OwesBasics(app: App, x: Xfer, c: Card, from: nat)
    requires Owes(app, x, c, from)
    ensures x.Valid() && c.Valid() && (c.last.Some? ==> c.last.value <= LONGEST)
  {
  }

  lemma RunFollowsTakeIn(app: App, y: Xfer, d: Card, from: nat, again: seq<byte>, sent: seq<seq<byte>>, rest: seq<Arrival>)
    requires y.Valid()
    ensures var p := TakeIn(app, y, d, from, again);
            !p.Over? && (p.Playing? ==>
              && p.x.Valid()
              && Run(y, Line([], Requests(y.regs.kind, d, again) + rest, sent))
                 == Run(p.x, Line([], rest, sent + Copies(p.x.out, |again|))))
  {
    hide Run, Repeated, Requests, Copies, Parse, Absorb;
    if Repeated(y, d, again).Some? {
      RunRepeats(y, d, again, Line([], Requests(y.regs.kind, d, again) + rest, sent), rest);
    }
  }

  lemma NothingAsked(kind: Kind, d: Card, rest: seq<Arrival>, sent: seq<seq<byte>>, block: seq<byte>)
    ensures Requests(kind, d, []) + rest == rest
    ensures [block] + Copies([], 0) == [block]
  {
  }

  /** The pass of the loop that hears an answer of the card. */
  lemma RunHearsItem(x: Xfer, c: Card, item: Item, line: Line, rest: seq<Arrival>)
    requires x.Valid() && c.Valid() && CanTurn(c, item.turn) && (c.last.Some? ==> c.last.value <= LONGEST)
    requires item.noise.Some? ==> WellFramed(x.regs.kind, item.noise.value)
    requires line.pending == [] && line.arrivals == HeardFrom(x.regs.kind, c, item) + rest
    ensures var (d, blk) := Speak(c, item.turn); var heard := HeardAs(x.regs.kind, item, blk);
            var arrivals, sent := Requests(x.regs.kind, d, item.again) + rest, line.sent + [x.out];
            && WellFramed(x.regs.kind, heard)
            && match Step(x, Block(heard)) {
                 case Next(y) => y.Valid() && Run(x, line) == Run(y, Line([], arrivals, sent))
                 case Done(y) => Run(x, line) == Result(y.regs, Line([], arrivals, sent), Some(y.rbuf))
                 case Fail(_) => true
               }
  {
    hide Encode, HeardAs, Speak, Requests, Step, Run, WellFramed;
    var (d, blk) := Speak(c, item.turn);
    var heard := HeardAs(x.regs.kind, item, blk);
    HeardIsFramed(x.regs.kind, item, blk);
    var requests := Requests(x.regs.kind, d, item.again);
    JoinThree([Octets(heard)], requests, rest);
    RunHears(x, heard, line, requests + rest);
  }

  lemma RunFollowsItem(app: App, p: Play, item: Item, line: Line, rest: seq<Arrival>)
    requires p.Playing? && Owes(app, p.x, p.c, p.from) && LegalItem(app, p.x, p.c, item)
    requires line.pending == [] && line.arrivals == HeardFrom(p.x.regs.kind, p.c, item) + rest
    ensures var p1 := PlayItem(app, p.x, p.c, p.from, item);
            var line1 := Line([], rest, line.sent + SentWith(p, p1, item));
            match p1
            case Playing(y, _, _) => y.Valid() && Run(p.x, line) == Run(y, line1)
            case Over(y, _, _) => Run(p.x, line) == Result(y.regs, line1, Some(y.rbuf))
            case Broken => true
  {
    hide HeardAs, Speak, Step, Run, HeardFrom, WellFramed, TakeIn, Requests, Copies;
    var x := p.x;
    RunHearsItem(x, p.c, item, line, rest);
    var (d, blk) := Speak(p.c, item.turn);
    var heard := HeardAs(x.regs.kind, item, blk);
    hide Owes, LegalItem;
    match Step(x, Block(heard))
    case Next(y) =>
      StepKeepsValid(x, Block(heard));
      RunFollowsTakeIn(app, y, d, if Resyncs(x, item) then x.head else p.from, item.again, line.sent + [x.out], rest);
      JoinThree(line.sent, [x.out], Copies(Pending(PlayItem(app, x, p.c, p.from, item)), |item.again|));
    case Done(y) =>
      OverAsksNothing(app, p, item);
      NothingAsked(x.regs.kind, d, rest, line.sent, x.out);
    case Fail(_) =>
  }

  /** The loop of t1_transceive follows the joint run, block by block. */
  lemma {:induction false} RunFollowsPlay(app: App, p: Play, script: seq<Item>, line: Line, more: seq<Arrival>)
    requires Good(app, p) && Legal(app, p, script)
    requires line.pending == [] && line.arrivals == Arriving(app, p, script) + more
    ensures var q := PlayAll(app, p, script);
            p.Playing? && q.Over? ==>
              Run(p.x, line) == Result(q.last.regs, Line([], more, line.sent + SentIn(app, p, script)), Some(q.last.rbuf))
    decreases script
  {
    hide PlayItem, Run, HeardFrom, SentWith;
    if script != [] {
      var item := script[0];
      ItemKeepsGood(app, p.x, p.c, p.from, item);
      var p1 := PlayItem(app, p.x, p.c, p.from, item);
      var rest := Arriving(app, p1, script[1..]) + more;
      JoinThree(HeardFrom(p.x.regs.kind, p.c, item), Arriving(app, p1, script[1..]), more);
      var line1 := Line([], rest, line.sent + SentWith(p, p1, item));
      RunFollowsPlay(app, p1, script[1..], line1, more);
      JoinThree(line.sent, SentWith(p, p1, item), SentIn(app, p1, script[1..]));
      if p1.Over? {
        assert script[1..] == [];
        assert [] + more == more;
      }
      RunFollowsItem(app, p, item, line, rest);
    }
  }

  // ---- the main results ------------------------------------------------------------------------------------

  /** What one call of t1_transceive is about: a command, the card's program for it, room for the
      response, and the card's (and the line's) behaviour; again is for the first block. */
  datatype Exchange = Exchange(app: App, dad: byte, cmd: seq<byte>, room: nat, again: seq<byte>, script: seq<Item>)

  function FirstBlock(regs: Regs, c: Card, e: Exchange): Play
    requires regs.Valid()
  {
    Opening(e.app, regs, c, e.dad, e.cmd, e.room, e.again)
  }

  ghost predicate Conforms(regs: Regs, c: Card, e: Exchange) {
    && InStep(regs, c) && e.cmd != [] && |e.app(e.cmd)| <= e.room
    && (OpeningGood(e.app, regs, c, e.dad, e.cmd, e.room, e.again); Legal(e.app, FirstBlock(regs, c, e), e.script))
  }

  /** Where the script leads. */
  ghost function Ending(regs: Regs, c: Card, e: Exchange): Play
    requires Conforms(regs, c, e)
  {
    OpeningGood(e.app, regs, c, e.dad, e.cmd, e.room, e.again);
    PlayAll(e.app, FirstBlock(regs, c, e), e.script)
  }

  ghost function OnTheLine(regs: Regs, c: Card, e: Exchange): seq<Arrival>
    requires Conforms(regs, c, e)
  {
    OpeningGood(e.app, regs, c, e.dad, e.cmd, e.room, e.again);
    Requests(regs.kind, c, e.again) + Arriving(e.app, FirstBlock(regs, c, e), e.script)
  }

  /** Wherever the script makes the terminal resynchronise, no part of the command has been
      acknowledged yet. */
  ghost predicate Unlost(app: App, p: Play, script: seq<Item>)
    requires Good(app, p) && Legal(app, p, script)
    decreases script
  {
    script == [] ||
    ((Resyncs(p.x, script[0]) ==> p.x.head == 0) &&
     (ItemKeepsGood(app, p.x, p.c, p.from, script[0]);
      Unlost(app, PlayItem(app, p.x, p.c, p.from, script[0]), script[1..])))
  }

  ghost predicate NothingLost(regs: Regs, c: Card, e: Exchange)
    requires Conforms(regs, c, e)
  {
    OpeningGood(e.app, regs, c, e.dad, e.cmd, e.room, e.again);
    Unlost(e.app, FirstBlock(regs, c, e), e.script)
  }

  function Origin(p: Play): nat {
    match p
    case Playing(_, _, from) => from
    case Over(_, _, from) => from
    case Broken => 0
  }

  /** The terminal's command still starts at 0 exactly if nothing was lost; lost octets stay lost. */
  lemma {:induction false} OriginTells(app: App, p: Play, script: seq<Item>)
    requires Good(app, p) && Legal(app, p, script)
    ensures var q := PlayAll(app, p, script);
            Origin(q) == 0 <==> Origin(p) == 0 && Unlost(app, p, script)
    decreases script
  {
    if script != [] {
      var item := script[0];
      assert p.from <= p.x.head;
      ItemKeepsGood(app, p.x, p.c, p.from, item);
      ItemOrigin(app, p.x, p.c, p.from, item);
      var p1 := PlayItem(app, p.x, p.c, p.from, item);
      hide PlayItem, Owes, Finished, Resyncs;
      OriginTells(app, p1, script[1..]);
    }
  }

  lemma ItemOrigin(app: App, x: Xfer, c: Card, from: nat, item: Item)
    requires Owes(app, x, c, from) && LegalItem(app, x, c, item)
    ensures Origin(PlayItem(app, x, c, from, item)) == if Resyncs(x, item) then x.head else from
  {
    ItemKeepsGood(app, x, c, from, item);
    if Resyncs(x, item) {
      ResyncCase(app, x, c, from, item);
    } else {
      hide Step, Parse, Encode, Owes;
    }
  }

  /** The loop up to the moment when the card has read the first block. */
  lemma RunBegins(regs: Regs, c: Card, e: Exchange, sent: seq<seq<byte>>, rest: seq<Arrival>)
    requires InStep(regs, c) && e.cmd != []
    ensures var x := Start(regs, e.dad, e.cmd, e.room); var y := Begun(regs, e.dad, e.cmd, e.room, e.again);
            && x.Valid() && y.Valid()
            && Run(x, Line([], Requests(regs.kind, c, e.again) + rest, sent))
               == Run(y, Line([], rest, sent + Copies(x.out, |e.again|)))
  {
    hide Run, Repeated, Requests, Copies, Poised, Built;
    var x := Start(regs, e.dad, e.cmd, e.room);
    StartPoised(regs, e.dad, e.cmd, e.room);
    RepeatsUntilRead(x, c, e.again);
    RunRepeats(x, c, e.again, Line([], Requests(regs.kind, c, e.again) + rest, sent), rest);
  }

  /** Delivery. With a conforming card, any chunking, any requests and any garbled answers, as long as
      resynchronisations are left: the exchange never breaks. When it is over the card has received
      the command from the position at which the last resynchronisation found the terminal (0 if
      there was none), t1_transceive has returned exactly the card's response to that, and the two
      sides agree on the sequence numbers again. So the command is delivered if and only if the
      terminal resynchronised nowhere after a part of it had been acknowledged. */
  lemma Delivery(regs: Regs, c: Card, e: Exchange, sent: seq<seq<byte>>, more: seq<Arrival>)
    requires Conforms(regs, c, e)
    ensures var q := Ending(regs, c, e);
            && !q.Broken?
            && (q.Over? ==>
                  && q.from <= |e.cmd| && q.end.got == e.cmd[q.from..]
                  && (q.end.got == e.cmd <==> NothingLost(regs, c, e))
                  && InStep(q.last.regs, q.end) && q.last.resyncs == 3
                  && var r := Transceive(regs, e.dad, e.cmd, e.room, Line([], OnTheLine(regs, c, e) + more, sent));
                     r.data == Some(e.app(q.end.got)) && r.regs == q.last.regs
                     && r.line.pending == [] && r.line.arrivals == more)
  {
    hide Parse, Built, Run, Unlost;
    OpeningGood(e.app, regs, c, e.dad, e.cmd, e.room, e.again);
    var p := FirstBlock(regs, c, e);
    var rest := Arriving(e.app, p, e.script) + more;
    JoinThree(Requests(regs.kind, c, e.again), Arriving(e.app, p, e.script), more);
    RunBegins(regs, c, e, sent, rest);
    var line := Line([], rest, sent + Copies(Start(regs, e.dad, e.cmd, e.room).out, |e.again|));
    RunFollowsPlay(e.app, p, e.script, line, more);
    PlayKeepsCommand(e.app, p, e.script);
    OriginTells(e.app, p, e.script);
  }

  lemma {:induction false} PlayKeepsCommand(app: App, p: Play, script: seq<Item>)
    requires Good(app, p) && Legal(app, p, script) && p.Playing?
    ensures match PlayAll(app, p, script)
            case Playing(y, _, _) => y.cmd == p.x.cmd
            case Over(y, _, _) => y.cmd == p.x.cmd
            case Broken => true
    decreases script
  {
    if script != [] {
      var item := script[0];
      ItemKeepsGood(app, p.x, p.c, p.from, item);
      ItemKeepsCommand(app, p.x, p.c, p.from, item);
      var p1 := PlayItem(app, p.x, p.c, p.from, item);
      hide PlayItem, Owes;
      if p1.Playing? {
        PlayKeepsCommand(app, p1, script[1..]);
      } else {
        assert script[1..] == [];
      }
    }
  }

  // ---- when the terminal never resynchronises -------------------------------------------------------------

  /** Garbled answers come only while nothing is acknowledged, and fewer in a row than the terminal
      retries; bad counts those that came last. */
  ghost predicate Calm(app: App, p: Play, bad: nat, script: seq<Item>)
    requires Good(app, p) && Legal(app, p, script)
    decreases script
  {
    script == [] ||
    var item := script[0];
    && !item.turn.Complain?
    && (item.noise.Some? ==> p.x.sentLength == 0 && bad + 1 < p.x.regs.retries)
    && (ItemKeepsGood(app, p.x, p.c, p.from, item);
        Calm(app, PlayItem(app, p.x, p.c, p.from, item), if item.noise.Some? then bad + 1 else 0, script[1..]))
  }

  /** The terminal's counter of tries and the number of garbled answers in a row. */
  ghost predicate Counts(p: Play, bad: nat) {
    p.Playing? ==> !p.c.confirming && p.x.retries + bad == p.x.regs.retries
  }

  lemma CalmItem(app: App, p: Play, bad: nat, item: Item)
    requires p.Playing? && Good(app, p) && LegalItem(app, p.x, p.c, item) && Counts(p, bad)
    requires !item.turn.Complain?
    requires item.noise.Some? ==> p.x.sentLength == 0 && bad + 1 < p.x.regs.retries
    ensures !Resyncs(p.x, item)
    ensures Counts(PlayItem(app, p.x, p.c, p.from, item), if item.noise.Some? then bad + 1 else 0)
  {
    var x, c, from := p.x, p.c, p.from;
    if item.noise.Some? {
      NoiseCase(app, x, c, from, item);
    } else if item.turn.Ask? {
      AskCase(app, x, c, from, item);
    } else if c.talking {
      PieceCase(app, x, c, from, item);
    } else {
      AcknowledgementCase(app, x, c, from, item);
    }
    hide PlayItem;
  }

  lemma {:induction false} CalmIsQuiet(app: App, p: Play, bad: nat, script: seq<Item>)
    requires Good(app, p) && Legal(app, p, script) && Calm(app, p, bad, script) && Counts(p, bad)
    ensures Quiet(app, p, script)
    decreases script
  {
    if script != [] {
      var item := script[0];
      ItemKeepsGood(app, p.x, p.c, p.from, item);
      CalmItem(app, p, bad, item);
      var p1 := PlayItem(app, p.x, p.c, p.from, item);
      hide PlayItem, Owes, Finished, Resyncs, Counts;
      CalmIsQuiet(app, p1, if item.noise.Some? then bad + 1 else 0, script[1..]);
    }
  }

  lemma {:induction false} QuietLosesNothing(app: App, p: Play, script: seq<Item>)
    requires Good(app, p) && Legal(app, p, script) && Quiet(app, p, script)
    ensures Unlost(app, p, script)
    decreases script
  {
    if script != [] {
      var item := script[0];
      ItemKeepsGood(app, p.x, p.c, p.from, item);
      hide PlayItem, Owes, Finished, Resyncs;
      QuietLosesNothing(app, PlayItem(app, p.x, p.c, p.from, item), script[1..]);
    }
  }

  /** Garbled answers fewer in a row than the terminal retries. */
  ghost predicate FewInARow(app: App, p: Play, bad: nat, script: seq<Item>)
    requires Good(app, p) && Legal(app, p, script)
    decreases script
  {
    script == [] ||
    var item := script[0];
    && !item.turn.Complain?
    && (item.noise.Some? ==> bad + 1 < p.x.regs.retries)
    && (ItemKeepsGood(app, p.x, p.c, p.from, item);
        FewInARow(app, PlayItem(app, p.x, p.c, p.from, item), if item.noise.Some? then bad + 1 else 0, script[1..]))
  }

  /** The whole command is in flight or was answered, and none of it was acknowledged by itself. */
  ghost predicate OneBlock(p: Play) {
    p.Playing? ==> p.c.talking && p.x.sentLength == 0
  }

  lemma OneBlockItem(app: App, p: Play, bad: nat, item: Item)
    requires p.Playing? && Good(app, p) && LegalItem(app, p.x, p.c, item) && OneBlock(p) && Counts(p, bad)
    requires !item.turn.Complain?
    requires item.noise.Some? ==> bad + 1 < p.x.regs.retries
    ensures OneBlock(PlayItem(app, p.x, p.c, p.from, item))
  {
    var x, c, from := p.x, p.c, p.from;
    if item.noise.Some? {
      NoiseCase(app, x, c, from, item);
    } else if item.turn.Ask? {
      AskCase(app, x, c, from, item);
    } else {
      PieceCase(app, x, c, from, item);
    }
    hide PlayItem;
  }

  lemma {:induction false} OneBlockIsCalm(app: App, p: Play, bad: nat, script: seq<Item>)
    requires Good(app, p) && Legal(app, p, script) && FewInARow(app, p, bad, script) && OneBlock(p) && Counts(p, bad)
    ensures Calm(app, p, bad, script)
    decreases script
  {
    if script != [] {
      var item := script[0];
      ItemKeepsGood(app, p.x, p.c, p.from, item);
      CalmItem(app, p, bad, item);
      OneBlockItem(app, p, bad, item);
      var p1 := PlayItem(app, p.x, p.c, p.from, item);
      hide PlayItem, Owes, Finished, Resyncs, Counts;
      OneBlockIsCalm(app, p1, if item.noise.Some? then bad + 1 else 0, script[1..]);
    }
  }

  /** The garbled answers of an exchange are ones that the terminal survives without
      resynchronising: for a command that fits one block any, for a longer one those before its first
      acknowledgement, and in both cases fewer in a row than it retries. */
  ghost predicate Bearable(regs: Regs, c: Card, e: Exchange)
    requires Conforms(regs, c, e)
  {
    OpeningGood(e.app, regs, c, e.dad, e.cmd, e.room, e.again);
    if |e.cmd| <= regs.ifsc then FewInARow(e.app, FirstBlock(regs, c, e), 0, e.script)
    else Calm(e.app, FirstBlock(regs, c, e), 0, e.script)
  }

  /** The terminal resynchronises nowhere in this exchange. */
  ghost predicate NeverResyncs(regs: Regs, c: Card, e: Exchange)
    requires Conforms(regs, c, e)
  {
    OpeningGood(e.app, regs, c, e.dad, e.cmd, e.room, e.again);
    Quiet(e.app, FirstBlock(regs, c, e), e.script)
  }

  /** Recovery. With no more noise than that the terminal does not resynchronise, no octet is lost or
      duplicated, and the exchange takes at most as many proper answers as there are octets to
      move. */
  lemma Recovery(regs: Regs, c: Card, e: Exchange)
    requires Conforms(regs, c, e) && Bearable(regs, c, e)
    ensures NeverResyncs(regs, c, e) && NothingLost(regs, c, e)
    ensures var q := Ending(regs, c, e);
            && (q.Over? ==> q.end.got == e.cmd && q.last.rbuf == e.app(e.cmd))
            && (q.Playing? ==> Answers(e.script) <= |e.cmd| + |e.app(e.cmd)|)
  {
    hide Parse, Built, Run, Step, PlayItem;
    OpeningGood(e.app, regs, c, e.dad, e.cmd, e.room, e.again);
    var p := FirstBlock(regs, c, e);
    if |e.cmd| <= regs.ifsc {
      OneBlockIsCalm(e.app, p, 0, e.script);
    }
    CalmIsQuiet(e.app, p, 0, e.script);
    QuietLosesNothing(e.app, p, e.script);
    OriginTells(e.app, p, e.script);
    PlayKeepsCommand(e.app, p, e.script);
    AnswersMakeProgress(e.app, p, e.script);
    assert e.cmd[0..] == e.cmd;
  }

  // ---- consecutive exchanges -----------------------------------------------------------------------------------

  /** Each exchange conforms, and is played to its end, from where the one before left off. */
  ghost predicate SessionConforms(regs: Regs, c: Card, es: seq<Exchange>)
    decreases es
  {
    es == [] ||
    (Conforms(regs, c, es[0]) &&
     var q := Ending(regs, c, es[0]);
     q.Over? && SessionConforms(q.last.regs, q.end, es[1..]))
  }

  ghost function SessionArrivals(regs: Regs, c: Card, es: seq<Exchange>): seq<Arrival>
    requires SessionConforms(regs, c, es)
    decreases es
  {
    if es == [] then []
    else
      var q := Ending(regs, c, es[0]);
      OnTheLine(regs, c, es[0]) + SessionArrivals(q.last.regs, q.end, es[1..])
  }

  ghost function SessionCard(regs: Regs, c: Card, es: seq<Exchange>): Card
    requires SessionConforms(regs, c, es)
    decreases es
  {
    if es == [] then c
    else var q := Ending(regs, c, es[0]); SessionCard(q.last.regs, q.end, es[1..])
  }

  /** What the card received in each exchange. */
  ghost function Received(regs: Regs, c: Card, es: seq<Exchange>): (r: seq<seq<byte>>)
    requires SessionConforms(regs, c, es)
    ensures |r| == |es|
    decreases es
  {
    if es == [] then []
    else
      var q := Ending(regs, c, es[0]);
      [q.end.got] + Received(q.last.regs, q.end, es[1..])
  }

  ghost predicate SessionLosesNothing(regs: Regs, c: Card, es: seq<Exchange>)
    requires SessionConforms(regs, c, es)
    decreases es
  {
    es == [] ||
    (NothingLost(regs, c, es[0]) &&
     var q := Ending(regs, c, es[0]); SessionLosesNothing(q.last.regs, q.end, es[1..]))
  }

  /** Calls of t1_transceive one after the other, on one protocol object and one line. */
  function TransceiveAll(regs: Regs, line: Line, es: seq<Exchange>): (Regs, Line, seq<Option<seq<byte>>>)
    requires regs.Valid()
    decreases es
  {
    if es == [] then (regs, line, [])
    else
      var r := Transceive(regs, es[0].dad, es[0].cmd, es[0].room, line);
      TransceiveKeepsValid(regs, es[0].dad, es[0].cmd, es[0].room, line);
      var (regs', line', rest) := TransceiveAll(r.regs, r.line, es[1..]);
      (regs', line', [r.data] + rest)
  }

  function Commands(es: seq<Exchange>): seq<seq<byte>> {
    if es == [] then [] else [es[0].cmd] + Commands(es[1..])
  }

  /** The card's response to what it received, in each exchange. */
  function Responses(es: seq<Exchange>, received: seq<seq<byte>>): seq<Option<seq<byte>>>
    requires |received| == |es|
  {
    if es == [] then [] else [Some(es[0].app(received[0]))] + Responses(es[1..], received[1..])
  }

  lemma {:induction false} RunKeepsValid(x: Xfer, line: Line)
    requires x.Valid()
    ensures Run(x, line).regs.Valid()
    decreases |line.arrivals|, |line.pending|
  {
    var (l, heard) := Xcv(line, x.regs.kind, x.out, T1_BUFFER_SIZE);
    StepKeepsValid(x, heard);
    hide Step, Xcv;
    match Step(x, heard)
    case Next(y) => RunKeepsValid(y, l);
    case Done(y) =>
    case Fail(r) =>
  }

  lemma TransceiveKeepsValid(regs: Regs, dad: byte, cmd: seq<byte>, room: nat, line: Line)
    requires regs.Valid()
    ensures Transceive(regs, dad, cmd, room, line).regs.Valid()
  {
    hide Run, Built;
    if cmd != [] && regs.phase != Dead {
      RunKeepsValid(Start(regs, dad, cmd, room), line);
    }
  }

  /** Over any number of exchanges: every call returns the card's response to what the card received
      in that exchange, the line is used up exactly, the sequence numbers agree at every boundary, and
      the card received all the commands, each exactly, if and only if nothing was lost. */
  lemma {:induction false} SessionDelivery(regs: Regs, c: Card, es: seq<Exchange>,
                                           sent: seq<seq<byte>>, more: seq<Arrival>)
    requires InStep(regs, c) && SessionConforms(regs, c, es)
    ensures var (regs', line', answers) :=
              TransceiveAll(regs, Line([], SessionArrivals(regs, c, es) + more, sent), es);
            && answers == Responses(es, Received(regs, c, es))
            && (Received(regs, c, es) == Commands(es) <==> SessionLosesNothing(regs, c, es))
            && InStep(regs', SessionCard(regs, c, es)) && line'.pending == [] && line'.arrivals == more
    decreases es
  {
    assert regs.Valid();
    hide Transceive, Ending, OnTheLine, Conforms, InStep, NothingLost;
    if es != [] {
      var q := Ending(regs, c, es[0]);
      var tail := SessionArrivals(q.last.regs, q.end, es[1..]) + more;
      JoinThree(OnTheLine(regs, c, es[0]), SessionArrivals(q.last.regs, q.end, es[1..]), more);
      Delivery(regs, c, es[0], sent, tail);
      var r := Transceive(regs, es[0].dad, es[0].cmd, es[0].room,
                          Line([], OnTheLine(regs, c, es[0]) + tail, sent));
      SessionDelivery(q.last.regs, q.end, es[1..], r.line.sent, more);
      var got, rest := Received(regs, c, es), Received(q.last.regs, q.end, es[1..]);
      assert got == [q.end.got] + rest && got[1..] == rest;
      SameHeadAndTail(got, Commands(es));
    }
  }

  lemma SameHeadAndTail(a: seq<seq<byte>>, b: seq<seq<byte>>)
    requires a != [] && b != []
    ensures a == b <==> a[0] == b[0] && a[1..] == b[1..]
  {
    assert a == [a[0]] + a[1..] && b == [b[0]] + b[1..];
  }
}
