/** A card that follows ISO/IEC 7816-3 section 11.6, as a state machine of its own: it reads the
    blocks the terminal sends and has the standard's freedom in answering them. */
module T1Card {
  import opened Bytes
  import opened Checksum
  import opened T1Wire

  /** A request the card may put before any block it owes. */
  datatype Request = IfsRequest(size: byte) | WtxRequest(multiplier: byte) {
    function SType(): byte {
      match this case IfsRequest(_) => S_IFS case WtxRequest(_) => S_WTX
    }

    function Info(): byte {
      match this case IfsRequest(n) => n case WtxRequest(n) => n
    }

    /** IFSC ranges over 1..254. */
    predicate Valid() {
      IfsRequest? ==> size != 0 && size != 255
    }
  }

  /** What the card computes from a complete command. */
  type App = seq<byte> -> seq<byte>

  /** ns: number of the card's current or next I-block; nr: number it expects next;
      got: the command octets received; talking: the command is complete and rest is the part
      of the response not yet acknowledged; last: length of the I-block in flight;
      asking: the request not yet answered; confirming: a resynchronisation was requested and no
      I-block has come since. */
  datatype Card = Card(
    ns: bit, nr: bit, got: seq<byte>, talking: bool, rest: seq<byte>,
    last: Option<nat>, asking: Option<Request>, confirming: bool)
  {
    predicate Valid() {
      && (last.Some? ==> talking && last.value <= |rest|)
      && (asking.Some? ==> asking.value.Valid())
    }

    /** Between two exchanges: nothing is owed, any response was sent to its end. */
    predicate AtBoundary() {
      && Valid() && asking.None? && !confirming
      && if talking then last == Some(|rest|) else got == []
    }

    /** Number of the first I-block of the next response. */
    function NextNs(): bit {
      if talking then Flip(ns) else ns
    }
  }

  /** The card after power-on. */
  const FRESH: Card := Card(0, 0, [], false, [], None, None, false)

  /** The card after a resynchronisation request: as after power-on, and it owes the confirmation. */
  const RESET: Card := FRESH.(confirming := true)

  /** The card takes in a block; None when the block breaks the rules of section 11.6. Afterwards
      the card owes a block. */
  function Absorb(c: Card, blk: Blk, app: App): Option<Card> {
    match blk
    case SBlk(t, response, data) =>
      if !response then if t == S_RESYNC && data == [] then Some(RESET) else None
      else if c.asking.Some? && t == c.asking.value.SType() && data == [c.asking.value.Info()]
      then Some(c.(asking := None)) else None
    case RBlk(nr, _) =>
      if c.confirming || c.asking.Some? then Some(c)                 // confirmation or request again
      else if !c.talking then
        if c.got != [] && nr == c.ns then Some(c) else None          // the acknowledgement again
      else if c.last.None? then None
      else if nr == c.ns then Some(c)                                // the I-block again
      else if c.last.value == |c.rest| || c.last.value > |c.rest| then None  // nothing to follow
      else Some(c.(rest := c.rest[c.last.value..], ns := Flip(c.ns), last := None))
    case IBlk(ns, more, data) =>
      if c.asking.Some? || ns != c.nr then None
      else if c.talking && c.last != Some(|c.rest|) then None        // it is the card's turn
      else
        var got := (if c.talking then [] else c.got) + data;
        var d := c.(ns := c.NextNs(), nr := Flip(c.nr), got := got, last := None, confirming := false);
        Some(if more then d.(talking := false, rest := []) else d.(talking := true, rest := app(got)))
  }

  /** How the card may go on: put a request first, or give the block it owes (a piece of k octets
      when it is talking, an acknowledgement otherwise), or confirm a resynchronisation. Or the block
      of the terminal arrived garbled, and the card says so in the error bits of an R-block. */
  datatype Turn = Ask(req: Request) | Answer(k: nat) | Confirm | Complain(nr: bit, err: byte)

  /** The longest information field that the terminal reads. */
  const LONGEST: nat := 253

  predicate CanTurn(c: Card, turn: Turn) {
    if c.confirming then turn == Confirm
    else if turn.Complain? then 0 < turn.err < 16
    else if c.asking.Some? then turn == Ask(c.asking.value)
    else if c.last.Some? then turn == Answer(c.last.value)
    else
      match turn
      case Ask(req) => req.Valid()
      case Answer(k) =>
        if c.talking then k <= LONGEST && k <= |c.rest| && (k == 0 ==> c.rest == []) else k == 0
      case _ => false
  }

  /** The block sent, and the card after sending it. */
  function Speak(c: Card, turn: Turn): (r: (Card, Blk))
    requires c.Valid() && CanTurn(c, turn)
    requires c.last.Some? ==> c.last.value <= LONGEST
    ensures r.0.Valid() && r.1.Valid() && |r.1.Info()| <= LONGEST
  {
    match turn
    case Ask(req) => AskValid(req); (c.(asking := Some(req)), SBlk(req.SType(), false, [req.Info()]))
    case Answer(k) =>
      if c.talking then (c.(last := Some(k)), IBlk(c.ns, k < |c.rest|, c.rest[..k]))
      else (c, RBlk(c.nr, 0))
    case Confirm => (c, SBlk(S_RESYNC, true, []))
    case Complain(nr, err) => (c, RBlk(nr, err))
  }

  lemma AskValid(req: Request)
    ensures req.SType() < 16
  {
  }

  // ---- scripts -----------------------------------------------------------------------------

  /** One answer of the card: its choice, the node address it uses, and, when the line garbles
      the block, the octets that arrive instead. Again is for what follows: the card cannot read the
      terminal's next block so many times in a row, and each time it asks for it by its number,
      under the node address given. */
  datatype Item = Item(turn: Turn, nad: byte, noise: Option<seq<byte>>, again: seq<byte>)

  /** What the terminal hears of a block. */
  function HeardAs(kind: Kind, item: Item, blk: Blk): seq<byte>
    requires blk.Valid()
  {
    if item.noise.Some? then item.noise.value else Encode(kind, item.nad, blk)
  }

  /** The request to repeat a block: the R-block with the number that the card expects. */
  function AskAgain(kind: Kind, c: Card, nad: byte): seq<byte> {
    Encode(kind, nad, RBlk(c.nr, 0))
  }
}
