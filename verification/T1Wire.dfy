/** T=1 blocks on the line: ISO/IEC 7816-3 section 11.3, as proto-t1.c encodes and decodes them. */
module T1Wire {
  import opened Bytes
  import opened Checksum

  datatype BlockType = I | R | S

  const I_BLOCK: byte := 0x00
  const R_BLOCK: byte := 0x80
  const S_BLOCK: byte := 0xC0
  const MORE_BLOCKS: byte := 0x20
  const EDC_ERROR: byte := 0x01
  const OTHER_ERROR: byte := 0x02
  const S_RESPONSE: byte := 0x20
  const S_RESYNC: byte := 0x00
  const S_IFS: byte := 0x01
  const S_ABORT: byte := 0x02
  const S_WTX: byte := 0x03

  // ---- reading the protocol control byte ------------------------------------------

  /** t1_block_type. */
  function TypeOf(pcb: byte): BlockType {
    if pcb & 0xC0 == R_BLOCK then R else if pcb & 0xC0 == S_BLOCK then S else I
  }

  /** t1_seq. */
  function SeqOf(pcb: byte): bit {
    LowBit(pcb >> 4);
    LowBit(pcb >> 6);
    match TypeOf(pcb)
    case R => (pcb >> 4) & 1
    case S => 0
    case I => (pcb >> 6) & 1
  }

  lemma LowBit(b: byte)
    ensures b & 1 == 0 || b & 1 == 1
  {
  }

  predicate HasMore(pcb: byte) { pcb & MORE_BLOCKS != 0 }

  predicate IsError(pcb: byte) { pcb & 0x0F != 0 }

  predicate IsResponse(pcb: byte) { pcb & S_RESPONSE != 0 }

  function SType(pcb: byte): byte { pcb & 0x0F }

  // ---- writing it --------------------------------------------------------------------

  function Flip(b: bit): bit {
    if b == 0 then 1 else 0
  }

  /** What t1_build makes of the pcb it is given: the more-data bit, then the sequence bit. */
  function BuiltPcb(pcb: byte, more: bool, ns: bit, nr: bit): byte {
    var p := if more then pcb | MORE_BLOCKS else pcb;
    match TypeOf(p)
    case R => p | (nr << 4)
    case I => p | (ns << 6)
    case S => p
  }

  /** Prologue and information field: what the check octets cover. */
  function Body(nad: byte, pcb: byte, data: seq<byte>): seq<byte>
    requires |data| < 256
  {
    [nad, pcb, ToByte(|data|)] + data
  }

  function Frame(kind: Kind, nad: byte, pcb: byte, data: seq<byte>): (b: seq<byte>)
    requires |data| < 256
    ensures |b| == 3 + |data| + RcBytes(kind)
  {
    Body(nad, pcb, data) + Edc(kind, Body(nad, pcb, data))
  }

  lemma FrameFields(kind: Kind, nad: byte, pcb: byte, data: seq<byte>)
    requires |data| < 256
    ensures var b := Frame(kind, nad, pcb, data);
            && b[0] == nad && b[1] == pcb && b[2] as int == |data| && b[3..3 + |data|] == data
            && Verifies(kind, b)
  {
    ChecksummedBlockVerifies(kind, Body(nad, pcb, data));
  }

  // ---- blocks as values ----------------------------------------------------------------

  datatype Blk =
    | IBlk(seqno: bit, more: bool, data: seq<byte>)
    | RBlk(expected: bit, err: byte)
    | SBlk(stype: byte, response: bool, data: seq<byte>)
  {
    function Info(): seq<byte> {
      match this
      case IBlk(_, _, data) => data
      case RBlk(_, _) => []
      case SBlk(_, _, data) => data
    }

    predicate Valid() {
      && |Info()| < 256
      && (RBlk? ==> err < 16)
      && (SBlk? ==> stype < 16)
    }
  }

  function PcbOf(blk: Blk): byte {
    match blk
    case IBlk(ns, more, _) => (ns << 6) | if more then MORE_BLOCKS else 0
    case RBlk(nr, err) => R_BLOCK | (nr << 4) | err
    case SBlk(t, response, _) => S_BLOCK | (if response then S_RESPONSE else 0) | t
  }

  function Encode(kind: Kind, nad: byte, blk: Blk): seq<byte>
    requires blk.Valid()
  {
    Frame(kind, nad, PcbOf(blk), blk.Info())
  }

  /** How the party at the other end reads a block; None if it is not a block at all. */
  function Parse(kind: Kind, b: seq<byte>): Option<Blk> {
    if |b| < 3 + RcBytes(kind) || |b| != 3 + b[2] as int + RcBytes(kind) || !Verifies(kind, b) then None
    else
      var pcb, data := b[1], b[3..3 + b[2] as int];
      match TypeOf(pcb)
      case I => Some(IBlk(SeqOf(pcb), HasMore(pcb), data))
      case R => if data == [] then Some(RBlk(SeqOf(pcb), pcb & 0x0F)) else None
      case S => Some(SBlk(SType(pcb), IsResponse(pcb), data))
  }

  lemma PcbOfI(ns: bit, more: bool)
    ensures var p := (ns << 6) | if more then MORE_BLOCKS else 0;
            TypeOf(p) == I && SeqOf(p) == ns && HasMore(p) == more
  {
    assert ns == 0 || ns == 1;
  }

  lemma PcbOfR(nr: bit, err: byte)
    requires err < 16
    ensures var p := R_BLOCK | (nr << 4) | err;
            TypeOf(p) == R && SeqOf(p) == nr && p & 0x0F == err
  {
  }

  lemma PcbOfS(t: byte, response: bool)
    requires t < 16
    ensures var p := S_BLOCK | (if response then S_RESPONSE else 0) | t;
            TypeOf(p) == S && SType(p) == t && IsResponse(p) == response
  {
  }

  /** The protocol control bytes of ISO/IEC 7816-3 section 11.3.2.2, as numbers. */
  lemma PcbNumbers(data: seq<byte>)
    ensures PcbOf(IBlk(0, false, data)) == 0x00 && PcbOf(IBlk(1, false, data)) == 0x40
    ensures PcbOf(IBlk(0, true, data)) == 0x20 && PcbOf(IBlk(1, true, data)) == 0x60
    ensures PcbOf(RBlk(0, 0)) == 0x80 && PcbOf(RBlk(1, 0)) == 0x90
    ensures PcbOf(RBlk(0, EDC_ERROR)) == 0x81 && PcbOf(RBlk(1, EDC_ERROR)) == 0x91
    ensures PcbOf(RBlk(0, OTHER_ERROR)) == 0x82 && PcbOf(RBlk(1, OTHER_ERROR)) == 0x92
    ensures PcbOf(SBlk(S_RESYNC, false, data)) == 0xC0 && PcbOf(SBlk(S_RESYNC, true, data)) == 0xE0
    ensures PcbOf(SBlk(S_IFS, false, data)) == 0xC1 && PcbOf(SBlk(S_IFS, true, data)) == 0xE1
    ensures PcbOf(SBlk(S_ABORT, false, data)) == 0xC2 && PcbOf(SBlk(S_ABORT, true, data)) == 0xE2
    ensures PcbOf(SBlk(S_WTX, false, data)) == 0xC3 && PcbOf(SBlk(S_WTX, true, data)) == 0xE3
  {
  }

  /** What the terminal makes of any protocol control byte: the block types by range, and the single
      bits that carry numbers, chaining, responses and errors. */
  lemma PcbRead(pcb: byte)
    ensures TypeOf(pcb) == if pcb < 0x80 then I else if pcb < 0xC0 then R else S
    ensures SeqOf(pcb) == 1 <==> 0x40 <= pcb < 0x80 || (0x90 <= pcb < 0xC0 && pcb & 0x10 == 0x10)
    ensures HasMore(pcb) <==> pcb & 0x20 == 0x20
    ensures IsResponse(pcb) <==> pcb & 0x20 == 0x20
    ensures IsError(pcb) <==> pcb & 0x0F != 0
    ensures pcb == (pcb & 0xF0) | SType(pcb) && SType(pcb) < 16
  {
  }

  /** The fields of an encoded block, as either party will read them. */
  lemma EncodedFields(kind: Kind, nad: byte, blk: Blk)
    requires blk.Valid()
    ensures var b := Encode(kind, nad, blk);
            && |b| == 3 + |blk.Info()| + RcBytes(kind)
            && b[2] as int == |blk.Info()| && b[3..3 + |blk.Info()|] == blk.Info()
            && Verifies(kind, b)
            && match blk {
                 case IBlk(ns, more, _) => TypeOf(b[1]) == I && SeqOf(b[1]) == ns && HasMore(b[1]) == more
                 case RBlk(nr, err) => TypeOf(b[1]) == R && SeqOf(b[1]) == nr && b[1] & 0x0F == err
                 case SBlk(t, response, _) =>
                   TypeOf(b[1]) == S && SType(b[1]) == t && IsResponse(b[1]) == response
               }
  {
    hide TypeOf, SeqOf, HasMore, IsResponse, SType, Verifies;
    FrameFields(kind, nad, PcbOf(blk), blk.Info());
    match blk
    case IBlk(ns, more, _) => PcbOfI(ns, more);
    case RBlk(nr, err) => PcbOfR(nr, err);
    case SBlk(t, response, _) => PcbOfS(t, response);
  }

  /** Every block survives the line. */
  lemma ParseEncode(kind: Kind, nad: byte, blk: Blk)
    requires blk.Valid()
    ensures Parse(kind, Encode(kind, nad, blk)) == Some(blk)
  {
    hide TypeOf, SeqOf, HasMore, IsResponse, SType, Verifies, Encode;
    EncodedFields(kind, nad, blk);
  }

  /** The pcb that t1_build composes is the pcb of the block it means to send. */
  lemma BuiltPcbMeans(more: bool, ns: bit, nr: bit, stype: byte)
    requires stype < 16
    ensures BuiltPcb(I_BLOCK, more, ns, nr) == PcbOf(IBlk(ns, more, []))
    ensures BuiltPcb(R_BLOCK, false, ns, nr) == PcbOf(RBlk(nr, 0))
    ensures BuiltPcb(R_BLOCK | EDC_ERROR, false, ns, nr) == PcbOf(RBlk(nr, EDC_ERROR))
    ensures BuiltPcb(R_BLOCK | OTHER_ERROR, false, ns, nr) == PcbOf(RBlk(nr, OTHER_ERROR))
    ensures BuiltPcb(S_BLOCK | S_RESYNC, false, ns, nr) == PcbOf(SBlk(S_RESYNC, false, []))
    ensures BuiltPcb(S_BLOCK | S_RESPONSE | stype, false, ns, nr) == PcbOf(SBlk(stype, true, []))
  {
  }
}
