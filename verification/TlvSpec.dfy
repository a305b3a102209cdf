/** Tag-length-value items (tlv.c): what the builder leaves in a buffer and what the parser finds
    there. */
module TlvSpec {
  import opened Bytes
  import opened Buffers

  const LARGE: byte := 0x40

  predicate IsLarge(tag: byte) {
    tag & LARGE != 0
  }

  function Masked(tag: byte): byte {
    tag & !LARGE
  }

  lemma PlainTag(tag: byte)
    requires !IsLarge(tag)
    ensures Masked(tag) == tag
  {
  }

  // ---- building -----------------------------------------------------------------------------------

  /** ct_tlv_builder_t; lenp is the place in memory where the length field of the item being built was
      put. It does not follow when the buffer compacts. */
  datatype Builder = Builder(buf: Buf, error: bool, large: bool, len: nat, lenp: Option<nat>) {
    predicate Valid() {
      buf.Valid()
    }
  }

  function LenSize(large: bool): nat {
    if large then 2 else 1
  }

  /** The length field: in small mode only the low octet of the length. */
  function LenOctets(large: bool, len: nat): (s: seq<byte>)
    requires len <= 65535
    ensures |s| == LenSize(large)
  {
    if large then [ToByte(len / 256), ToByte(len % 256)] else [ToByte(len % 256)]
  }

  function TagOctet(large: bool, tag: byte): byte {
    if large then tag | LARGE else tag
  }

  /** The longest value the builder accepts. */
  function Limit(large: bool): nat {
    if large then 65535 else 266
  }

  /** The large bit is 0x40: the builder sets it in large mode, the parser looks for it and clears it. */
  lemma LargeBit(tag: byte)
    ensures TagOctet(true, tag) == tag | 0x40 && TagOctet(false, tag) == tag
    ensures IsLarge(tag) <==> tag & 0x40 != 0
    ensures Masked(tag) == tag & 0xBF
  {
  }

  function PutTag(b: Builder, tag: byte): (c: Builder)
    requires b.Valid()
    ensures c.Valid() && c.large == b.large && |c.buf.mem| == |b.buf.mem|
  {
    if b.error then b
    else
      var (b1, ok1) := b.buf.Put([TagOctet(b.large, tag)]);
      if !ok1 then b.(buf := b1, error := true)
      else
        var c := b.(buf := b1, len := 0, lenp := Some(b1.tail));
        var (b2, ok2) := b1.Put([0]);
        if !ok2 then c.(buf := b2, error := true)
        else if !b.large then c.(buf := b2)
        else var (b3, ok3) := b2.Put([0]); c.(buf := b3, error := !ok3)
  }

  /** Memory after octets were written at a place; those that lie behind its end are not kept. */
  function Patched(mem: seq<byte>, at: nat, octets: seq<byte>): (r: seq<byte>)
    ensures |r| == |mem|
    ensures forall i :: 0 <= i < |r| ==> r[i] == if at <= i < at + |octets| then octets[i - at] else mem[i]
  {
    if at >= |mem| then mem
    else
      var n := Min(|octets|, |mem| - at);
      mem[..at] + octets[..n] + mem[at + n..]
  }

  function AddBytes(b: Builder, data: seq<byte>): (c: Builder)
    requires b.Valid()
    ensures c.Valid() && c.large == b.large && |c.buf.mem| == |b.buf.mem|
  {
    if b.error then b
    else if b.lenp.None? then b.(error := true)
    else
      var len := b.len + |data|;
      var (b1, ok) := b.buf.Put(data);
      if !ok || len > Limit(b.large) then b.(buf := b1, len := len, error := true)
      else b.(len := len, buf := b1.(mem := Patched(b1.mem, b.lenp.value, LenOctets(b.large, len))))
  }

  function PutOpaque(b: Builder, tag: byte, data: seq<byte>): (c: Builder)
    requires b.Valid()
    ensures c.Valid()
  {
    if b.error then b else AddBytes(PutTag(b, tag), data).(lenp := None)
  }

  /** The octets of a 32-bit number, most significant first, without leading zeros. */
  function IntOctets(v: nat): (s: seq<byte>)
    ensures |s| >= 1
  {
    if v < 256 then [ToByte(v)] else IntOctets(v / 256) + [ToByte(v % 256)]
  }

  /** The octets of a number: the lowest last, no leading zero. */
  lemma {:induction false} IntOctetsOrder(v: nat)
    ensures var s := IntOctets(v);
            && s[|s| - 1] as int == v % 256 && (v >= 256 ==> s[..|s| - 1] == IntOctets(v / 256))
            && (v < 256 ==> |s| == 1) && (s[0] as int == 0 ==> v == 0)
    decreases v
  {
    hide ToByte;
    if v >= 256 {
      IntOctetsOrder(v / 256);
      assert IntOctets(v)[0] == IntOctets(v / 256)[0];
    }
  }

  // ---- items -----------------------------------------------------------------------------------------

  /** One item, its value given in portions. */
  datatype Item = Item(tag: byte, chunks: seq<seq<byte>>)

  function Joined(chunks: seq<seq<byte>>): seq<byte> {
    if chunks == [] then [] else chunks[0] + Joined(chunks[1..])
  }

  function AddAll(b: Builder, chunks: seq<seq<byte>>): (c: Builder)
    requires b.Valid()
    ensures c.Valid() && c.large == b.large && |c.buf.mem| == |b.buf.mem|
    decreases chunks
  {
    if chunks == [] then b else AddAll(AddBytes(b, chunks[0]), chunks[1..])
  }

  function Build(b: Builder, items: seq<Item>): (c: Builder)
    requires b.Valid()
    ensures c.Valid() && c.large == b.large && |c.buf.mem| == |b.buf.mem|
    decreases items
  {
    if items == [] then b else Build(AddAll(PutTag(b, items[0].tag), items[0].chunks), items[1..])
  }

  /** What one item should look like. */
  function Encoded(large: bool, tag: byte, value: seq<byte>): seq<byte>
    requires |value| <= 65535
  {
    [TagOctet(large, tag)] + LenOctets(large, |value|) + value
  }

  /** Where the parts of an item lie; in large mode the high octet of the length comes first. */
  lemma ItemLayout(large: bool, tag: byte, value: seq<byte>)
    requires |value| <= 65535
    ensures var s := Encoded(large, tag, value);
            if large then
              |s| == 3 + |value| && s[0] == tag | 0x40 && s[1] as int * 256 + s[2] as int == |value| && s[3..] == value
            else
              |s| == 2 + |value| && s[0] == tag && s[1] as int == |value| % 256 && s[2..] == value
  {
    hide ToByte;
    assert |value| == |value| / 256 * 256 + |value| % 256;
  }

  /** No value is longer than the builder accepts. */
  predicate WithinLimits(large: bool, items: seq<Item>) {
    forall i :: i in items ==> |Joined(i.chunks)| <= if large then 65535 else 266
  }

  function EncodedAll(large: bool, items: seq<Item>): seq<byte>
    requires WithinLimits(large, items)
  {
    if items == [] then []
    else Encoded(large, items[0].tag, Joined(items[0].chunks)) + EncodedAll(large, items[1..])
  }

  // ---- parsing ----------------------------------------------------------------------------------------

  /** The parser's tables val and len: for each of the 256 tags the value last seen. */
  type Values = s: seq<Option<seq<byte>>> | |s| == 256 witness Blank(256)

  function Blank(n: nat): (s: seq<Option<seq<byte>>>)
    ensures |s| == n && forall i :: 0 <= i < n ==> s[i] == None
  {
    if n == 0 then [] else [None] + Blank(n - 1)
  }

  const NOTHING: Values := Blank(256)

  function Get(vals: Values, tag: byte): Option<seq<byte>> {
    vals[tag as int]
  }

  function Set(vals: Values, tag: byte, value: seq<byte>): Values {
    vals[tag as int := Some(value)]
  }

  datatype Parsed = Parsed(ok: bool, vals: Values, large: bool, rest: seq<byte>)

  /** The first item of s: tag, position of the value, length of the value. */
  function FirstItem(s: seq<byte>): (r: Option<(byte, nat, nat)>)
    ensures r.Some? ==> 2 <= r.value.1 <= 3 && 0 < r.value.2 && r.value.1 + r.value.2 <= |s|
  {
    if |s| < 2 || (IsLarge(s[0]) && |s| < 3) then None
    else
      var header := if IsLarge(s[0]) then 3 else 2;
      var len := if IsLarge(s[0]) then 256 * (s[1] as int) + s[2] as int else s[1] as int;
      if len == 0 || header + len > |s| then None else Some((Masked(s[0]), header, len))
  }

  /** ct_tlv_parse. */
  function Parse(s: seq<byte>, vals: Values, large: bool): Parsed
    decreases |s|
  {
    if s == [] then Parsed(true, vals, large, s)
    else
      var large' := large || (IsLarge(s[0]) && |s| >= 2);
      match FirstItem(s)
      case None => Parsed(false, vals, large', s)
      case Some((tag, at, len)) => Parse(s[at + len..], Set(vals, tag, s[at..at + len]), large')
  }

  /** One pass of the parser. */
  lemma ParseStep(s: seq<byte>, vals: Values, large: bool)
    requires s != []
    ensures var large' := large || (IsLarge(s[0]) && |s| >= 2);
            Parse(s, vals, large)
            == match FirstItem(s)
               case None => Parsed(false, vals, large', s)
               case Some((tag, at, len)) => Parse(s[at + len..], Set(vals, tag, s[at..at + len]), large')
  {
  }

  lemma ParseNothing(vals: Values, large: bool)
    ensures Parse([], vals, large) == Parsed(true, vals, large, [])
  {
  }

  /** Where parsing stops: at a single octet, and at a large tag with one octet of its length, which turns
      large mode on nevertheless. */
  lemma TruncatedItem(s: seq<byte>, vals: Values, large: bool)
    requires |s| == 1 || (|s| == 2 && s[0] & 0x40 != 0)
    ensures Parse(s, vals, large) == Parsed(false, vals, large || |s| == 2, s)
  {
  }

  function Lookup(s: seq<byte>, tag: byte): Option<seq<byte>> {
    var p := Parse(s, NOTHING, false);
    if p.ok then Get(p.vals, tag) else None
  }

  /** ct_tlv_get_int: an unsigned int, so the value modulo 2^32. */
  function IntValue(s: seq<byte>): (v: nat)
    ensures v < 0x1_0000_0000
  {
    if s == [] then 0 else (256 * IntValue(s[..|s| - 1]) + s[|s| - 1] as int) % 0x1_0000_0000
  }
}
