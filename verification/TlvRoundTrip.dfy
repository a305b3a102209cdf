/** What the builder writes the parser reads back: for which items, and for which not. */
module TlvRoundTrip {
  import opened Bytes
  import opened Buffers
  import opened TlvSpec
  import opened TlvBuilding

  // ---- the parser reads the encoding --------------------------------------------------------------------

  lemma TagBits(tag: byte)
    requires !IsLarge(tag)
    ensures IsLarge(tag | LARGE) && Masked(tag | LARGE) == tag && Masked(tag) == tag
  {
  }

  lemma FirstEncoded(large: bool, tag: byte, value: seq<byte>, more: seq<byte>)
    requires Readable(large, tag, value)
    ensures var s := Encoded(large, tag, value) + more;
            && FirstItem(s) == Some((tag, 1 + LenSize(large), |value|))
            && s[1 + LenSize(large)..1 + LenSize(large) + |value|] == value
            && s[1 + LenSize(large) + |value|..] == more
            && IsLarge(s[0]) == large
  {
    TagBits(tag);
    EncodedParts(large, tag, value, more);
    hide IsLarge, Masked, Encoded, LenOctets;
    LenOctetsSay(large, |value|);
  }

  /** Where the parts of an encoded item are. */
  lemma EncodedParts(large: bool, tag: byte, value: seq<byte>, more: seq<byte>)
    requires |value| <= 65535
    ensures var s := Encoded(large, tag, value) + more; var at := 1 + LenSize(large);
            && |s| == at + |value| + |more| && s[0] == TagOctet(large, tag)
            && s[1] == LenOctets(large, |value|)[0] && (large ==> s[2] == LenOctets(large, |value|)[1])
            && s[at..at + |value|] == value && s[at + |value|..] == more
  {
    hide LenOctets, TagOctet;
    var s := Encoded(large, tag, value) + more;
    assert s == [TagOctet(large, tag)] + LenOctets(large, |value|) + (value + more);
  }

  /** Each tag with its last value. */
  function LastValues(items: seq<Item>, vals: Values): Values
    decreases items
  {
    if items == [] then vals else LastValues(items[1..], Set(vals, items[0].tag, Joined(items[0].chunks)))
  }

  lemma {:induction false} ParseEncoded(large: bool, items: seq<Item>, vals: Values, seen: bool)
    requires AllReadable(large, items) && WithinLimits(large, items)
    ensures Parse(EncodedAll(large, items), vals, seen)
            == Parsed(true, LastValues(items, vals), seen || (large && items != []), [])
    decreases items
  {
    hide Encoded, FirstItem, IsLarge, Joined;
    if items != [] {
      var i := items[0];
      var v := Joined(i.chunks);
      var more := EncodedAll(large, items[1..]);
      FirstEncoded(large, i.tag, v, more);
      ParseEncoded(large, items[1..], Set(vals, i.tag, v), seen || large);
      EncodedSize(large, i.tag, v);
    }
  }

  lemma EncodedSize(large: bool, tag: byte, value: seq<byte>)
    requires |value| <= 65535
    ensures |Encoded(large, tag, value)| == 1 + LenSize(large) + |value|
  {
  }

  /** Round trip: build any readable items, in either mode and with the values split anyhow, into a
      buffer with nothing waiting in it, wherever its positions are, such that each item fits behind
      its tag octet; parsing succeeds and gives every tag its last value. */
  lemma RoundTrip(large: bool, buf: Buf, items: seq<Item>)
    requires buf.Valid() && buf.Avail() == [] && AllReadable(large, items)
    requires Fits(buf.head, buf.tail, |buf.mem|, large, items)
    ensures var b := Build(Builder(buf, false, large, 0, None), items);
            && !b.error
            && Parse(b.buf.Avail(), NOTHING, false).ok
            && Parse(b.buf.Avail(), NOTHING, false).vals == LastValues(items, NOTHING)
  {
    hide Build, Parse, Fits, Encoded;
    var b0 := Builder(buf, false, large, 0, None);
    assert WithinLimits(large, items);
    BuildEncodes(b0, items);
    assert [] + EncodedAll(large, items) == EncodedAll(large, items);
    ParseEncoded(large, items, NOTHING, false);
  }

  /** The position of the last item with a tag. */
  function LastWith(items: seq<Item>, tag: byte): (r: Option<nat>)
    ensures r.Some? ==> r.value < |items| && items[r.value].tag == tag
    ensures forall j :: (if r.Some? then r.value + 1 else 0) <= j < |items| ==> items[j].tag != tag
    decreases items
  {
    if items == [] then None
    else
      match LastWith(items[1..], tag)
      case Some(k) => Some(k + 1)
      case None => if items[0].tag == tag then Some(0) else None
  }

  /** What get_opaque finds under a tag after that: the value of the last item with the tag. */
  lemma {:induction false} LastValueFound(items: seq<Item>, vals: Values, tag: byte)
    ensures Get(LastValues(items, vals), tag)
            == match LastWith(items, tag)
               case None => Get(vals, tag)
               case Some(k) => Some(Joined(items[k].chunks))
    decreases items
  {
    hide Joined, Get, Set;
    if items != [] {
      LastValueFound(items[1..], Set(vals, items[0].tag, Joined(items[0].chunks)), tag);
      GetSet(vals, items[0].tag, Joined(items[0].chunks), tag);
    }
  }

  lemma GetSet(vals: Values, t: byte, value: seq<byte>, tag: byte)
    ensures Get(Set(vals, t, value), tag) == if t == tag then Some(value) else Get(vals, tag)
  {
    if t as int == tag as int {
      SameValue(t, tag);
    }
  }

  /** A buffer of five octets from which two were taken: an item of four octets, its value put in two
      portions, is built without error, but the buffer moves before the second portion; the length is
      written over it, and the parser refuses what is left. */
  lemma MovedItemUnread()
    ensures var b0 := Builder(Buf([0, 0, 0, 0, 0], 2, 2, false), false, false, 0, None);
            var b := Build(b0, [Item(1, [[7], [8]])]);
            && !b.error && b.buf.Avail() == [1, 1, 7, 2] && !Parse(b.buf.Avail(), NOTHING, false).ok
  {
    hide Build, Parse;
    MovedItemBuilt();
    ShortRestRefused();
  }

  lemma MovedItemBuilt()
    ensures Build(Builder(Buf([0, 0, 0, 0, 0], 2, 2, false), false, false, 0, None), [Item(1, [[7], [8]])])
            == Builder(Buf([1, 1, 7, 2, 7], 0, 4, false), false, false, 2, Some(3))
  {
    hide PutTag, AddBytes;
    var b0 := Builder(Buf([0, 0, 0, 0, 0], 2, 2, false), false, false, 0, None);
    TagPut();
    FirstChunkPut();
    SecondChunkPut();
    TwoChunks(PutTag(b0, 1), [7], [8]);
    OneItemBuild(b0, Item(1, [[7], [8]]));
  }

  lemma TagPut()
    ensures PutTag(Builder(Buf([0, 0, 0, 0, 0], 2, 2, false), false, false, 0, None), 1)
            == Builder(Buf([0, 0, 1, 0, 0], 2, 4, false), false, false, 0, Some(3))
  {
    var b := Buf([0, 0, 0, 0, 0], 2, 2, false);
    RoomyPut(b, [1]);
    assert b.Put([1]).0.mem == [0, 0, 1, 0, 0];
    RoomyPut(b.Put([1]).0, [0]);
  }

  lemma FirstChunkPut()
    ensures AddBytes(Builder(Buf([0, 0, 1, 0, 0], 2, 4, false), false, false, 0, Some(3)), [7])
            == Builder(Buf([0, 0, 1, 1, 7], 2, 5, false), false, false, 1, Some(3))
  {
    RoomyPut(Buf([0, 0, 1, 0, 0], 2, 4, false), [7]);
    SmallLengths();
    hide LenOctets;
  }

  lemma SecondChunkPut()
    ensures AddBytes(Builder(Buf([0, 0, 1, 1, 7], 2, 5, false), false, false, 1, Some(3)), [8])
            == Builder(Buf([1, 1, 7, 2, 7], 0, 4, false), false, false, 2, Some(3))
  {
    hide Buf.Put, LenOctets;
    MovedPut();
    SmallLengths();
  }

  lemma SmallLengths()
    ensures LenOctets(false, 1) == [1] && LenOctets(false, 2) == [2]
  {
    hide ToByte;
    SameValue(ToByte(1), 1);
    SameValue(ToByte(2), 2);
  }

  lemma TwoChunks(b: Builder, x: seq<byte>, y: seq<byte>)
    requires b.Valid()
    ensures AddAll(b, [x, y]) == AddBytes(AddBytes(b, x), y)
  {
    hide AddBytes;
    assert [x, y][1..] == [y] && [y][1..] == [];
    assert AddAll(AddBytes(b, x), [y]) == AddBytes(AddBytes(b, x), y);
  }

  lemma OneItemBuild(b: Builder, i: Item)
    requires b.Valid()
    ensures Build(b, [i]) == AddAll(PutTag(b, i.tag), i.chunks)
  {
    hide PutTag, AddAll;
    assert [i][1..] == [];
  }

  lemma ShortRestRefused()
    ensures !Parse([1, 1, 7, 2], NOTHING, false).ok
  {
    var s: seq<byte> := [1, 1, 7, 2];
    assert |s| == 4 && s[0] == 1 && s[1] == 1 && s[1] as int == 1 && !IsLarge(1);
    OneOctetLeft(s, NOTHING, false);
  }

  /** A single octet behind an item is refused. */
  lemma OneOctetLeft(s: seq<byte>, vals: Values, seen: bool)
    requires FirstItem(s).Some? && |s| == FirstItem(s).value.1 + FirstItem(s).value.2 + 1
    ensures !Parse(s, vals, seen).ok
  {
    var (tag, at, len) := FirstItem(s).value;
    var rest, vals', seen' := s[at + len..], Set(vals, tag, s[at..at + len]), seen || (IsLarge(s[0]) && |s| >= 2);
    OneOctetRefused(rest, vals', seen');
    assert Parse(s, vals, seen) == Parse(rest, vals', seen');
  }

  lemma OneOctetRefused(s: seq<byte>, vals: Values, seen: bool)
    requires |s| == 1
    ensures !Parse(s, vals, seen).ok
  {
  }

  lemma MovedPut()
    ensures Buf([0, 0, 1, 1, 7], 2, 5, false).Put([8]) == (Buf([1, 1, 7, 8, 7], 0, 4, false), true)
  {
    var b := Buf([0, 0, 1, 1, 7], 2, 5, false);
    var c := b.Compact();
    assert c.mem == [1, 1, 7, 1, 7];
    assert c.mem[..3] + [8] + c.mem[4..] == [1, 1, 7, 8, 7];
  }

  // ---- what does not survive -----------------------------------------------------------------------------

  /** What is found under the tag has at most n octets, and nothing is if the tag has the large bit. */
  predicate Plain(vals: Values, tag: byte, n: nat) {
    Get(vals, tag).Some? ==> !IsLarge(tag) && |Get(vals, tag).value| <= n
  }

  lemma SetPlain(vals: Values, tag: byte, n: nat, t: byte, value: seq<byte>)
    requires Plain(vals, tag, n) && !IsLarge(t) && |value| <= n
    ensures Plain(Set(vals, t, value), tag, n)
  {
    if t as int == tag as int {
      SameValue(t, tag);
    }
    hide IsLarge;
  }

  lemma {:induction false} ParseFindsLess(s: seq<byte>, vals: Values, seen: bool, tag: byte, n: nat)
    requires Plain(vals, tag, n) && |s| <= n + 2
    ensures Plain(Parse(s, vals, seen).vals, tag, n)
    decreases |s|
  {
    hide IsLarge, Masked, Plain;
    if s != [] {
      match FirstItem(s)
      case None =>
      case Some((t, at, len)) =>
        FirstTagPlain(s);
        SetPlain(vals, tag, n, t, s[at..at + len]);
        ParseFindsLess(s[at + len..], Set(vals, t, s[at..at + len]), seen || (IsLarge(s[0]) && |s| >= 2), tag, n);
    }
  }

  lemma FirstTagPlain(s: seq<byte>)
    requires FirstItem(s).Some?
    ensures !IsLarge(FirstItem(s).value.0)
  {
    MaskedPlain(s[0]);
  }

  lemma MaskedPlain(b: byte)
    ensures !IsLarge(Masked(b))
  {
  }

  /** For a single item that the builder accepts, the parser gives the value back exactly when the
      item is readable. In small mode the builder accepts values of 256 to 266 octets, whose length
      field is wrong. */
  lemma RoundTripIffReadable(large: bool, tag: byte, value: seq<byte>)
    requires |value| <= Limit(large)
    ensures Lookup(Encoded(large, tag, value), tag) == Some(value) <==> Readable(large, tag, value)
  {
    var s := Encoded(large, tag, value);
    EncodedSize(large, tag, value);
    if Readable(large, tag, value) {
      ReadableRead(large, tag, value);
    } else if IsLarge(tag) {
      ParseFindsLess(s, NOTHING, false, tag, |s|);
    } else if value == [] {
      EmptyUnread(large, tag);
    } else {
      LongUnread(tag, value);
    }
  }

  lemma ReadableRead(large: bool, tag: byte, value: seq<byte>)
    requires Readable(large, tag, value)
    ensures Lookup(Encoded(large, tag, value), tag) == Some(value)
  {
    var s := Encoded(large, tag, value);
    EncodedSize(large, tag, value);
    FirstEncoded(large, tag, value, []);
    assert s + [] == s;
    hide Encoded, FirstItem, IsLarge;
    var seen := IsLarge(s[0]) && |s| >= 2;
    var vals := Set(NOTHING, tag, value);
    assert Parse(s, NOTHING, false) == Parse([], vals, seen) == Parsed(true, vals, seen, []);
  }

  lemma EmptyUnread(large: bool, tag: byte)
    requires !IsLarge(tag)
    ensures FirstItem(Encoded(large, tag, [])).None?
  {
    TagBits(tag);
    ZeroLength(large);
  }

  /** The length field of a value that is too long for it says 256 less. */
  lemma LongHeader(tag: byte, value: seq<byte>)
    requires !IsLarge(tag) && 256 <= |value| <= 266
    ensures var s := Encoded(false, tag, value);
            && |s| == 2 + |value| && s[0] == tag
            && if |value| == 256 then FirstItem(s) == None else FirstItem(s) == Some((tag, 2, |value| - 256))
  {
    TagBits(tag);
    EncodedParts(false, tag, value, []);
    LongLength(|value|);
    hide Encoded, LenOctets, IsLarge, Masked;
    var s := Encoded(false, tag, value);
    assert s + [] == s;
  }

  lemma LongLength(n: nat)
    requires 256 <= n <= 266
    ensures LenOctets(false, n)[0] as int == n - 256
  {
    hide ToByte;
    assert n % 256 == n - 256;
  }

  lemma LongUnread(tag: byte, value: seq<byte>)
    requires !IsLarge(tag) && 256 <= |value| <= 266
    ensures Lookup(Encoded(false, tag, value), tag) != Some(value)
  {
    hide IsLarge, Encoded, FirstItem;
    var s := Encoded(false, tag, value);
    var len := |value| - 256;
    LongHeader(tag, value);
    if len > 0 {
      var first := s[2..2 + len];
      var t := FirstItem(s).value.0;
      FirstTagPlain(s);
      SetPlain(NOTHING, tag, 255, t, first);
      ParseFindsLess(s[2 + len..], Set(NOTHING, t, first), false, tag, 255);
      assert Parse(s, NOTHING, false) == Parse(s[2 + len..], Set(NOTHING, t, first), false);
    }
  }

  // ---- numbers -----------------------------------------------------------------------------------------------

  lemma {:induction false} IntValueOctets(v: nat)
    requires v < 0x1_0000_0000
    ensures IntValue(IntOctets(v)) == v
  {
    hide ToByte, IntValue;
    if v < 256 {
      NoValue();
      assert [] + [ToByte(v)] == [ToByte(v)];
      IntValueNext([], ToByte(v), v);
    } else {
      var q, r := v / 256, v % 256;
      assert v == 256 * q + r;
      IntValueOctets(q);
      IntValueNext(IntOctets(q), ToByte(r), v);
    }
  }

  lemma NoValue()
    ensures IntValue([]) == 0
  {
  }

  lemma IntValueNext(s: seq<byte>, b: byte, v: nat)
    requires v < 0x1_0000_0000 && v == 256 * IntValue(s) + b as int
    ensures IntValue(s + [b]) == v
  {
    assert (s + [b])[..|s|] == s;
  }

  lemma IntOctetsShort(v: nat)
    requires v < 0x1_0000_0000
    ensures 1 <= |IntOctets(v)| <= 4
  {
    hide ToByte;
    var a := v / 256;
    var b := a / 256;
    var c := b / 256;
    assert c < 256 && |IntOctets(c)| == 1;
    assert |IntOctets(b)| <= 2;
    assert |IntOctets(a)| <= 3;
  }

  /** put_int then get_int is the identity on 32-bit numbers, in either mode. */
  lemma IntRoundTrip(large: bool, tag: byte, v: nat)
    requires v < 0x1_0000_0000 && !IsLarge(tag)
    ensures |IntOctets(v)| <= 4
    ensures var found := Lookup(Encoded(large, tag, IntOctets(v)), tag);
            found.Some? && IntValue(found.value) == v
  {
    IntOctetsShort(v);
    IntValueOctets(v);
    RoundTripIffReadable(large, tag, IntOctets(v));
  }
}
