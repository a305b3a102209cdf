/** What the builder leaves in the buffer (tlv.c:186-241): the encodings of the items, unless the
    buffer compacts between a tag and the end of its value. */
module TlvBuilding {
  import opened Bytes
  import opened Buffers
  import opened TlvSpec

  /** Items that survive: a tag without the large bit, a value that is not empty and, in small mode,
      not longer than its length field can say. */
  predicate Readable(large: bool, tag: byte, value: seq<byte>) {
    !IsLarge(tag) && 0 < |value| <= if large then 65535 else 255
  }

  ghost predicate AllReadable(large: bool, items: seq<Item>) {
    forall i :: i in items ==> Readable(large, i.tag, Joined(i.chunks))
  }

  function Sizes(large: bool, items: seq<Item>): nat {
    if items == [] then 0
    else 1 + LenSize(large) + |Joined(items[0].chunks)| + Sizes(large, items[1..])
  }

  lemma LenOctetsSay(large: bool, n: nat)
    requires n <= if large then 65535 else 255
    ensures var s := LenOctets(large, n);
            n == if large then 256 * (s[0] as int) + s[1] as int else s[0] as int
  {
    hide ToByte;
  }

  // ---- when it reports an error ----------------------------------------------------------------

  lemma AddBytesError(b: Builder, data: seq<byte>)
    requires b.Valid() && !b.error
    ensures var c := AddBytes(b, data);
            && c.error == (b.lenp.None? || |b.buf.Avail()| + |data| > |b.buf.mem| || b.len + |data| > Limit(b.large))
            && (!c.error ==> |c.buf.Avail()| == |b.buf.Avail()| + |data|
                             && c.lenp == b.lenp && c.len == b.len + |data|)
  {
    hide LenOctets, Patched;
    PutIsEnqueue(b.buf, data);
  }

  lemma {:induction false} AddAllError(b: Builder, chunks: seq<seq<byte>>)
    requires b.Valid() && !b.error && b.lenp.Some? && b.len <= Limit(b.large)
    ensures var c := AddAll(b, chunks); var n := |Joined(chunks)|;
            && c.error == (|b.buf.Avail()| + n > |b.buf.mem| || b.len + n > Limit(b.large))
            && (!c.error ==> |c.buf.Avail()| == |b.buf.Avail()| + n && c.len == b.len + n)
    decreases chunks
  {
    hide AddBytes;
    if chunks != [] {
      AddBytesError(b, chunks[0]);
      var c := AddBytes(b, chunks[0]);
      if c.error {
        ErrorStays(c, chunks[1..]);
      } else {
        AddAllError(c, chunks[1..]);
      }
    }
  }

  lemma PutTagError(b: Builder, tag: byte)
    requires b.Valid() && !b.error
    ensures var c := PutTag(b, tag);
            && c.error == (|b.buf.Avail()| + 1 + LenSize(b.large) > |b.buf.mem|)
            && (!c.error ==> c.lenp.Some? && c.len == 0
                             && |c.buf.Avail()| == |b.buf.Avail()| + 1 + LenSize(b.large))
  {
    hide TagOctet;
    var t := TagOctet(b.large, tag);
    PutIsEnqueue(b.buf, [t]);
    var (b1, ok1) := b.buf.Put([t]);
    if ok1 {
      PutIsEnqueue(b1, [0]);
      var (b2, ok2) := b1.Put([0]);
      if ok2 && b.large {
        PutIsEnqueue(b2, [0]);
      }
    }
    hide Buf.Put;
  }

  lemma {:induction false} ErrorStays(b: Builder, chunks: seq<seq<byte>>)
    requires b.Valid() && b.error
    ensures AddAll(b, chunks) == b
    decreases chunks
  {
    if chunks != [] {
      ErrorStays(b, chunks[1..]);
    }
  }

  lemma {:induction false} ErrorStaysInBuild(b: Builder, items: seq<Item>)
    requires b.Valid() && b.error
    ensures Build(b, items) == b
    decreases items
  {
    if items != [] {
      ErrorStays(b, items[0].chunks);
      ErrorStaysInBuild(b, items[1..]);
    }
  }

  /** The builder reports no error exactly when every value is within its limit and everything fits
      beside what the buffer held, wherever in its memory that was. */
  lemma {:induction false} BuildError(b: Builder, items: seq<Item>)
    requires b.Valid() && !b.error
    ensures Build(b, items).error
            == !(WithinLimits(b.large, items) && |b.buf.Avail()| + Sizes(b.large, items) <= |b.buf.mem|)
    decreases items
  {
    hide PutTag, AddAll, Joined;
    if items != [] {
      var i := items[0];
      var p := PutTag(b, i.tag);
      PutTagError(b, i.tag);
      assert forall j :: j in items <==> j == i || j in items[1..];
      if p.error {
        ErrorStays(p, i.chunks);
        ErrorStaysInBuild(p, items[1..]);
      } else {
        AddAllError(p, i.chunks);
        var c := AddAll(p, i.chunks);
        if c.error {
          ErrorStaysInBuild(c, items[1..]);
        } else {
          BuildError(c, items[1..]);
        }
      }
    }
  }

  // ---- while the buffer does not move -------------------------------------------------------------

  /** Building is under way: behind what was there before stands the item so far, and lenp is where
      its length field is. */
  ghost predicate InItem(b: Builder, before: seq<byte>, tag: byte, value: seq<byte>) {
    && b.Valid() && !b.error
    && |value| <= Limit(b.large) && b.len == |value|
    && b.lenp == Some(b.buf.head + |before| + 1)
    && b.buf.Avail() == before + Encoded(b.large, tag, value)
  }

  lemma RoomyPut(b: Buf, data: seq<byte>)
    requires b.Valid() && b.tail + |data| <= |b.mem|
    ensures b.Put(data).1
    ensures b.Put(data).0 == b.(mem := b.mem[..b.tail] + data + b.mem[b.tail + |data|..], tail := b.tail + |data|)
    ensures b.Put(data).0.Avail() == b.Avail() + data
  {
    PutIsEnqueue(b, data);
  }

  /** The buffer as the tag octet finds it: moved to the front if its memory was full to the end. */
  function Ready(b: Buf): (d: Buf)
    requires b.Valid()
    ensures d.Valid() && |d.mem| == |b.mem| && d.Avail() == b.Avail()
    ensures d.head == (if b.tail + 1 > |b.mem| then 0 else b.head)
    ensures d.tail == (if b.tail + 1 > |b.mem| then b.tail - b.head else b.tail)
  {
    CompactKeepsContents(b);
    b.MakeRoom(1)
  }

  /** PutTag when all its octets fit: three puts, or two, behind the tail. */
  lemma PutTagPuts(b: Builder, tag: byte, b1: Buf, b2: Buf, b3: Buf)
    requires b.Valid() && !b.error && b1.Valid() && b2.Valid()
    requires b.buf.Put([TagOctet(b.large, tag)]) == (b1, true) && b1.Put([0]) == (b2, true)
    requires if b.large then b2.Put([0]) == (b3, true) else b3 == b2
    ensures PutTag(b, tag) == b.(buf := b3, len := 0, lenp := Some(b1.tail))
  {
    hide Buf.Put, TagOctet;
  }

  lemma PutTagBegins(b: Builder, tag: byte)
    requires b.Valid() && !b.error && Ready(b.buf).tail + 1 + LenSize(b.large) <= |b.buf.mem|
    ensures var c := PutTag(b, tag);
            && InItem(c, b.buf.Avail(), tag, []) && c.large == b.large
            && c.buf.head == Ready(b.buf).head && c.buf.tail == Ready(b.buf).tail + 1 + LenSize(b.large)
  {
    var before := b.buf.Avail();
    var t := TagOctet(b.large, tag);
    var d := Ready(b.buf);
    ReadyPut(b.buf, t);
    RoomyPut(d, [t]);
    var b1 := d.Put([t]).0;
    RoomyPut(b1, [0]);
    var b2 := b1.Put([0]).0;
    if b.large {
      RoomyPut(b2, [0]);
    }
    hide Buf.Put, Buf.Avail, Ready, PutTag, TagOctet, LenOctets;
    PutTagPuts(b, tag, b1, b2, if b.large then b2.Put([0]).0 else b2);
    ZeroLength(b.large);
    assert if b.large then before + [t] + [0] + [0] == before + Encoded(b.large, tag, [])
           else before + [t] + [0] == before + Encoded(b.large, tag, []);
  }

  lemma ReadyPut(b: Buf, t: byte)
    requires b.Valid()
    ensures b.Put([t]) == Ready(b).Put([t])
  {
  }

  lemma ZeroLength(large: bool)
    ensures LenOctets(large, 0) == if large then [0, 0] else [0]
  {
  }

  /** Writing inside the contents of a buffer. */
  lemma PatchInside(mem: seq<byte>, head: nat, tail: nat, at: nat, octets: seq<byte>)
    requires head + at + |octets| <= tail <= |mem|
    ensures Patched(mem, head + at, octets)[head..tail] == Patched(mem[head..tail], at, octets)
  {
    hide Patched;
  }

  /** Rewriting the length field of the last item. */
  lemma PatchLength(before: seq<byte>, t: byte, old': seq<byte>, new': seq<byte>, value: seq<byte>)
    requires |old'| == |new'|
    ensures Patched(before + ([t] + old' + value), |before| + 1, new') == before + ([t] + new' + value)
  {
    hide Patched;
  }

  lemma AddBytesExtends(b: Builder, before: seq<byte>, tag: byte, value: seq<byte>, data: seq<byte>)
    requires InItem(b, before, tag, value) && b.buf.tail + |data| <= |b.buf.mem|
    ensures var c := AddBytes(b, data);
            && c.error == (|value + data| > Limit(b.large))
            && (!c.error ==> InItem(c, before, tag, value + data) && c.large == b.large
                             && c.buf.head == b.buf.head && c.buf.tail == b.buf.tail + |data|)
  {
    hide TagOctet, LenOctets, Patched;
    RoomyPut(b.buf, data);
    var b1 := b.buf.Put(data).0;
    if |value + data| <= Limit(b.large) {
      var t := TagOctet(b.large, tag);
      var new' := LenOctets(b.large, |value + data|);
      var old' := LenOctets(b.large, |value|);
      assert b1.Avail() == before + ([t] + old' + (value + data));
      PatchLength(before, t, old', new', value + data);
      PatchInside(b1.mem, b1.head, b1.tail, |before| + 1, new');
    }
  }

  lemma {:induction false} AddAllExtends(b: Builder, before: seq<byte>, tag: byte, value: seq<byte>, chunks: seq<seq<byte>>)
    requires InItem(b, before, tag, value) && b.buf.tail + |Joined(chunks)| <= |b.buf.mem|
    ensures var c, whole := AddAll(b, chunks), value + Joined(chunks);
            && c.error == (|whole| > Limit(b.large))
            && (!c.error ==> InItem(c, before, tag, whole) && c.large == b.large
                             && c.buf.head == b.buf.head && c.buf.tail == b.buf.tail + |Joined(chunks)|)
    decreases chunks
  {
    hide AddBytes, InItem;
    InItemFits(b, before, tag, value);
    if chunks == [] {
      assert value + [] == value;
    } else {
      AddBytesExtends(b, before, tag, value, chunks[0]);
      var c := AddBytes(b, chunks[0]);
      JoinThree(value, chunks[0], Joined(chunks[1..]));
      if c.error {
        ErrorStays(c, chunks[1..]);
      } else {
        AddAllExtends(c, before, tag, value + chunks[0], chunks[1..]);
      }
    }
  }

  lemma InItemFits(b: Builder, before: seq<byte>, tag: byte, value: seq<byte>)
    requires InItem(b, before, tag, value)
    ensures b.Valid() && !b.error && b.buf.tail <= |b.buf.mem| && |value| <= Limit(b.large)
  {
  }

  /** Each item fits behind its tag octet without the buffer being moved, the buffer's positions being
      head and tail when the first one begins. */
  predicate Fits(head: nat, tail: nat, size: nat, large: bool, items: seq<Item>)
    requires head <= tail
    decreases items
  {
    items == [] ||
    var h, t := if tail + 1 > size then 0 else head, if tail + 1 > size then tail - head else tail;
    var end := t + 1 + LenSize(large) + |Joined(items[0].chunks)|;
    end <= size && Fits(h, end, size, large, items[1..])
  }

  /** That is so if all items fit behind the tail. */
  lemma {:induction false} EnoughRoomFits(head: nat, tail: nat, size: nat, large: bool, items: seq<Item>)
    requires head <= tail && tail + Sizes(large, items) <= size
    ensures Fits(head, tail, size, large, items)
    decreases items
  {
    if items != [] {
      EnoughRoomFits(head, tail + 1 + LenSize(large) + |Joined(items[0].chunks)|, size, large, items[1..]);
    }
  }

  /** Then the buffer holds the encodings one after the other, however the values were split. */
  lemma {:induction false} BuildEncodes(b: Builder, items: seq<Item>)
    requires b.Valid() && !b.error && WithinLimits(b.large, items)
    requires Fits(b.buf.head, b.buf.tail, |b.buf.mem|, b.large, items)
    ensures var c := Build(b, items);
            !c.error && c.buf.Avail() == b.buf.Avail() + EncodedAll(b.large, items)
    decreases items
  {
    hide PutTag, AddAll, Encoded, Joined;
    if items == [] {
      assert b.buf.Avail() + [] == b.buf.Avail();
    } else {
      var i := items[0];
      OneItem(b, i);
      var c := AddAll(PutTag(b, i.tag), i.chunks);
      BuildEncodes(c, items[1..]);
      JoinThree(b.buf.Avail(), Encoded(b.large, i.tag, Joined(i.chunks)), EncodedAll(b.large, items[1..]));
    }
  }

  /** One item that fits. */
  lemma OneItem(b: Builder, i: Item)
    requires b.Valid() && !b.error && |Joined(i.chunks)| <= Limit(b.large)
    requires Ready(b.buf).tail + 1 + LenSize(b.large) + |Joined(i.chunks)| <= |b.buf.mem|
    ensures var c := AddAll(PutTag(b, i.tag), i.chunks);
            && c.Valid() && !c.error && c.large == b.large && c.buf.head == Ready(b.buf).head
            && c.buf.tail == Ready(b.buf).tail + 1 + LenSize(b.large) + |Joined(i.chunks)|
            && c.buf.Avail() == b.buf.Avail() + Encoded(b.large, i.tag, Joined(i.chunks))
  {
    hide PutTag, AddAll, Encoded;
    PutTagBegins(b, i.tag);
    AddAllExtends(PutTag(b, i.tag), b.buf.Avail(), i.tag, [], i.chunks);
    assert [] + Joined(i.chunks) == Joined(i.chunks);
  }

  // ---- when the buffer moves inside an item --------------------------------------------------------

  /** The length field at q says len0 and will not be written again. */
  ghost predicate Spoiled(b: Builder, q: nat, len0: nat) {
    && b.Valid() && !b.error && b.buf.head == 0 && len0 <= 65535
    && q + LenSize(b.large) <= b.buf.tail
    && (b.lenp.Some? ==> b.lenp.value >= q + LenSize(b.large))
    && b.buf.mem[q..q + LenSize(b.large)] == LenOctets(b.large, len0)
  }

  /** Enough octets were taken that a moved length field does not reach its old place. In large mode the
      two octets of a field moved by one overlap it, and can come out right by chance. */
  predicate Apart(head: nat, large: bool) {
    large ==> head != 1
  }

  /** A put that does not fit behind the tail moves the contents to the front. */
  lemma MovingPut(b: Buf, data: seq<byte>)
    requires b.Valid() && b.tail + |data| > |b.mem| && b.Put(data).1
    ensures b.head > 0 && data != []
    ensures var c := b.Put(data).0;
            c.head == 0 && c.tail == b.tail - b.head + |data| && c.mem[..c.tail] == b.Avail() + data
  {
    PutIsEnqueue(b, data);
    assert b.Put(data).0.Avail() == b.Put(data).0.mem[..b.Put(data).0.tail];
  }

  /** Where the second of four parts is. */
  lemma FieldAt(before: seq<byte>, t: byte, field: seq<byte>, rest: seq<byte>)
    ensures (before + ([t] + field + rest))[|before| + 1..|before| + 1 + |field|] == field
  {
    var s := before + ([t] + field + rest);
    forall k | 0 <= k < |field|
      ensures s[|before| + 1 + k] == field[k]
    {
      assert ([t] + field + rest)[1 + k] == field[k];
    }
  }

  lemma StrandedAdd(b: Builder, before: seq<byte>, tag: byte, value: seq<byte>, data: seq<byte>)
    requires InItem(b, before, tag, value) && b.buf.tail + |data| > |b.buf.mem|
    requires !AddBytes(b, data).error && Apart(b.buf.head, b.large)
    ensures data != [] && Spoiled(AddBytes(b, data), |before| + 1, |value|)
  {
    hide TagOctet, LenOctets, Patched;
    MovingPut(b.buf, data);
    var b1 := b.buf.Put(data).0;
    hide Buf.Put;
    var c := AddBytes(b, data);
    var q, n := |before| + 1, LenSize(b.large);
    FieldAt(before, TagOctet(b.large, tag), LenOctets(b.large, |value|), value + data);
    assert b.buf.Avail() + data == before + ([TagOctet(b.large, tag)] + LenOctets(b.large, |value|) + (value + data));
    forall k | q <= k < q + n
      ensures c.buf.mem[k] == b1.mem[..b1.tail][k]
    {
    }
    assert c.buf.mem[q..q + n] == b1.mem[..b1.tail][q..q + n];
  }

  /** The buffer moves between the tag octet and the end of its length field. */
  lemma StrandedTag(b: Builder, tag: byte)
    requires b.Valid() && !b.error && !PutTag(b, tag).error && Apart(b.buf.head, b.large)
    requires b.buf.tail + 1 <= |b.buf.mem| < b.buf.tail + 1 + LenSize(b.large)
    ensures Spoiled(PutTag(b, tag), |b.buf.Avail()| + 1, 0)
  {
    PutTagSucceeds(b, tag);
    if b.buf.tail + 1 == |b.buf.mem| {
      StrandedAtOnce(b, tag);
    } else {
      StrandedHalfway(b, tag);
    }
  }

  /** The tag octet is the last that fits. */
  lemma StrandedAtOnce(b: Builder, tag: byte)
    requires b.Valid() && !b.error && !PutTag(b, tag).error && Apart(b.buf.head, b.large)
    requires b.buf.tail + 1 == |b.buf.mem|
    ensures Spoiled(PutTag(b, tag), |b.buf.Avail()| + 1, 0)
  {
    PutTagSucceeds(b, tag);
    var t := TagOctet(b.large, tag);
    RoomyPut(b.buf, [t]);
    var b1 := b.buf.Put([t]).0;
    MovingPut(b1, [0]);
    var b2 := b1.Put([0]).0;
    var b3 := b2;
    if b.large {
      FrontPut(b2, [0]);
      RoomyPut(b2, [0]);
      b3 := b2.Put([0]).0;
    }
    PutTagPuts(b, tag, b1, b2, b3);
    ZeroLength(b.large);
    hide Buf.Put, PutTag, TagOctet, LenOctets;
  }

  /** Of its two length octets, one still fits. */
  lemma StrandedHalfway(b: Builder, tag: byte)
    requires b.Valid() && !b.error && !PutTag(b, tag).error && Apart(b.buf.head, b.large)
    requires b.large && b.buf.tail + 2 == |b.buf.mem|
    ensures Spoiled(PutTag(b, tag), |b.buf.Avail()| + 1, 0)
  {
    PutTagSucceeds(b, tag);
    var t := TagOctet(b.large, tag);
    RoomyPut(b.buf, [t]);
    var b1 := b.buf.Put([t]).0;
    RoomyPut(b1, [0]);
    var b2 := b1.Put([0]).0;
    MovingPut(b2, [0]);
    PutTagPuts(b, tag, b1, b2, b2.Put([0]).0);
    ZeroLength(b.large);
    hide Buf.Put, PutTag, TagOctet, LenOctets;
  }

  lemma PutTagSucceeds(b: Builder, tag: byte)
    requires b.Valid() && !b.error && !PutTag(b, tag).error
    ensures var p1 := b.buf.Put([TagOctet(b.large, tag)]);
            && p1.1 && p1.0.Put([0]).1 && (b.large ==> p1.0.Put([0]).0.Put([0]).1)
  {
    hide Buf.Put, TagOctet;
  }

  /** Such a chance: one octet was taken, and a value of 256 octets that starts with 1 gets one more. */
  lemma OverlapComesOutRight(b: Builder, before: seq<byte>, tag: byte, value: seq<byte>, x: byte)
    requires InItem(b, before, tag, value) && b.large && b.buf.head == 1 && b.buf.tail == |b.buf.mem|
    requires |value| == 256 && value[0] == 1
    ensures var c := AddBytes(b, [x]);
            !c.error && c.buf.Avail() == before + Encoded(true, tag, value + [x])
  {
    PutIsEnqueue(b.buf, [x]);
    MovingPut(b.buf, [x]);
    var b1 := b.buf.Put([x]).0;
    LenOctets256();
    hide TagOctet, Patched, LenOctets, Buf.Put;
    var a, r := before + [TagOctet(true, tag)], value + [x];
    SplitEncoded(before, tag, value, x);
    Overlap(a, r);
    PatchInside(b1.mem, 0, b1.tail, |a| + 1, [1, 1]);
    assert b1.mem[0..b1.tail] == b1.mem[..b1.tail];
  }

  lemma SplitEncoded(before: seq<byte>, tag: byte, value: seq<byte>, x: byte)
    requires |value| == 256
    ensures var a := before + [TagOctet(true, tag)];
            && before + Encoded(true, tag, value) + [x] == a + [1, 0] + (value + [x])
            && before + Encoded(true, tag, value + [x]) == a + [1, 1] + (value + [x])
  {
    LenOctets256();
    hide TagOctet, LenOctets;
    var t := [TagOctet(true, tag)];
    assert before + (t + [1, 0] + value) + [x] == before + t + [1, 0] + (value + [x]);
    assert before + (t + [1, 1] + (value + [x])) == before + t + [1, 1] + (value + [x]);
  }

  lemma LenOctets256()
    ensures LenOctets(true, 256) == [1, 0] && LenOctets(true, 257) == [1, 1]
  {
    hide ToByte;
    SameValue(ToByte(0), 0);
    SameValue(ToByte(1), 1);
  }

  lemma Overlap(a: seq<byte>, r: seq<byte>)
    requires r != [] && r[0] == 1
    ensures Patched(a + [1, 0] + r, |a| + 1, [1, 1]) == a + [1, 1] + r
  {
    hide Patched;
  }

  lemma FrontPut(b: Buf, data: seq<byte>)
    requires b.Valid() && b.head == 0
    ensures b.Put(data).1 ==> b.tail + |data| <= |b.mem|
  {
    assert b.Compact() == b;
  }

  lemma SpoiledAdd(b: Builder, q: nat, len0: nat, data: seq<byte>)
    requires Spoiled(b, q, len0) && !AddBytes(b, data).error
    ensures Spoiled(AddBytes(b, data), q, len0) && AddBytes(b, data).large == b.large
  {
    hide LenOctets, Patched;
    FrontPut(b.buf, data);
    RoomyPut(b.buf, data);
    hide Buf.Put;
  }

  lemma SpoiledTag(b: Builder, q: nat, len0: nat, tag: byte)
    requires Spoiled(b, q, len0) && !PutTag(b, tag).error
    ensures Spoiled(PutTag(b, tag), q, len0) && PutTag(b, tag).large == b.large
  {
    hide LenOctets, TagOctet;
    var t := TagOctet(b.large, tag);
    FrontPut(b.buf, [t]);
    RoomyPut(b.buf, [t]);
    var b1 := b.buf.Put([t]).0;
    FrontPut(b1, [0]);
    RoomyPut(b1, [0]);
    var b2 := b1.Put([0]).0;
    if b.large {
      FrontPut(b2, [0]);
      RoomyPut(b2, [0]);
    }
    hide Buf.Put;
  }

  lemma {:induction false} SpoiledAddAll(b: Builder, q: nat, len0: nat, chunks: seq<seq<byte>>)
    requires Spoiled(b, q, len0) && !AddAll(b, chunks).error
    ensures Spoiled(AddAll(b, chunks), q, len0)
    decreases chunks
  {
    hide Spoiled, AddBytes;
    if chunks != [] {
      SpoiledValid(b, q, len0);
      var c := AddBytes(b, chunks[0]);
      if c.error {
        ErrorStays(c, chunks[1..]);
      } else {
        SpoiledAdd(b, q, len0, chunks[0]);
        SpoiledAddAll(c, q, len0, chunks[1..]);
      }
    }
  }

  lemma SpoiledValid(b: Builder, q: nat, len0: nat)
    requires Spoiled(b, q, len0)
    ensures b.Valid() && !b.error
  {
  }

  lemma {:induction false} SpoiledBuild(b: Builder, q: nat, len0: nat, items: seq<Item>)
    requires Spoiled(b, q, len0) && !Build(b, items).error
    ensures Spoiled(Build(b, items), q, len0)
    decreases items
  {
    hide Spoiled, PutTag, AddAll;
    if items != [] {
      SpoiledValid(b, q, len0);
      var p := PutTag(b, items[0].tag);
      if p.error {
        ErrorStays(p, items[0].chunks);
        ErrorStaysInBuild(p, items[1..]);
      } else {
        SpoiledTag(b, q, len0, items[0].tag);
        var c := AddAll(p, items[0].chunks);
        if c.error {
          ErrorStaysInBuild(c, items[1..]);
        } else {
          SpoiledAddAll(p, q, len0, items[0].chunks);
          SpoiledBuild(c, q, len0, items[1..]);
        }
      }
    }
  }

  lemma {:induction false} AddAllStrands(b: Builder, before: seq<byte>, tag: byte, value: seq<byte>, chunks: seq<seq<byte>>)
    returns (len0: nat)
    requires InItem(b, before, tag, value) && b.buf.tail + |Joined(chunks)| > |b.buf.mem|
    requires !AddAll(b, chunks).error && Apart(b.buf.head, b.large)
    ensures len0 < |value| + |Joined(chunks)| && Spoiled(AddAll(b, chunks), |before| + 1, len0)
    decreases chunks
  {
    hide AddBytes, InItem, Spoiled;
    InItemFits(b, before, tag, value);
    var c := AddBytes(b, chunks[0]);
    if c.error {
      ErrorStays(c, chunks[1..]);
    }
    if b.buf.tail + |chunks[0]| > |b.buf.mem| {
      StrandedAdd(b, before, tag, value, chunks[0]);
      SpoiledAddAll(c, |before| + 1, |value|, chunks[1..]);
      len0 := |value|;
    } else {
      AddBytesExtends(b, before, tag, value, chunks[0]);
      len0 := AddAllStrands(c, before, tag, value + chunks[0], chunks[1..]);
    }
  }

  lemma LenOctetsDiffer(large: bool, m: nat, n: nat)
    requires m < n <= if large then 65535 else 255
    ensures LenOctets(large, m) != LenOctets(large, n)
  {
    hide LenOctets;
    LenOctetsSay(large, m);
    LenOctetsSay(large, n);
  }

  /** A spoiled length field is not that of the item. */
  lemma SpoiledContents(c: Builder, before: seq<byte>, tag: byte, value: seq<byte>, more: seq<byte>, len0: nat)
    requires Spoiled(c, |before| + 1, len0) && Readable(c.large, tag, value) && len0 < |value|
    ensures c.buf.Avail() != before + (Encoded(c.large, tag, value) + more)
  {
    hide LenOctets, TagOctet;
    LenOctetsDiffer(c.large, len0, |value|);
    var q, n := |before| + 1, LenSize(c.large);
    var s := before + (Encoded(c.large, tag, value) + more);
    FieldAt(before, TagOctet(c.large, tag), LenOctets(c.large, |value|), value + more);
    assert s == before + ([TagOctet(c.large, tag)] + LenOctets(c.large, |value|) + (value + more));
    assert c.buf.Avail() == c.buf.mem[..c.buf.tail];
    assert c.buf.mem[..c.buf.tail][q..q + n] == c.buf.mem[q..q + n];
  }

  /** If some item does not fit behind its tag octet, its length field is wrong in the end. */
  lemma {:induction false} BuildStrands(b: Builder, items: seq<Item>)
    requires b.Valid() && !b.error && AllReadable(b.large, items) && WithinLimits(b.large, items)
    requires Apart(b.buf.head, b.large) && !Build(b, items).error
    requires !Fits(b.buf.head, b.buf.tail, |b.buf.mem|, b.large, items)
    ensures Build(b, items).buf.Avail() != b.buf.Avail() + EncodedAll(b.large, items)
    decreases items
  {
    hide PutTag, AddAll, Encoded, Joined, Spoiled, Readable;
    var i, before := items[0], b.buf.Avail();
    var e, more := Encoded(b.large, i.tag, Joined(i.chunks)), EncodedAll(b.large, items[1..]);
    assert Readable(b.large, i.tag, Joined(i.chunks));
    if Ready(b.buf).tail + 1 + LenSize(b.large) + |Joined(i.chunks)| <= |b.buf.mem| {
      OneItem(b, i);
      BuildStrands(AddAll(PutTag(b, i.tag), i.chunks), items[1..]);
      JoinThree(before, e, more);
    } else {
      var len0 := ItemStrands(b, i, items[1..]);
      SpoiledContents(Build(b, items), before, i.tag, Joined(i.chunks), more, len0);
    }
  }

  lemma ItemStrands(b: Builder, i: Item, more: seq<Item>) returns (len0: nat)
    requires b.Valid() && !b.error && Apart(b.buf.head, b.large)
    requires Readable(b.large, i.tag, Joined(i.chunks))
    requires Ready(b.buf).tail + 1 + LenSize(b.large) + |Joined(i.chunks)| > |b.buf.mem|
    requires !Build(AddAll(PutTag(b, i.tag), i.chunks), more).error
    ensures var c := Build(AddAll(PutTag(b, i.tag), i.chunks), more);
            Spoiled(c, |b.buf.Avail()| + 1, len0) && len0 < |Joined(i.chunks)| && c.large == b.large
  {
    hide PutTag, AddAll, Encoded, Joined, Spoiled;
    var p := PutTag(b, i.tag);
    PutTagError(b, i.tag);
    if p.error {
      ErrorStays(p, i.chunks);
    }
    var c := AddAll(p, i.chunks);
    if c.error {
      ErrorStaysInBuild(c, more);
    }
    var q := |b.buf.Avail()| + 1;
    if Ready(b.buf).tail + 1 + LenSize(b.large) > |b.buf.mem| {
      StrandedTag(b, i.tag);
      len0 := 0;
      SpoiledAddAll(p, q, len0, i.chunks);
    } else {
      PutTagBegins(b, i.tag);
      len0 := AddAllStrands(p, b.buf.Avail(), i.tag, [], i.chunks);
    }
    SpoiledBuild(c, q, len0, more);
  }

  /** Unless the builder reports an error, the buffer holds the encodings of readable items exactly if
      each of them fits behind its tag octet without the buffer being moved. */
  lemma BuiltIffFits(b: Builder, items: seq<Item>)
    requires b.Valid() && !b.error && AllReadable(b.large, items) && Apart(b.buf.head, b.large)
    ensures WithinLimits(b.large, items)
    ensures var c := Build(b, items);
            !c.error ==>
              (c.buf.Avail() == b.buf.Avail() + EncodedAll(b.large, items)
               <==> Fits(b.buf.head, b.buf.tail, |b.buf.mem|, b.large, items))
  {
    hide Build, Fits;
    if Fits(b.buf.head, b.buf.tail, |b.buf.mem|, b.large, items) {
      BuildEncodes(b, items);
    } else if !Build(b, items).error {
      BuildStrands(b, items);
    }
  }
}
