/** The code that handles answers to reset, in its own form: utils.c:34-58, reader.c:270-397, atr.c
    and the walk of protocol.c. */
module Atr {
  import opened Bytes
  import opened Buffers
  import opened Checksum
  import S = AtrSpec

  // ---- utils.c --------------------------------------------------------------------------

  /** The number of ones in the binary form of w. */
  function PopCount(w: nat): nat {
    if w == 0 then 0 else w % 2 + PopCount(w / 2)
  }

  const BCOUNT: seq<nat> := [0, 1, 1, 2, 1, 2, 2, 3, 1, 2, 2, 3, 2, 3, 3, 4]

  /** ifd_count_bits: four bits at a time by a table. */
  method CountBits(word: nat) returns (num: nat)
    requires word < 0x1_0000_0000
    ensures num == PopCount(word)
  {
    assert PopCount(0) == 0;
    hide PopCount;
    num := 0;
    var w := word;
    while w != 0
      invariant num + PopCount(w) == PopCount(word)
      decreases w
    {
      FourBits(w);
      num := num + BCOUNT[w % 16];
      w := w / 16;
    }
  }

  lemma FourBits(w: nat)
    ensures PopCount(w) == BCOUNT[w % 16] + PopCount(w / 16)
  {
    hide PopCount;
    var r, q := w % 16, w / 16;
    FourDouble(q, r % 2, r / 2 % 2, r / 4 % 2, r / 8);
    Binary(r);
    TableCounts(r);
  }

  lemma Binary(r: nat)
    requires r < 16
    ensures r == 8 * (r / 8) + 4 * (r / 4 % 2) + 2 * (r / 2 % 2) + r % 2
  {
  }

  lemma TableCounts(r: nat)
    requires r < 16
    ensures BCOUNT[r] == r % 2 + r / 2 % 2 + r / 4 % 2 + r / 8
  {
  }

  lemma FourDouble(q: nat, a: nat, b: nat, c: nat, d: nat)
    requires a < 2 && b < 2 && c < 2 && d < 2
    ensures PopCount(16 * q + 8 * d + 4 * c + 2 * b + a) == a + b + c + d + PopCount(q)
  {
    hide PopCount;
    PopDouble(q, d);
    PopDouble(2 * q + d, c);
    PopDouble(2 * (2 * q + d) + c, b);
    PopDouble(2 * (2 * (2 * q + d) + c) + b, a);
  }

  lemma PopDouble(v: nat, bit: nat)
    requires bit < 2
    ensures PopCount(2 * v + bit) == bit + PopCount(v)
  {
    assert (2 * v + bit) / 2 == v && (2 * v + bit) % 2 == bit;
  }

  /** Counting the high half of an octet counts the octets that it announces. */
  lemma HighHalf(c: byte)
    ensures PopCount((c & 0xF0) as int) == S.Groups(c)
  {
    hide S.Has, S.One;
    HighValue(c);
    assert PopCount(0) == 0;
    hide PopCount;
    FourDouble(0, S.One(c, 0x10), S.One(c, 0x20), S.One(c, 0x40), S.One(c, 0x80));
    FourDouble(8 * S.One(c, 0x80) + 4 * S.One(c, 0x40) + 2 * S.One(c, 0x20) + S.One(c, 0x10), 0, 0, 0, 0);
  }

  lemma HighValue(c: byte)
    ensures (c & 0xF0) as int
            == 128 * S.One(c, 0x80) + 64 * S.One(c, 0x40) + 32 * S.One(c, 0x20) + 16 * S.One(c, 0x10)
  {
    var a: byte := if S.Has(c, 0x10) then 0x10 else 0;
    var b: byte := if S.Has(c, 0x20) then 0x20 else 0;
    var d: byte := if S.Has(c, 0x40) then 0x40 else 0;
    var e: byte := if S.Has(c, 0x80) then 0x80 else 0;
    assert c & 0xF0 == a | b | d | e;
  }

  /** How many octets T0 or a TD octet announces, as all the loops compute it. */
  method CountGroups(c: byte) returns (num: nat)
    ensures num == S.Groups(c)
  {
    num := CountBits((c & 0xF0) as int);
    HighHalf(c);
  }

  /** The octet with its bits in the opposite order. */
  function Mirror(c: byte): byte {
    var a := (c >> 4) | (c << 4);
    var b := ((a >> 2) & 0x33) | ((a & 0x33) << 2);
    ((b >> 1) & 0x55) | ((b & 0x55) << 1)
  }

  /** An octet of an inverse-convention card as it looks to a direct-convention line. */
  function Reverted(c: byte): byte {
    Mirror(c) ^ 0xFF
  }

  /** Reverting twice changes nothing, and reverting the first character of an inverse-convention
      answer gives the octet that the reader writes there. */
  lemma RevertedIsInvolution(c: byte)
    ensures Reverted(Reverted(c)) == c && Reverted(0x03) == 0x3F
  {
  }

  /** Mirror does move every bit to the opposite place. */
  lemma MirrorMovesBits(c: byte)
    ensures (Mirror(c) & 0x01 != 0) == (c & 0x80 != 0) && (Mirror(c) & 0x02 != 0) == (c & 0x40 != 0)
    ensures (Mirror(c) & 0x04 != 0) == (c & 0x20 != 0) && (Mirror(c) & 0x08 != 0) == (c & 0x10 != 0)
    ensures (Mirror(c) & 0x10 != 0) == (c & 0x08 != 0) && (Mirror(c) & 0x20 != 0) == (c & 0x04 != 0)
    ensures (Mirror(c) & 0x40 != 0) == (c & 0x02 != 0) && (Mirror(c) & 0x80 != 0) == (c & 0x01 != 0)
  {
  }

  method RevertOctet(c: byte) returns (r: byte)
    ensures r == Reverted(c)
  {
    var j: byte, k: byte, d: byte := 1, 0x80, 0;
    while k != 0
      invariant j & (j - 1) == 0 && k == Mirror(j) && d == Mirror(c & (j - 1))
      decreases k
    {
      if c & j != 0 {
        d := d | k;
      }
      j, k := j << 1, k >> 1;
    }
    r := d ^ 0xFF;
  }

  /** ifd_revert_bits, on the len octets at a position. */
  method RevertBits(data: array<byte>, at: nat, len: nat)
    requires at + len <= data.Length
    modifies data
    ensures forall i :: at <= i < at + len ==> data[i] == Reverted(old(data[i]))
    ensures data[..at] == old(data[..at]) && data[at + len..] == old(data[at + len..])
  {
    hide Reverted;
    var i := at;
    while i < at + len
      invariant at <= i <= at + len
      invariant forall k :: at <= k < i ==> data[k] == Reverted(old(data[k]))
      invariant forall k :: i <= k < data.Length ==> data[k] == old(data[k])
      invariant data[..at] == old(data[..at])
    {
      data[i] := RevertOctet(data[i]);
      i := i + 1;
    }
  }

  // ---- reader.c: receiving an answer ---------------------------------------------------------

  /** The serial device: the characters that will arrive before it times out. */
  class Device {
    var stream: seq<byte>

    /** ifd_device_recv of one octet. */
    method Recv() returns (c: Option<byte>)
      modifies this
      ensures old(stream) == [] ==> c == None && stream == []
      ensures old(stream) != [] ==> c == Some(old(stream)[0]) && stream == old(stream)[1..]
    {
      if stream == [] {
        return None;
      }
      c := Some(stream[0]);
      stream := stream[1..];
    }
  }

  /** What the reader makes of characters. */
  function Decoded(s: seq<byte>, revert: bool): (r: seq<byte>)
    ensures |r| == |s|
    ensures forall i :: 0 <= i < |s| ==> r[i] == if revert then Reverted(s[i]) else s[i]
  {
    if s == [] then [] else [if revert then Reverted(s[0]) else s[0]] + Decoded(s[1..], revert)
  }

  lemma DecodedPart(s: seq<byte>, revert: bool, a: nat, b: nat)
    requires a <= b <= |s|
    ensures Decoded(s[a..b], revert) == Decoded(s, revert)[a..b]
  {
    hide Reverted;
  }

  /** The loop of ifd_recv_atr: count octets, one by one. */
  method RecvOctets(dev: Device, base: array<byte>, at: nat, count: nat) returns (ok: bool)
    requires at + count <= base.Length
    modifies dev, base
    ensures ok == (count <= |old(dev.stream)|)
    ensures ok ==> dev.stream == old(dev.stream)[count..] && base[at..at + count] == old(dev.stream)[..count]
    ensures base[..at] == old(base[..at])
  {
    var n := 0;
    while n < count
      invariant 0 <= n <= count && n <= |old(dev.stream)|
      invariant dev.stream == old(dev.stream)[n..]
      invariant base[..at] == old(base[..at])
      invariant base[at..at + n] == old(dev.stream)[..n]
    {
      var c := dev.Recv();
      if c.None? {
        return false;
      }
      base[at + n] := c.value;
      n := n + 1;
    }
    ok := true;
  }

  /** The same, and the octets made readable in place. */
  method RecvDecoded(dev: Device, base: array<byte>, at: nat, count: nat, revert: bool) returns (ok: bool)
    requires at + count <= base.Length
    modifies dev, base
    ensures ok == (count <= |old(dev.stream)|)
    ensures ok ==> dev.stream == old(dev.stream)[count..]
    ensures ok ==> base[at..at + count] == Decoded(old(dev.stream)[..count], revert)
    ensures base[..at] == old(base[..at])
  {
    hide Reverted;
    ok := RecvOctets(dev, base, at, count);
    if ok && revert {
      RevertBits(base, at, count);
    }
  }

  /** ifd_recv_atr: count more octets behind the tail. */
  method RecvAtr(dev: Device, bp: Buffer, count: nat, revert: bool) returns (ok: bool)
    requires bp.Valid()
    modifies dev, bp, bp.base
    ensures bp.Valid() && bp.head == old(bp.head)
    ensures ok == (old(bp.tail) + count <= bp.size && count <= |old(dev.stream)|)
    ensures ok ==> bp.tail == old(bp.tail) + count && dev.stream == old(dev.stream)[count..]
    ensures ok ==> bp.base[..bp.tail] == old(bp.base[..bp.tail]) + Decoded(old(dev.stream)[..count], revert)
  {
    hide Decoded;
    if count > bp.size - bp.tail {
      return false;
    }
    var at := bp.tail;
    ok := RecvDecoded(dev, bp.base, at, count, revert);
    if !ok {
      return;
    }
    ghost var before := bp.base[..];
    ok := bp.Extend(count);
    assert bp.base[..] == before;
    assert bp.base[..at + count] == bp.base[..at] + bp.base[at..at + count];
  }

  const MAX_ATR_LEN := 64

  /** The answer as far as characters arrive, the first one having been received already. */
  function Answer(first: byte, stream: seq<byte>): (s: seq<byte>)
    ensures |s| == 1 + |stream|
  {
    [if first == 0x03 then 0x3F else first] + Decoded(stream, first == 0x03)
  }

  lemma MoreOfAnswer(first: byte, stream: seq<byte>, t: nat, count: nat)
    requires 1 <= t && t + count <= 1 + |stream|
    ensures Answer(first, stream)[..t] + Decoded(stream[t - 1..][..count], first == 0x03)
            == Answer(first, stream)[..t + count]
  {
    hide Decoded;
    assert stream[t - 1..][..count] == stream[t - 1..t - 1 + count];
    DecodedPart(stream, first == 0x03, t - 1, t - 1 + count);
  }

  /** Everything up to the tail of the buffer is there, and the device is about to send the rest. */
  ghost predicate Reading(dev: Device, bp: Buffer, first: byte, stream: seq<byte>)
    reads dev, bp, bp.base
  {
    && bp.Valid() && bp.head == 0 && bp.size == MAX_ATR_LEN && 1 <= bp.tail <= 1 + |stream|
    && bp.base[..bp.tail] == Answer(first, stream)[..bp.tail]
    && dev.stream == stream[bp.tail - 1..]
  }

  /** One call of ifd_recv_atr, seen from the answer that is being received. */
  method Fetch(dev: Device, rbuf: Buffer, count: nat, revert: bool, ghost first: byte, ghost stream: seq<byte>)
    returns (ok: bool)
    requires Reading(dev, rbuf, first, stream) && revert == (first == 0x03)
    modifies dev, rbuf, rbuf.base
    ensures ok == (old(rbuf.tail) + count <= Min(MAX_ATR_LEN, 1 + |stream|))
    ensures ok ==> Reading(dev, rbuf, first, stream) && rbuf.tail == old(rbuf.tail) + count
  {
    hide Answer, Decoded;
    MoreOfAnswerIfAny(first, stream, rbuf.tail, count);
    ok := RecvAtr(dev, rbuf, count, revert);
    if ok {
      assert dev.stream == stream[rbuf.tail - 1..];
    }
  }

  /** reader.c:270-317: the rest of an answer of which the driver delivered the first character. The
      loop stops at exactly the least number of octets that ifd_atr_complete accepts; it fails exactly
      when so many do not arrive or do not fit. */
  method ReceiveRest(dev: Device, atr: array<byte>) returns (count: Option<nat>)
    requires atr.Length == MAX_ATR_LEN
    modifies dev, atr
    ensures var all := Answer(old(atr[0]), old(dev.stream));
            match count
            case Some(n) =>
              && 2 <= n <= MAX_ATR_LEN && n <= |all| && atr[..n] == all[..n]
              && dev.stream == old(dev.stream)[n - 1..]
              && S.Complete(all[..n])
              && forall k :: 0 <= k < n ==> !S.Complete(all[..k])
            case None =>
              forall k :: 0 <= k <= MAX_ATR_LEN && k <= |all| ==> !S.Complete(all[..k])
  {
    hide S.Needed, S.Walk, S.Low, S.Groups, S.Complete, Answer, Decoded;
    ghost var first, stream := atr[0], dev.stream;
    ghost var all := Answer(first, stream);
    S.NeededIsWalk(all);
    S.CompletePrefixes(all);
    var revert := false;
    if atr[0] == 0x03 {
      revert := true;
      atr[0] := 0x3F;
    }
    var rbuf := new Buffer.Init(atr, MAX_ATR_LEN);
    rbuf.tail := rbuf.tail + 1;
    AnswerStarts(first, stream);
    assert rbuf.base[..1] == all[..1];
    var ok := Fetch(dev, rbuf, 1, revert, first, stream);
    if !ok {
      NoWalk(all, 2, 0);
      return None;
    }
    var last := ReceiveGroups(dev, rbuf, revert, first, stream);
    if last.None? {
      return None;
    }
    var proto := last.value;
    assert rbuf.base[1] == rbuf.base[..rbuf.tail][1] == all[1];
    ok := Fetch(dev, rbuf, S.Low(rbuf.base[1]), revert, first, stream);
    if !ok {
      return None;
    }
    if proto != 0 {
      ok := Fetch(dev, rbuf, 1, revert, first, stream);
      if !ok {
        return None;
      }
    }
    count := Some(rbuf.tail - rbuf.head);
  }

  lemma MoreOfAnswerIfAny(first: byte, stream: seq<byte>, t: nat, count: nat)
    requires 1 <= t <= 1 + |stream|
    ensures count <= |stream[t - 1..]| ==>
              Answer(first, stream)[..t] + Decoded(stream[t - 1..][..count], first == 0x03)
              == Answer(first, stream)[..t + count]
  {
    if t + count <= 1 + |stream| {
      MoreOfAnswer(first, stream, t, count);
    }
  }

  lemma AnswerStarts(first: byte, stream: seq<byte>)
    ensures Answer(first, stream)[0] == if first == 0x03 then 0x3F else first
  {
  }

  lemma NoWalk(s: seq<byte>, n: nat, proto: nat)
    requires 1 <= n && |s| < n
    ensures S.Walk(s, n, proto).None?
  {
  }

  lemma {:induction false} WalkOnward(s: seq<byte>, n: nat, proto: nat)
    requires 1 <= n <= |s|
    ensures var c := s[n - 1]; var w := S.Walk(s, n, proto); var p := if n > 2 then S.Low(c) else proto;
            && (w.Some? ==> w.value.0 >= n + S.Groups(c))
            && (S.More(c) ==> S.Groups(c) >= 1 && w == S.Walk(s, n + S.Groups(c), p))
            && (!S.More(c) ==> w == Some((n + S.Groups(c), p)))
    decreases |s| - n
  {
    hide S.Low, S.Groups;
    var c := s[n - 1];
    S.FewGroups(c);
    if S.More(c) && n + S.Groups(c) <= |s| {
      WalkOnward(s, n + S.Groups(c), if n > 2 then S.Low(c) else proto);
    }
  }

  /** The loop of reader.c:290-301; the result is the protocol of the last TD octet. */
  method ReceiveGroups(dev: Device, rbuf: Buffer, revert: bool, ghost first: byte, ghost stream: seq<byte>)
    returns (last: Option<nat>)
    requires Reading(dev, rbuf, first, stream) && revert == (first == 0x03) && rbuf.tail == 2
    modifies dev, rbuf, rbuf.base
    ensures var w := S.Walk(Answer(first, stream), 2, 0);
            match last
            case Some(proto) => Reading(dev, rbuf, first, stream) && w == Some((rbuf.tail, proto)) && rbuf.tail >= 2
            case None => w.None? || w.value.0 > Min(MAX_ATR_LEN, 1 + |stream|)
  {
    hide S.Walk, S.Low, S.Groups, S.Has, S.More, Answer, Decoded;
    ghost var all := Answer(first, stream);
    assert rbuf.base[1] == rbuf.base[..2][1];
    var c, proto := rbuf.base[1], 0;
    while true
      invariant Reading(dev, rbuf, first, stream)
      invariant 2 <= rbuf.tail && c == all[rbuf.tail - 1]
      invariant if rbuf.tail == 2 then proto == 0 else proto == S.Low(c)
      invariant S.Walk(all, 2, 0) == S.Walk(all, rbuf.tail, proto)
      decreases MAX_ATR_LEN - rbuf.tail
    {
      WalkOnward(all, rbuf.tail, proto);
      var num := CountGroups(c);
      var ok := Fetch(dev, rbuf, num, revert, first, stream);
      if !ok {
        return None;
      }
      if c & 0x80 == 0 {
        NotMore(c);
        break;
      }
      MoreIs(c);
      WalkFromAnywhere(all, rbuf.tail, proto, S.Low(all[rbuf.tail - 1]));
      assert rbuf.base[rbuf.tail - 1] == rbuf.base[..rbuf.tail][rbuf.tail - 1];
      c := rbuf.base[rbuf.tail - 1];
      proto := S.Low(c);
    }
    last := Some(proto);
  }

  lemma NotMore(c: byte)
    requires c & 0x80 == 0
    ensures !S.More(c)
  {
  }

  lemma MoreIs(c: byte)
    requires c & 0x80 != 0
    ensures S.More(c)
  {
  }

  /** Beyond T0 the walk does not depend on the protocol it brings along. */
  lemma WalkFromAnywhere(s: seq<byte>, n: nat, p: nat, q: nat)
    requires 2 < n <= |s|
    ensures S.Walk(s, n, p) == S.Walk(s, n, q)
  {
  }

  /** ifd_atr_complete. */
  method AtrComplete(atr: seq<byte>) returns (complete: bool)
    ensures complete == S.Complete(atr)
  {
    hide S.Walk, S.Low, S.Groups, S.Has, S.More;
    S.NeededIsWalk(atr);
    var j, proto := 2, 0;
    var more := true;
    while more
      invariant j >= 2
      invariant more ==> S.Walk(atr, 2, 0) == S.Walk(atr, j, proto)
      invariant !more ==> S.Walk(atr, 2, 0) == Some((j, proto))
      decreases more, |atr| - j
    {
      if j > |atr| {
        NoWalk(atr, j, proto);
        return false;
      }
      WalkOnward(atr, j, proto);
      var c := atr[j - 1];
      if j > 2 {
        proto := S.Low(c);
      }
      var num := CountGroups(c);
      j := j + num;
      more := c & 0x80 != 0;
      if more {
        MoreIs(c);
      } else {
        NotMore(c);
      }
    }
    WalkReaches(atr, 2, 0);
    j := j + S.Low(atr[1]);
    if j > |atr| {
      return false;
    }
    complete := !(proto != 0 && j + 1 > |atr|);
  }

  lemma WalkReaches(s: seq<byte>, n: nat, proto: nat)
    requires n >= 1 && S.Walk(s, n, proto).Some?
    ensures |s| >= n
  {
  }

  // ---- atr.c ------------------------------------------------------------------------------------

  datatype PtsResult = NotSupported | BufferTooSmall | Length(n: nat)

  /** ifd_atr_info_t. */
  class AtrInfo {
    var ta: seq<int>
    var tb: seq<int>
    var tc: seq<int>
    var supported: set<nat>
    var default: int

    ghost function Value(): S.Info
      reads this
    {
      S.Info(ta, tb, tc, supported, default)
    }

    constructor ()
    {
      ta, tb, tc, supported, default := [], [], [], {}, 0;
    }

    /** ifd_atr_parse. */
    method Parse(atr: seq<byte>) returns (ok: bool)
      requires |atr| >= 2
      modifies this
      ensures Value().Valid() && (Value(), ok) == S.Parse(atr)
    {
      hide S.Low, S.ParseFrom;
      supported, default := {}, -1;
      ta, tb, tc := [0, 0, 0, 0], [0, 0, 0, 0], [0, 0, 0, 0];
      for n := 0 to 3
        invariant |ta| == |tb| == |tc| == 4
        invariant forall k :: 0 <= k < 4 ==> ta[k] == tb[k] == tc[k] == if k < n then -1 else 0
        invariant supported == {} && default == -1
      {
        ta, tb, tc := ta[n := -1], tb[n := -1], tc[n := -1];
      }
      assert ta == tb == tc == [-1, -1, -1, 0];
      if |atr| < 2 + S.Low(atr[1]) {
        return false;
      }
      ok := ParseGroups(atr, |atr| - S.Low(atr[1]));
      if ok && supported == {} {
        supported, default := {0}, 0;
      }
    }

    /** The loop of ifd_atr_parse. */
    method ParseGroups(atr: seq<byte>, length: nat) returns (ok: bool)
      requires |atr| >= 2 && length <= |atr| && Value() == S.START
      modifies this
      ensures Value().Valid() && (Value(), ok) == S.ParseFrom(atr, length, 0, 2, S.START)
    {
      hide S.Low, S.Groups, S.Has, S.More, S.BeyondT0, S.Stored, S.Noted;
      var m, n, len := 0, 2, length;
      while n < len
        invariant m <= 4 && n >= 2 && len == length && Value().Valid()
        invariant S.ParseFrom(atr, length, 0, 2, S.START) == S.ParseFrom(atr, length, m, n, Value())
        decreases 5 - m
      {
        if m > 3 {
          return false;
        }
        var td := atr[n - 1];
        Note(td, n);
        var k := CountGroups(td);
        if k == 0 || n + k > len {
          return false;
        }
        StoreGroup(atr, m, n);
        n := n + k;
        if td & 0x80 == 0 {
          NotMore(td);
          if exists p :: p in supported && p != 0 {
            len := len - 1;
          }
          BeyondT0Is(supported);
          return n >= len;
        }
        MoreIs(td);
        m := m + 1;
      }
      ok := true;
    }

    /** The protocol of a TD octet. */
    method Note(td: byte, n: nat)
      requires Value().Valid()
      modifies this
      ensures Value() == S.Noted(old(Value()), n, td)
    {
      if n != 2 {
        var prot := S.Low(td);
        if default < 0 {
          default := prot;
        }
        supported := supported + {prot};
      }
    }

    /** The interface octets after a TD octet. */
    method StoreGroup(atr: seq<byte>, m: nat, at: nat)
      requires Value().Valid() && m <= 3 && 1 <= at <= |atr| && at + S.Groups(atr[at - 1]) <= |atr|
      modifies this
      ensures Value() == S.Stored(old(Value()), m, atr, at)
    {
      var n, td := at, atr[at - 1];
      if td & 0x10 != 0 {
        ta := ta[m := atr[n] as int];
        n := n + 1;
      }
      if td & 0x20 != 0 {
        tb := tb[m := atr[n] as int];
        n := n + 1;
      }
      if td & 0x40 != 0 {
        tc := tc[m := atr[n] as int];
        n := n + 1;
      }
    }

    /** ifd_build_pts. */
    method BuildPts(protocol: nat, buf: array<byte>, len: nat) returns (r: PtsResult)
      requires Value().Valid() && len <= buf.Length
      modifies buf
      ensures protocol !in supported ==> r == NotSupported
      ensures protocol in supported ==>
                var s := S.Request(Value(), protocol);
                if |s| > len then r == BufferTooSmall
                else r == Length(|s|) && buf[..|s|] == s && buf[|s|..] == old(buf[|s|..])
      ensures !r.Length? ==> buf[..] == old(buf[..])
    {
      hide Lrc, S.PtsBits, S.PtsParameters;
      if protocol !in supported {
        return NotSupported;
      }
      var pts := PtsHead(ToByte(protocol), ta[0], tc[0]);
      assert pts == S.PtsHead(Value(), protocol);
      var pck := Sum(pts);
      pts := pts + [pck];
      if |pts| > len {
        return BufferTooSmall;
      }
      forall i | 0 <= i < |pts| {
        buf[i] := pts[i];
      }
      r := Length(|pts|);
    }

    /** ifd_verify_pts; the protocol is not looked at. */
    method VerifyPts(protocol: nat, buf: seq<byte>) returns (r: S.Verdict)
      requires Value().Valid()
      modifies this`ta
      ensures r == S.Judged(old(Value()), buf)
      ensures Value() == if |buf| >= 3 && S.WellFormed(buf) then S.Settled(old(Value()), buf) else old(Value())
    {
      hide Lrc, S.Has;
      if |buf| < 3 {
        return S.TooSmall;
      }
      if buf[0] != 0xFF {
        return S.Incompatible;
      }
      var pck := Sum(buf);
      if pck != 0 {
        return S.Garbled;
      }
      var n, ptsr := Parameters(buf);
      if n < |buf| - 1 {
        return S.Incompatible;
      }
      if ta[0] != -1 && !(ptsr[0].Some? && ptsr[0].value as int == ta[0]) {
        ta := ta[0 := -1];
      }
      if tc[0] == 255 {
        if ptsr[1].None? {
          return S.Incompatible;
        }
        HasIs(ptsr[1].value, 1);
        if ptsr[1].value & 1 == 0 {
          return S.Incompatible;
        }
      }
      r := S.Fine;
    }
  }

  lemma BeyondT0Is(supported: set<nat>)
    ensures S.BeyondT0(supported) <==> exists p :: p in supported && p != 0
  {
  }

  lemma HasIs(c: byte, mask: byte)
    ensures S.Has(c, mask) == (c & mask != 0)
  {
  }

  /** The request up to its check octet. */
  method PtsHead(p: byte, ta1: int, tc1: int) returns (pts: seq<byte>)
    requires -1 <= ta1 < 256
    ensures pts == [0xFF, S.PtsBits(p, ta1, tc1)] + S.PtsParameters(ta1, tc1)
  {
    hide ToByte, S.With;
    pts := [0xFF, p];
    if ta1 != -1 {
      pts := pts + [ToByte(ta1)];
      pts := pts[1 := S.With(pts[1], 0x10)];
    }
    if tc1 == 255 {
      pts := pts + [1];
      pts := pts[1 := S.With(pts[1], 0x20)];
    }
  }

  /** The loop that ifd_build_pts and ifd_verify_pts share: the exclusive-or of some octets. */
  method Sum(buf: seq<byte>) returns (pck: byte)
    ensures pck == Lrc(buf)
  {
    pck := 0;
    var n := 0;
    while n < |buf|
      invariant 0 <= n <= |buf| && pck == Lrc(buf[..n])
    {
      FoldNext(Xor, 0, buf, n);
      pck := pck ^ buf[n];
      n := n + 1;
    }
    assert buf[..|buf|] == buf;
  }

  function AnnouncedBefore(pts0: byte, i: nat): nat
    requires i <= 3
  {
    if i == 0 then 0 else AnnouncedBefore(pts0, i - 1) + if S.Announced(pts0, i - 1) then 1 else 0
  }

  function Mask(i: nat): byte
    requires i < 3
  {
    if i == 0 then 0x10 else if i == 1 then 0x20 else 0x40
  }

  /** The second loop: the parameters that are announced and present, and where they end. */
  method Parameters(buf: seq<byte>) returns (n: nat, ptsr: seq<Option<byte>>)
    requires |buf| >= 3
    ensures |ptsr| == 3 && ptsr[0] == S.Pts1(buf) && ptsr[1] == S.Pts2(buf)
    ensures n < |buf| - 1 <==> |buf| > 3 + S.CountAnnounced(buf[1])
  {
    hide S.Has;
    ptsr := [None, None, None];
    n := 2;
    var i := 0;
    while i < 3 && n < |buf| - 1
      invariant 0 <= i <= 3 && |ptsr| == 3
      invariant n == Min(2 + AnnouncedBefore(buf[1], i), |buf| - 1)
      invariant forall k :: i <= k < 3 ==> ptsr[k] == None
      invariant i >= 1 ==> ptsr[0] == S.Pts1(buf)
      invariant i >= 2 ==> ptsr[1] == S.Pts2(buf)
    {
      HasIs(buf[1], Mask(i));
      if buf[1] & Mask(i) != 0 {
        ptsr := ptsr[i := Some(buf[n])];
        n := n + 1;
      }
      i := i + 1;
    }
    assert AnnouncedBefore(buf[1], 1) == if S.Announced(buf[1], 0) then 1 else 0;
    assert AnnouncedBefore(buf[1], 2) == AnnouncedBefore(buf[1], 1) + if S.Announced(buf[1], 1) then 1 else 0;
    assert AnnouncedBefore(buf[1], 3) == S.CountAnnounced(buf[1]);
  }

  // ---- protocol.c ------------------------------------------------------------------------------------

  /** The walk of ifd_protocol_select: the protocols of the card and the one to be used. */
  method SelectProtocol(atr: seq<byte>) returns (r: Option<(set<nat>, int)>)
    ensures r == S.Selected(atr)
  {
    hide S.Low, S.Groups, S.Has, S.More;
    if |atr| < 2 {
      return None;
    }
    var len: int := |atr| - S.Low(atr[1]);
    var n, supported: set<nat>, def: int := 2, {}, -1;
    ghost var goal := S.SelectFrom(atr, len, 2, {}, -1);
    var more := true;
    while more
      invariant more ==> 2 <= n <= |atr| && goal == S.SelectFrom(atr, len, n, supported, def)
      invariant !more ==> goal == (supported, def)
      decreases more, |atr| - n
    {
      var td := atr[n - 1];
      if n != 2 {
        var prot := S.Low(td);
        supported := supported + {prot};
        if def < 0 {
          def := prot;
        }
      }
      S.FewGroups(td);
      var k := CountGroups(td);
      n := n + k;
      HasIs(td, 0x80);
      if td & 0x80 == 0 {
        NotMore(td);
      } else {
        MoreIs(td);
      }
      more := n < len && td & 0x80 != 0;
    }
    if supported == {} {
      supported := supported + {0};
      assert supported == {0};
    }
    if def < 0 {
      def := 0;
    }
    r := Some((supported, def));
  }
}
