/** tlv.c in its own form: a builder that patches lengths in place and a parser that fills tables,
    tied to TlvSpec. */
module Tlv {
  import opened Bytes
  import opened Buffers
  import S = TlvSpec

  /** ct_tlv_builder_t. */
  class TlvBuilder {
    const buf: Buffer
    const large: bool
    var error: bool
    var len: nat
    var lenp: Option<nat>

    ghost predicate Valid()
      reads this, buf
    {
      buf.Valid()
    }

    ghost function Value(): (b: S.Builder)
      reads this, buf, buf.base
      requires Valid()
      ensures b.Valid()
    {
      S.Builder(buf.Value(), error, large, len, lenp)
    }

    /** ct_tlv_builder_init. */
    constructor (bp: Buffer, large: bool)
      requires bp.Valid()
      ensures Valid() && buf == bp && Value() == S.Builder(bp.Value(), false, large, 0, None)
    {
      buf, this.large, error, len, lenp := bp, large, false, 0, None;
    }

    /** ct_tlv_put_tag. */
    method PutTag(tag: byte)
      requires Valid()
      modifies this, buf, buf.base
      ensures Valid() && Value() == S.PutTag(old(Value()), tag)
    {
      hide S.TagOctet;
      if error {
        return;
      }
      var ok := buf.Put([S.TagOctet(large, tag)]);
      if ok {
        len := 0;
        lenp := Some(buf.tail);
        ok := buf.Put([0]);
        if ok && large {
          ok := buf.Put([0]);
        }
      }
      error := !ok;
    }

    /** Write octets at a place of the buffer's memory. */
    method Patch(at: nat, octets: seq<byte>)
      requires Valid()
      modifies buf.base
      ensures Valid() && buf.Value() == old(buf.Value()).(mem := S.Patched(old(buf.Value()).mem, at, octets))
    {
      ghost var was := buf.base[..buf.size];
      forall i | 0 <= i < |octets| && at + i < buf.size {
        buf.base[at + i] := octets[i];
      }
      ghost var goal := S.Patched(was, at, octets);
      hide S.Patched;
      forall i | 0 <= i < buf.size
        ensures buf.base[i] == goal[i]
      {
        if at <= i < at + |octets| {
          assert buf.base[at + (i - at)] == octets[i - at];
        }
      }
      assert buf.base[..buf.size] == goal;
    }

    /** ct_tlv_add_bytes. */
    method AddBytes(data: seq<byte>)
      requires Valid()
      modifies this, buf, buf.base
      ensures Valid() && Value() == S.AddBytes(old(Value()), data)
    {
      hide S.LenOctets, S.Patched;
      if error {
        return;
      }
      if lenp.None? {
        error := true;
        return;
      }
      len := len + |data|;
      var ok := buf.Put(data);
      if !ok || len > S.Limit(large) {
        error := true;
        return;
      }
      Patch(lenp.value, S.LenOctets(large, len));
    }

    /** ct_tlv_put_opaque, and ct_tlv_put_string for the octets of the string. */
    method PutOpaque(tag: byte, data: seq<byte>)
      requires Valid()
      modifies this, buf, buf.base
      ensures Valid() && Value() == S.PutOpaque(old(Value()), tag, data)
    {
      hide S.PutTag, S.AddBytes;
      if error {
        return;
      }
      PutTag(tag);
      AddBytes(data);
      lenp := None;
    }

    /** ct_tlv_put_int: count the octets, then add them one by one, the highest first. */
    method PutInt(tag: byte, value: nat)
      requires Valid() && value < 0x1_0000_0000
      modifies this, buf, buf.base
      ensures Valid()
      ensures Value() == if old(error) then old(Value())
                         else S.AddAll(S.PutTag(old(Value()), tag), Singles(S.IntOctets(value))).(lenp := None)
    {
      hide S.PutTag, S.AddBytes, S.AddAll, Singles, Shifted, S.IntOctets;
      if error {
        return;
      }
      PutTag(tag);
      var n := HighestOctet(value);
      AddOctets(value, n);
      lenp := None;
    }

    /** The second loop of ct_tlv_put_int: the octets of a number from its nth shift down. */
    method AddOctets(value: nat, highest: nat)
      requires Valid() && |S.IntOctets(value)| == highest + 1
      requires forall k :: 0 <= k <= highest ==> S.IntOctets(value)[highest - k] == ToByte(Shifted(value, k) % 256)
      modifies this, buf, buf.base
      ensures Valid() && Value() == S.AddAll(old(Value()), Singles(S.IntOctets(value)))
    {
      hide S.AddBytes, Shifted, S.IntOctets;
      ghost var octets := S.IntOctets(value);
      ghost var goal := S.AddAll(Value(), Singles(octets));
      var n: int := highest;
      assert octets[highest - n..] == octets;
      while n >= 0
        invariant -1 <= n <= highest
        invariant Valid() && S.AddAll(Value(), Singles(octets[highest - n..])) == goal
        decreases n + 1
      {
        ghost var left := octets[highest - n..];
        SinglesStep(left);
        assert left[0] == ToByte(Shifted(value, n) % 256);
        assert left[1..] == octets[highest - (n - 1)..];
        AddBytes([ToByte(Shifted(value, n) % 256)]);
        n := n - 1;
      }
      assert octets[highest - n..] == [];
    }
  }

  /** The first loop of ct_tlv_put_int: how far to shift for the most significant octet. */
  method HighestOctet(value: nat) returns (n: nat)
    requires value < 0x1_0000_0000
    ensures |S.IntOctets(value)| == n + 1
    ensures forall k :: 0 <= k <= n ==> S.IntOctets(value)[n - k] == ToByte(Shifted(value, k) % 256)
  {
    hide Shifted, S.IntOctets;
    n := 0;
    while Shifted(value, n + 1) != 0
      invariant n <= 3 && (n == 0 || Shifted(value, n) != 0)
      decreases 4 - n
    {
      ShiftedSmall(value, n + 1);
      n := n + 1;
    }
    OctetsOfShifts(value, n);
  }

  lemma SinglesStep(s: seq<byte>)
    requires s != []
    ensures Singles(s) == [[s[0]]] + Singles(s[1..])
    ensures Singles(s)[0] == [s[0]] && Singles(s)[1..] == Singles(s[1..])
  {
  }

  /** value >> 8k, with shifts by the whole width giving 0. */
  function Shifted(value: nat, k: nat): nat {
    if k == 0 then value else Shifted(value / 256, k - 1)
  }

  function Singles(s: seq<byte>): seq<seq<byte>> {
    if s == [] then [] else [[s[0]]] + Singles(s[1..])
  }

  /** Four shifts by an octet empty a 32-bit number. */
  lemma ShiftedOut(value: nat, k: nat)
    requires value < 0x1_0000_0000 && k >= 4
    ensures Shifted(value, k) == 0
  {
    var a := value / 256;
    var b := a / 256;
    var c := b / 256;
    assert c / 256 == 0;
    assert Shifted(value, k) == Shifted(a, k - 1);
    assert Shifted(a, k - 1) == Shifted(b, k - 2);
    assert Shifted(b, k - 2) == Shifted(c, k - 3);
    assert Shifted(c, k - 3) == Shifted(0, k - 4);
    ShiftedZero(k - 4);
  }

  lemma ShiftedSmall(value: nat, k: nat)
    requires value < 0x1_0000_0000 && Shifted(value, k) != 0
    ensures k <= 3
  {
    if k >= 4 {
      ShiftedOut(value, k);
    }
  }

  lemma {:induction false} ShiftedZero(k: nat)
    ensures Shifted(0, k) == 0
  {
    if k > 0 {
      ShiftedZero(k - 1);
    }
  }

  /** The octets of a number are its shifts, if n is the highest that is not zero. */
  lemma {:induction false} OctetsOfShifts(value: nat, n: nat)
    requires Shifted(value, n + 1) == 0 && (n == 0 || Shifted(value, n) != 0)
    ensures var s := S.IntOctets(value);
            && |s| == n + 1
            && forall k :: 0 <= k <= n ==> s[n - k] == ToByte(Shifted(value, k) % 256)
    decreases n
  {
    var s := S.IntOctets(value);
    if n == 0 {
      assert Shifted(value, 1) == Shifted(value / 256, 0) == value / 256;
    } else {
      if value < 256 {
        ShiftedZero(n - 1);
      }
      OctetsOfShifts(value / 256, n - 1);
      var t := S.IntOctets(value / 256);
      assert s == t + [ToByte(value % 256)];
      forall k | 0 <= k <= n
        ensures s[n - k] == ToByte(Shifted(value, k) % 256)
      {
        if k > 0 {
          assert s[n - k] == t[n - 1 - (k - 1)];
        }
      }
    }
  }

  /** ct_tlv_parser_t. */
  class TlvParser {
    var useLargeTags: bool
    var vals: S.Values

    constructor ()
      ensures !useLargeTags && vals == S.NOTHING
    {
      useLargeTags, vals := false, S.NOTHING;
    }

    /** The first half of the loop body of ct_tlv_parse: where the next item is, if there is one. */
    method Look(p: seq<byte>) returns (item: Option<(byte, nat, nat)>)
      requires p != []
      modifies this`useLargeTags
      ensures item == S.FirstItem(p)
      ensures useLargeTags == (old(useLargeTags) || (S.IsLarge(p[0]) && |p| >= 2))
    {
      hide S.IsLarge, S.Masked;
      var avail := |p|;
      if avail < 2 {
        return None;
      }
      var tag, len, header := p[0], p[1] as int, 2;
      if S.IsLarge(tag) {
        useLargeTags := true;
        tag := S.Masked(tag);
        if avail < 3 {
          return None;
        }
        len, header := 256 * len + p[2] as int, 3;
      } else {
        S.PlainTag(tag);
      }
      if len == 0 || header + len > avail {
        return None;
      }
      item := Some((tag, header, len));
    }

    /** The body of the loop of ct_tlv_parse: take one item off the buffer, or see that there is none. */
    method Take(bp: Buffer) returns (ok: bool)
      requires bp.Valid() && bp.Value().Avail() != []
      modifies this, bp
      ensures bp.Valid()
      ensures var s := old(bp.Value()).Avail(); var item := S.FirstItem(s);
              && ok == item.Some?
              && useLargeTags == (old(useLargeTags) || (S.IsLarge(s[0]) && |s| >= 2))
              && match item
                 case None => vals == old(vals) && bp.Value() == old(bp.Value())
                 case Some((tag, at, len)) =>
                   vals == S.Set(old(vals), tag, s[at..at + len]) && bp.Value().Avail() == s[at + len..]
    {
      hide S.IsLarge, S.Masked, S.FirstItem;
      ghost var v := bp.Value();
      var p := bp.base[bp.head..bp.tail];
      assert p == v.Avail();
      var item := Look(p);
      if item.None? {
        return false;
      }
      var (tag, header, len) := item.value;
      vals := S.Set(vals, tag, p[header..header + len]);
      GetIsDequeue(v, header + len);
      var _, _ := bp.Get(header + len);
      ok := true;
    }

    /** ct_tlv_parse: consumes the buffer item by item. */
    method Parse(bp: Buffer) returns (ok: bool)
      requires bp.Valid()
      modifies this, bp
      ensures bp.Valid()
      ensures var p := S.Parse(old(bp.Value()).Avail(), old(vals), old(useLargeTags));
              ok == p.ok && vals == p.vals && useLargeTags == p.large && bp.Value().Avail() == p.rest
    {
      hide S.IsLarge, S.Masked, S.FirstItem, S.Set, S.Parse;
      ghost var goal := S.Parse(bp.Value().Avail(), vals, useLargeTags);
      while bp.tail - bp.head != 0
        invariant bp.Valid() && goal == S.Parse(bp.Value().Avail(), vals, useLargeTags)
        decreases |bp.Value().Avail()|
      {
        S.ParseStep(bp.Value().Avail(), vals, useLargeTags);
        var more := Take(bp);
        if !more {
          return false;
        }
      }
      ok := true;
      assert bp.Value().Avail() == [];
      S.ParseNothing(vals, useLargeTags);
    }

    /** ct_tlv_get_opaque. */
    method GetOpaque(tag: byte) returns (value: Option<seq<byte>>)
      ensures value == S.Get(vals, tag)
    {
      value := vals[tag as int];
    }

    /** ct_tlv_get_int; the flag tells whether the tag was there. */
    method GetInt(tag: byte) returns (found: bool, value: nat)
      ensures found == S.Get(vals, tag).Some?
      ensures value == if found then S.IntValue(S.Get(vals, tag).value) else 0
    {
      value := 0;
      if vals[tag as int].None? {
        return false, 0;
      }
      var p := vals[tag as int].value;
      var i := 0;
      while i < |p|
        invariant 0 <= i <= |p| && value == S.IntValue(p[..i])
      {
        assert p[..i + 1][..i] == p[..i];
        value := (256 * value + p[i] as int) % 0x1_0000_0000;
        i := i + 1;
      }
      assert p[..|p|] == p;
      found := true;
    }
  }
}
