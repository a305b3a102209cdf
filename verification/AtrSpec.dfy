/** The answer to reset (section 8 of ISO/IEC 7816-3), which four loops of the library walk: the
    reader's receive loop, ifd_atr_complete, ifd_atr_parse and ifd_protocol_select. */
module AtrSpec {
  import opened Bytes
  import opened Checksum

  // ---- one octet ---------------------------------------------------------------------

  predicate Has(c: byte, mask: byte) {
    c & mask != 0
  }

  /** Another TD octet follows the interface octets that c announces. */
  predicate More(c: byte) {
    Has(c, 0x80)
  }

  function One(c: byte, mask: byte): (n: nat)
    ensures n <= 1
  {
    if Has(c, mask) then 1 else 0
  }

  /** The number of octets that T0 or a TD octet announces: TA, TB, TC and TD. */
  function Groups(c: byte): (n: nat)
    ensures n <= 4 && (More(c) ==> n >= 1)
  {
    One(c, 0x10) + One(c, 0x20) + One(c, 0x40) + One(c, 0x80)
  }

  /** The low half: the number of historical octets in T0, the protocol in a TD octet. */
  function Low(c: byte): (n: nat)
    ensures n < 16
  {
    LowIsSmall(c);
    (c & 0x0F) as int
  }

  lemma LowIsSmall(c: byte)
    ensures (c & 0x0F) as int < 16
  {
  }

  // ---- the layout of an answer ---------------------------------------------------------

  /** The octets T0, TD1, TD2, ... of s, the first of them just before position n, and the position
      after the last interface octet. */
  function Tds(s: seq<byte>, n: nat): (r: Option<(seq<byte>, nat)>)
    requires n >= 1
    ensures r.Some? ==> |r.value.0| >= 1 && r.value.1 >= n && n <= |s| && r.value.0[0] == s[n - 1]
    decreases |s| - n
  {
    if n > |s| then None
    else
      var c := s[n - 1];
      if !More(c) then Some(([c], n + Groups(c)))
      else match Tds(s, n + Groups(c))
           case None => None
           case Some((cs, end)) => Some(([c] + cs, end))
  }

  /** One step of the walk: nothing more, or the walk from the next TD octet on. */
  lemma TdsNext(s: seq<byte>, n: nat)
    requires 1 <= n <= |s|
    ensures var c := s[n - 1]; var r := Tds(s, n + Groups(c));
            && (!More(c) ==> Tds(s, n) == Some(([c], n + Groups(c))))
            && (More(c) && r.Some? ==> Tds(s, n) == Some(([c] + r.value.0, r.value.1)))
            && (More(c) && r.None? ==> Tds(s, n) == None)
  {
    hide Groups, More;
  }

  /** The protocol of the last TD octet; 0 if there is only T0. */
  function LastProtocol(cs: seq<byte>): nat
    requires |cs| >= 1
  {
    if |cs| == 1 then 0 else Low(cs[|cs| - 1])
  }

  function CheckOctet(proto: nat): nat {
    if proto != 0 then 1 else 0
  }

  /** How long the answer is that s starts with, if s reaches far enough to tell. */
  function Needed(s: seq<byte>): (r: Option<nat>)
    ensures r.Some? ==> |s| >= 2 && r.value >= 2
  {
    match Tds(s, 2)
    case None => None
    case Some((cs, end)) => Some(end + Low(s[1]) + CheckOctet(LastProtocol(cs)))
  }

  predicate Complete(s: seq<byte>) {
    Needed(s).Some? && Needed(s).value <= |s|
  }

  // ---- walking with one position and one protocol ----------------------------------------

  /** What a loop computes that keeps only a position and the protocol of the TD octet last seen. */
  function Walk(s: seq<byte>, n: nat, proto: nat): (r: Option<(nat, nat)>)
    requires n >= 1
    decreases |s| - n
  {
    if n > |s| then None
    else
      var c := s[n - 1];
      var p := if n > 2 then Low(c) else proto;
      if More(c) then Walk(s, n + Groups(c), p) else Some((n + Groups(c), p))
  }

  lemma {:induction false} WalkFinds(s: seq<byte>, n: nat, proto: nat)
    requires n >= 2
    ensures Walk(s, n, proto).Some? == Tds(s, n).Some?
    ensures Tds(s, n).Some? ==>
              var (cs, end) := Tds(s, n).value;
              Walk(s, n, proto).value == (end, if n == 2 && |cs| == 1 then proto else Low(cs[|cs| - 1]))
    decreases |s| - n
  {
    hide Low, Groups;
    if n <= |s| && More(s[n - 1]) {
      var c := s[n - 1];
      WalkFinds(s, n + Groups(c), if n > 2 then Low(c) else proto);
    }
  }

  lemma NeededIsWalk(s: seq<byte>)
    ensures Needed(s) == match Walk(s, 2, 0)
                         case None => None
                         case Some((end, p)) => Some(end + Low(s[1]) + CheckOctet(p))
  {
    hide Low;
    WalkFinds(s, 2, 0);
  }

  // ---- completeness --------------------------------------------------------------------------

  lemma {:induction false} TdsOfPrefix(s: seq<byte>, k: nat, n: nat)
    requires n >= 1 && k <= |s|
    ensures Tds(s[..k], n).Some? ==> Tds(s, n) == Tds(s[..k], n)
    ensures Tds(s, n).Some? && Tds(s, n).value.1 <= k ==> Tds(s[..k], n).Some?
    decreases |s| - n
  {
    hide Groups;
    if n <= |s| {
      var c := s[n - 1];
      if More(c) {
        TdsOfPrefix(s, k, n + Groups(c));
      }
      if n <= k {
        assert s[..k][n - 1] == c;
      }
    }
  }

  /** A prefix is complete exactly when it reaches the length that the whole stream calls for. */
  lemma CompleteFrom(s: seq<byte>, k: nat)
    requires k <= |s|
    ensures Complete(s[..k]) <==> Needed(s).Some? && Needed(s).value <= k
  {
    TdsOfPrefix(s, k, 2);
    if k >= 2 {
      assert s[..k][1] == s[1];
    }
  }

  /** The same for all prefixes at once. */
  lemma CompletePrefixes(s: seq<byte>)
    ensures forall k :: 0 <= k <= |s| ==> (Complete(s[..k]) <==> Needed(s).Some? && Needed(s).value <= k)
  {
    hide Complete, Needed;
    forall k | 0 <= k <= |s|
      ensures Complete(s[..k]) <==> Needed(s).Some? && Needed(s).value <= k
    {
      CompleteFrom(s, k);
    }
  }

  /** Once complete, always complete. */
  lemma LongerStaysComplete(s: seq<byte>, j: nat, k: nat)
    requires j <= k <= |s| && Complete(s[..j])
    ensures Complete(s[..k])
  {
    CompleteFrom(s, j);
    CompleteFrom(s, k);
  }

  // ---- ifd_atr_parse ----------------------------------------------------------------------------

  /** ifd_atr_info_t, with the mask of supported protocols as the set of its bits. */
  datatype Info = Info(ta: seq<int>, tb: seq<int>, tc: seq<int>, supported: set<nat>, default: int) {
    predicate Valid() {
      && |ta| == |tb| == |tc| == 4
      && Octets(ta) && Octets(tb) && Octets(tc)
      && (forall p :: p in supported ==> p < 16)
    }
  }

  /** -1 stands for an absent octet. */
  predicate Octets(xs: seq<int>) {
    forall i :: 0 <= i < |xs| ==> -1 <= xs[i] < 256
  }

  /** As ifd_atr_parse initialises it: the entries with index 3 are not set to -1. */
  const START := Info([-1, -1, -1, 0], [-1, -1, -1, 0], [-1, -1, -1, 0], {}, -1)

  function Noted(i: Info, n: nat, c: byte): (r: Info)
    requires i.Valid()
    ensures r.Valid()
  {
    if n == 2 then i
    else i.(supported := i.supported + {Low(c)}, default := if i.default < 0 then Low(c) else i.default)
  }

  /** The octets that c announces, stored under index m. */
  function Stored(i: Info, m: nat, s: seq<byte>, n: nat): (r: Info)
    requires i.Valid() && m <= 3 && 1 <= n <= |s| && n + Groups(s[n - 1]) <= |s|
    ensures r.Valid()
  {
    var c := s[n - 1];
    i.(ta := if Has(c, 0x10) then i.ta[m := s[n] as int] else i.ta,
       tb := if Has(c, 0x20) then i.tb[m := s[n + One(c, 0x10)] as int] else i.tb,
       tc := if Has(c, 0x40) then i.tc[m := s[n + One(c, 0x10) + One(c, 0x20)] as int] else i.tc)
  }

  predicate BeyondT0(supported: set<nat>) {
    exists p :: p in supported && p != 0
  }

  /** The loop of ifd_atr_parse from pass m on, the historical octets being cut off at len. */
  function ParseFrom(s: seq<byte>, len: nat, m: nat, n: nat, i: Info): (r: (Info, bool))
    requires n >= 2 && len <= |s| && i.Valid()
    ensures r.0.Valid()
    decreases 5 - m
  {
    if n >= len then (i, true)
    else if m > 3 then (i, false)
    else
      var c := s[n - 1];
      var i1 := Noted(i, n, c);
      var k := Groups(c);
      if k == 0 || n + k > len then (i1, false)
      else
        var i2 := Stored(i1, m, s, n);
        if More(c) then ParseFrom(s, len, m + 1, n + k, i2)
        else (i2, n + k >= if BeyondT0(i2.supported) then len - 1 else len)
  }

  function Defaulted(i: Info): (r: Info)
    requires i.Valid()
    ensures r.Valid()
  {
    if i.supported == {} then i.(supported := {0}, default := 0) else i
  }

  /** ifd_atr_parse, which looks at the second octet in any case. */
  function Parse(s: seq<byte>): (r: (Info, bool))
    requires |s| >= 2
    ensures r.0.Valid()
  {
    if |s| < 2 + Low(s[1]) then (START, false)
    else
      var (i, ok) := ParseFrom(s, |s| - Low(s[1]), 0, 2, START);
      (if ok then Defaulted(i) else i, ok)
  }

  // ---- ifd_protocol_select -----------------------------------------------------------------------

  /** The loop of ifd_protocol_select; len may be negative. */
  function SelectFrom(s: seq<byte>, len: int, n: nat, supported: set<nat>, def: int): (set<nat>, int)
    requires 2 <= n <= |s| && len <= |s|
    decreases |s| - n
  {
    var c := s[n - 1];
    var supported' := if n != 2 then supported + {Low(c)} else supported;
    var def' := if n != 2 && def < 0 then Low(c) else def;
    if n + Groups(c) < len && More(c) then SelectFrom(s, len, n + Groups(c), supported', def') else (supported', def')
  }

  function Selected(s: seq<byte>): Option<(set<nat>, int)> {
    if |s| < 2 then None
    else
      var (supported, def) := SelectFrom(s, |s| - Low(s[1]), 2, {}, -1);
      Some((if supported == {} then {0} else supported, if def < 0 then 0 else def))
  }

  /** On every answer that ifd_atr_parse accepts, ifd_protocol_select finds the same protocols. */
  lemma ProtocolsAgree(s: seq<byte>)
    requires |s| >= 2 && Parse(s).1
    ensures Selected(s) == Some((Parse(s).0.supported, Parse(s).0.default))
  {
    hide Low, Groups;
    var len := |s| - Low(s[1]);
    if len > 2 {
      LoopsAgree(s, len, 0, 2, START);
    } else {
      assert ParseFrom(s, len, 0, 2, START) == (START, true);
      FewGroups(s[1]);
      assert SelectFrom(s, len, 2, {}, -1) == ({}, -1);
    }
  }

  lemma FewGroups(c: byte)
    ensures More(c) ==> Groups(c) >= 1
  {
  }

  /** Storing interface octets touches no protocol. */
  lemma StoredKeeps(i: Info, m: nat, s: seq<byte>, n: nat)
    requires i.Valid() && m <= 3 && 1 <= n <= |s| && n + Groups(s[n - 1]) <= |s|
    ensures Stored(i, m, s, n).supported == i.supported && Stored(i, m, s, n).default == i.default
  {
  }

  /** A pass of the parser over a TD octet that another one follows. */
  lemma Onward(s: seq<byte>, len: nat, m: nat, n: nat, i: Info)
    requires 2 <= n < len <= |s| && i.Valid() && More(s[n - 1])
    ensures var c := s[n - 1]; var r := ParseFrom(s, len, m, n, i);
            && (m <= 3 && n + Groups(c) <= len ==>
                  && Stored(Noted(i, n, c), m, s, n).Valid()
                  && Stored(Noted(i, n, c), m, s, n).supported == Noted(i, n, c).supported
                  && Stored(Noted(i, n, c), m, s, n).default == Noted(i, n, c).default
                  && r == ParseFrom(s, len, m + 1, n + Groups(c), Stored(Noted(i, n, c), m, s, n)))
            && (m > 3 || n + Groups(c) > len ==> !r.1)
  {
    hide Low, Groups, More, Stored, BeyondT0, Noted;
    FewGroups(s[n - 1]);
    if m <= 3 && n + Groups(s[n - 1]) <= len {
      StoredKeeps(Noted(i, n, s[n - 1]), m, s, n);
    }
  }

  lemma {:induction false} LoopsAgree(s: seq<byte>, len: nat, m: nat, n: nat, i: Info)
    requires 2 <= n < len <= |s| && i.Valid() && (i.supported == {} <==> i.default < 0)
    requires ParseFrom(s, len, m, n, i).1
    ensures var r := ParseFrom(s, len, m, n, i).0;
            && SelectFrom(s, len, n, i.supported, i.default) == (r.supported, r.default)
            && (r.supported == {} <==> r.default < 0)
    decreases 5 - m
  {
    hide Low, Groups, More, Stored, BeyondT0, ParseFrom;
    var c := s[n - 1];
    FewGroups(c);
    if More(c) {
      Onward(s, len, m, n, i);
      var i2 := Stored(Noted(i, n, c), m, s, n);
      if n + Groups(c) < len {
        LoopsAgree(s, len, m + 1, n + Groups(c), i2);
      } else {
        NothingParsed(s, len, m + 1, n + Groups(c), i2);
      }
    } else {
      LastStored(s, len, m, n, i);
      StoredKeeps(Noted(i, n, c), m, s, n);
    }
  }

  lemma NothingParsed(s: seq<byte>, len: nat, m: nat, n: nat, i: Info)
    requires n >= 2 && len <= n && len <= |s| && i.Valid()
    ensures ParseFrom(s, len, m, n, i) == (i, true)
  {
  }

  lemma LastStored(s: seq<byte>, len: nat, m: nat, n: nat, i: Info)
    requires 2 <= n < len <= |s| && i.Valid() && !More(s[n - 1]) && ParseFrom(s, len, m, n, i).1
    ensures m <= 3 && n + Groups(s[n - 1]) <= len && ParseFrom(s, len, m, n, i).0 == Stored(Noted(i, n, s[n - 1]), m, s, n)
  {
    hide Low, Groups, More, Stored, BeyondT0, Noted;
  }

  // ---- which answers are accepted, and what is read from them ----------------------------------------

  /** The protocols of some TD octets. */
  function Protocols(cs: seq<byte>): set<nat> {
    if cs == [] then {} else {Low(cs[0])} + Protocols(cs[1..])
  }

  /** What the parser does with one whole answer, described by its TD octets: it refuses more than
      four sets of interface octets, and a last TD octet that announces nothing but is followed by
      the check octet. */
  predicate Acceptable(cs: seq<byte>)
    requires |cs| >= 1
  {
    if Groups(cs[|cs| - 1]) == 0 then LastProtocol(cs) == 0 && |cs| <= 5 else |cs| <= 4
  }

  /** TD octets without the last one if that announces nothing. */
  function Busy(cs: seq<byte>): seq<byte>
    requires |cs| >= 1
  {
    if Groups(cs[|cs| - 1]) == 0 then cs[..|cs| - 1] else cs
  }

  /** The TD octets whose protocols the parser notes, the walk being at position n. */
  function Seen(cs: seq<byte>, n: nat): seq<byte>
    requires |cs| >= 1
  {
    if n != 2 then Busy(cs) else if |cs| == 1 then [] else Busy(cs[1..])
  }

  function DefaultOf(before: int, seen: seq<byte>): int {
    if before >= 0 || seen == [] then before else Low(seen[0])
  }

  lemma SeenNext(c: byte, cs: seq<byte>, n: nat, m: nat)
    requires |cs| >= 1 && n >= 2 && m > 2
    ensures Seen([c] + cs, n) == if n == 2 then Seen(cs, m) else [c] + Seen(cs, m)
    ensures ([c] + cs)[1..] == cs && ([c] + cs)[|cs|] == cs[|cs| - 1]
  {
    hide Groups;
    assert ([c] + cs)[1..] == cs;
    assert ([c] + cs)[..|cs|] == [c] + cs[..|cs| - 1];
  }

  lemma ProtocolsNext(c: byte, cs: seq<byte>)
    ensures Protocols([c] + cs) == {Low(c)} + Protocols(cs)
  {
    assert ([c] + cs)[1..] == cs;
  }

  /** The protocol that decides about the check octet, the walk being at position n. */
  function Decisive(cs: seq<byte>, n: nat): nat
    requires |cs| >= 1
  {
    if n == 2 && |cs| == 1 then 0 else Low(cs[|cs| - 1])
  }

  lemma {:induction false} ParseWhole(s: seq<byte>, len: nat, m: nat, n: nat, i: Info)
    requires n >= 2 && m <= 4 && len <= |s| && i.Valid() && Tds(s, n).Some?
    requires len == Tds(s, n).value.1 + CheckOctet(Decisive(Tds(s, n).value.0, n))
    ensures var cs := Tds(s, n).value.0; var (r, ok) := ParseFrom(s, len, m, n, i);
            && (ok <==> if Groups(cs[|cs| - 1]) == 0 then Decisive(cs, n) == 0 && m + |cs| <= 5 else m + |cs| <= 4)
            && (ok ==> r.supported == i.supported + Protocols(Seen(cs, n))
                       && r.default == DefaultOf(i.default, Seen(cs, n)))
    decreases 5 - m
  {
    hide Low, Groups, More, Stored, Seen, Protocols, ParseFrom;
    var (cs, end) := Tds(s, n).value;
    var c := s[n - 1];
    FewGroups(c);
    if More(c) {
      var rest := Tds(s, n + Groups(c)).value.0;
      SeenNext(c, rest, n, n + Groups(c));
      Onward(s, len, m, n, i);
      if m <= 3 {
        ParseWhole(s, len, m + 1, n + Groups(c), Stored(Noted(i, n, c), m, s, n));
        ProtocolsNext(c, Seen(rest, n + Groups(c)));
      }
    } else {
      LastPass(s, len, m, n, i);
    }
  }

  lemma LastPass(s: seq<byte>, len: nat, m: nat, n: nat, i: Info)
    requires 2 <= n <= |s| && m <= 4 && len <= |s| && i.Valid() && !More(s[n - 1])
    requires len == n + Groups(s[n - 1]) + CheckOctet(Decisive([s[n - 1]], n))
    ensures var cs := [s[n - 1]]; var (r, ok) := ParseFrom(s, len, m, n, i);
            && (ok <==> if Groups(cs[0]) == 0 then Decisive(cs, n) == 0 else m <= 3)
            && (ok ==> r.supported == i.supported + Protocols(Seen(cs, n))
                       && r.default == DefaultOf(i.default, Seen(cs, n)))
  {
    hide Low, Groups, More, Stored;
    var c := s[n - 1];
    assert Protocols([c]) == {Low(c)} && Protocols([]) == {};
    if n < len && m <= 3 && Groups(c) != 0 {
      StoredKeeps(Noted(i, n, c), m, s, n);
      assert n != 2 ==> Low(c) in Noted(i, n, c).supported;
    }
  }

  /** The protocols that the answer names. */
  function Named(cs: seq<byte>): set<nat> {
    if |cs| <= 1 then {0} else Protocols(cs[1..])
  }

  /** For every answer as the reader delivers it, exactly which ones the parser accepts, and that the
      default is the protocol of the first TD octet. The supported protocols are those that the TD
      octets name, unless the last of several announces nothing: that one is overlooked. */
  lemma WholeAnswer(s: seq<byte>)
    requires Needed(s) == Some(|s|)
    ensures var cs := Tds(s, 2).value.0; var (r, ok) := Parse(s);
            && (ok <==> Acceptable(cs))
            && (ok ==> r.default == if |cs| == 1 then 0 else Low(cs[1]))
            && (ok ==> (r.supported == Named(cs) <==>
                          Groups(cs[|cs| - 1]) != 0 || |cs| <= 2 || 0 in Protocols(cs[1..|cs| - 1])))
  {
    hide Low, Groups, ParseFrom, Protocols, Tds, Seen, Named;
    var (cs, end) := Tds(s, 2).value;
    ParseWhole(s, |s| - Low(s[1]), 0, 2, START);
    SeenDefault(cs);
    if Acceptable(cs) {
      SeenAndNamed(cs);
    }
    NoProtocols(Seen(cs, 2));
  }

  /** Octets behind the interface octets that are neither historical nor, where a protocol other than T=0
      is named, a single check octet make the parser refuse. */
  lemma {:induction false} SurplusRefused(s: seq<byte>, len: nat, m: nat, n: nat, i: Info)
    requires n >= 2 && m <= 4 && len <= |s| && i.Valid() && Tds(s, n).Some?
    requires var (cs, end) := Tds(s, n).value; Groups(cs[|cs| - 1]) != 0 && m + |cs| <= 4 && end <= len
    ensures var (cs, end) := Tds(s, n).value;
            ParseFrom(s, len, m, n, i).1
            <==> len <= end + if BeyondT0(i.supported + Protocols(Seen(cs, n))) then 1 else 0
    decreases 5 - m
  {
    hide Low, Groups, More, Stored, Seen, Protocols, ParseFrom, BeyondT0, Tds, Noted;
    var (cs, end) := Tds(s, n).value;
    assert n <= |s| by { TdsInside(s, n); }
    var c := s[n - 1];
    TdsNext(s, n);
    FewGroups(c);
    if More(c) {
      var (rest, _) := Tds(s, n + Groups(c)).value;
      Onward(s, len, m, n, i);
      SeenNext(c, rest, n, n + Groups(c));
      SurplusRefused(s, len, m + 1, n + Groups(c), Stored(Noted(i, n, c), m, s, n));
      SupportedNext(i, c, rest, n, n + Groups(c));
    } else {
      SurplusAtEnd(s, len, m, n, i);
    }
  }

  lemma TdsInside(s: seq<byte>, n: nat)
    requires n >= 1 && Tds(s, n).Some?
    ensures n <= |s| && n < Tds(s, n).value.1 + 1
  {
  }

  lemma SupportedNext(i: Info, c: byte, rest: seq<byte>, n: nat, m: nat)
    requires i.Valid() && |rest| >= 1 && n >= 2 && m > 2
    ensures Noted(i, n, c).supported + Protocols(Seen(rest, m)) == i.supported + Protocols(Seen([c] + rest, n))
  {
    hide Low, Groups, Seen, Protocols;
    SeenNext(c, rest, n, m);
    ProtocolsNext(c, Seen(rest, m));
  }

  lemma SurplusAtEnd(s: seq<byte>, len: nat, m: nat, n: nat, i: Info)
    requires 2 <= n <= |s| && m <= 3 && len <= |s| && i.Valid() && !More(s[n - 1])
    requires Groups(s[n - 1]) != 0 && n + Groups(s[n - 1]) <= len
    ensures ParseFrom(s, len, m, n, i).1
            <==> len <= n + Groups(s[n - 1]) + if BeyondT0(i.supported + Protocols(Seen([s[n - 1]], n))) then 1 else 0
  {
    hide Low, Groups, More, Stored, BeyondT0;
    var c := s[n - 1];
    assert Protocols([c]) == {Low(c)} && Protocols([]) == {};
    StoredKeeps(Noted(i, n, c), m, s, n);
    assert Noted(i, n, c).supported == i.supported + Protocols(Seen([c], n));
  }

  /** An answer shorter than its historical octets is refused. */
  lemma ShortRefused(s: seq<byte>)
    requires |s| >= 2 && |s| < 2 + (s[1] & 0x0F) as int
    ensures !Parse(s).1
  {
  }

  lemma SeenDefault(cs: seq<byte>)
    requires |cs| >= 1
    ensures var seen := Seen(cs, 2);
            && (seen != [] ==> |cs| >= 2 && seen[0] == cs[1])
            && (seen == [] ==> |cs| == 1 || (|cs| == 2 && Groups(cs[1]) == 0))
  {
    hide Groups;
  }

  lemma SeenAndNamed(cs: seq<byte>)
    requires |cs| >= 1 && Acceptable(cs)
    ensures var seen := Seen(cs, 2);
            (if seen == [] then {0} else Protocols(seen)) == Named(cs) <==>
            Groups(cs[|cs| - 1]) != 0 || |cs| <= 2 || 0 in Protocols(cs[1..|cs| - 1])
  {
    hide Low, Groups, Protocols;
    if |cs| >= 2 && Groups(cs[|cs| - 1]) == 0 {
      var seen := cs[1..|cs| - 1];
      PartOfPart(cs, 1, |cs|, 0, |cs| - 2);
      assert seen == Seen(cs, 2);
      assert cs[1..] == seen + [cs[|cs| - 1]];
      ProtocolsOfConcat(seen, cs[|cs| - 1]);
      ProtocolsOfNone();
    } else if |cs| >= 2 {
      assert Seen(cs, 2) == cs[1..];
    }
  }

  lemma ProtocolsOfNone()
    ensures Protocols([]) == {}
  {
  }

  lemma NoProtocols(cs: seq<byte>)
    ensures Protocols(cs) == {} <==> cs == []
  {
    if cs != [] {
      assert Low(cs[0]) in Protocols(cs);
    }
  }

  lemma {:induction false} ProtocolsOfConcat(cs: seq<byte>, c: byte)
    ensures Protocols(cs + [c]) == Protocols(cs) + {Low(c)}
    decreases cs
  {
    hide Low;
    if cs == [] {
      assert [] + [c] == [c];
      assert Protocols([c]) == {Low(c)} + Protocols([]);
    } else {
      assert (cs + [c])[1..] == cs[1..] + [c];
      ProtocolsOfConcat(cs[1..], c);
    }
  }

  // ---- interface octets ----------------------------------------------------------------------------

  /** The position just after the TD octet that is j further along than the one before n. */
  function Position(s: seq<byte>, n: nat, j: nat): (r: Option<nat>)
    requires n >= 1
    ensures r.Some? ==> n <= r.value
    decreases j
  {
    if j == 0 then Some(n)
    else if n <= |s| && More(s[n - 1]) then Position(s, n + Groups(s[n - 1]), j - 1)
    else None
  }

  /** The octets that the TD octet before position q announces, as the standard orders them. */
  predicate Holds(ta: int, tb: int, tc: int, s: seq<byte>, q: nat, none: (int, int, int))
    requires 1 <= q <= |s| && q + Groups(s[q - 1]) <= |s|
  {
    var c := s[q - 1];
    && ta == (if Has(c, 0x10) then s[q] as int else none.0)
    && tb == (if Has(c, 0x20) then s[q + One(c, 0x10)] as int else none.1)
    && tc == (if Has(c, 0x40) then s[q + One(c, 0x10) + One(c, 0x20)] as int else none.2)
  }

  ghost predicate EntryIs(r: Info, i: Info, s: seq<byte>, len: nat, q: Option<nat>, j: nat)
    requires r.Valid() && i.Valid() && j <= 3 && len <= |s| && (q.Some? ==> q.value >= 1)
  {
    if q.Some? && q.value < len then
      && q.value + Groups(s[q.value - 1]) <= |s|
      && Holds(r.ta[j], r.tb[j], r.tc[j], s, q.value, (i.ta[j], i.tb[j], i.tc[j]))
    else r.ta[j] == i.ta[j] && r.tb[j] == i.tb[j] && r.tc[j] == i.tc[j]
  }

  lemma {:induction false} EntriesOf(s: seq<byte>, len: nat, m: nat, n: nat, i: Info, j: nat)
    requires n >= 2 && len <= |s| && i.Valid() && j <= 3 && ParseFrom(s, len, m, n, i).1
    ensures j >= m ==> EntryIs(ParseFrom(s, len, m, n, i).0, i, s, len, Position(s, n, j - m), j)
    ensures j < m ==> EntryIs(ParseFrom(s, len, m, n, i).0, i, s, len, None, j)
    decreases 5 - m
  {
    hide Low, Groups, More, Has, One, BeyondT0, ParseFrom, Noted, Stored, Holds;
    if n >= len {
      NothingParsed(s, len, m, n, i);
      return;
    }
    var c := s[n - 1];
    FewGroups(c);
    if More(c) {
      Onward(s, len, m, n, i);
      var i2 := Stored(Noted(i, n, c), m, s, n);
      StoredEntries(i, m, s, n, j);
      EntriesOf(s, len, m + 1, n + Groups(c), i2, j);
    } else {
      LastStored(s, len, m, n, i);
      StoredEntries(i, m, s, n, j);
    }
  }

  lemma StoredEntries(i: Info, m: nat, s: seq<byte>, n: nat, j: nat)
    requires i.Valid() && m <= 3 && j <= 3 && 2 <= n <= |s| && n + Groups(s[n - 1]) <= |s|
    ensures var r := Stored(Noted(i, n, s[n - 1]), m, s, n);
            && (j != m ==> r.ta[j] == i.ta[j] && r.tb[j] == i.tb[j] && r.tc[j] == i.tc[j])
            && (j == m ==> Holds(r.ta[j], r.tb[j], r.tc[j], s, n, (i.ta[j], i.tb[j], i.tc[j])))
  {
    hide Low, Has;
  }

  /** In an accepted answer the TA, TB and TC under each index are the octets that the TD octet with that
      index announces, in order; if it announces none or does not exist, -1, and 0 under index 3. */
  lemma InterfaceOctets(s: seq<byte>, j: nat)
    requires |s| >= 2 && Parse(s).1 && j <= 3
    ensures var r := Parse(s).0; var q := Position(s, 2, j); var none := if j == 3 then 0 else -1;
            if q.Some? && q.value < |s| - Low(s[1]) then
              && q.value + Groups(s[q.value - 1]) <= |s|
              && Holds(r.ta[j], r.tb[j], r.tc[j], s, q.value, (none, none, none))
            else r.ta[j] == r.tb[j] == r.tc[j] == none
  {
    hide Low, Groups, ParseFrom, Position, Holds;
    EntriesOf(s, |s| - Low(s[1]), 0, 2, START, j);
  }

  /** An answer that names T=1 in a TD octet announcing nothing: complete, and usable to
      ifd_protocol_select, but refused by ifd_atr_parse. */
  lemma BareT1Refused()
    ensures var s: seq<byte> := [0x3B, 0x80, 0x01, 0x81];
            Needed(s) == Some(|s|) && !Parse(s).1 && Selected(s) == Some(({1}, 1))
  {
    var s: seq<byte> := [0x3B, 0x80, 0x01, 0x81];
    assert Groups(0x80) == 1 && Groups(0x01) == 0 && Low(0x80) == 0 && Low(0x01) == 1;
    assert More(0x80) && !More(0x01);
    assert s[1] == 0x80 && s[2] == 0x01 && |s| == 4;
    hide Groups, Low, More;
    assert Tds(s, 3) == Some(([0x01], 3));
    assert [0x80 as byte] + [0x01] == [0x80, 0x01];
    assert Tds(s, 2) == Some(([0x80] + [0x01], 3));
    Onward(s, 4, 0, 2, START);
    assert {} + {1} == {1};
    assert SelectFrom(s, 4, 3, {}, -1) == ({1}, 1);
    assert SelectFrom(s, 4, 2, {}, -1) == SelectFrom(s, 4, 2 + Groups(0x80), {}, -1);
  }

  // ---- protocol selection (PTS) ----------------------------------------------------------------------

  predicate Announced(pts0: byte, k: nat)
    requires k < 3
  {
    Has(pts0, if k == 0 then 0x10 else if k == 1 then 0x20 else 0x40)
  }

  /** The request that ifd_build_pts makes: PTSS, PTS0, perhaps PTS1 and PTS2, and PCK. */
  function Request(i: Info, protocol: nat): (s: seq<byte>)
    requires i.Valid() && protocol in i.supported
    ensures 3 <= |s| <= 5
  {
    var head := PtsHead(i, protocol);
    head + [Lrc(head)]
  }

  function PtsHead(i: Info, protocol: nat): (s: seq<byte>)
    requires i.Valid() && protocol < 256
    ensures 2 <= |s| <= 4
  {
    [0xFF, PtsBits(ToByte(protocol), i.ta[0], i.tc[0])] + PtsParameters(i.ta[0], i.tc[0])
  }

  function PtsBits(p: byte, ta1: int, tc1: int): byte {
    var q := if ta1 != -1 then With(p, 0x10) else p;
    if tc1 == 255 then With(q, 0x20) else q
  }

  function With(p: byte, mask: byte): byte {
    p | mask
  }

  function PtsParameters(ta1: int, tc1: int): (s: seq<byte>)
    requires -1 <= ta1 < 256
    ensures |s| <= 2
  {
    (if ta1 != -1 then [ToByte(ta1)] else []) + (if tc1 == 255 then [1] else [])
  }

  datatype Verdict = Fine | TooSmall | Incompatible | Garbled

  function CountAnnounced(pts0: byte): nat {
    (if Announced(pts0, 0) then 1 else 0) + (if Announced(pts0, 1) then 1 else 0) + (if Announced(pts0, 2) then 1 else 0)
  }

  /** PTS1 of a response, which is there if it is announced and comes before the check octet. */
  function Pts1(s: seq<byte>): Option<byte>
    requires |s| >= 3
  {
    if Announced(s[1], 0) && |s| > 3 then Some(s[2]) else None
  }

  function Pts2(s: seq<byte>): Option<byte>
    requires |s| >= 3
  {
    var at := if Announced(s[1], 0) then 3 else 2;
    if Announced(s[1], 1) && at < |s| - 1 then Some(s[at]) else None
  }

  /** A response that starts with PTSS, sums up to zero and has no octets beyond what it announces.
      Announced octets may be missing. */
  predicate WellFormed(s: seq<byte>)
    requires |s| >= 3
  {
    s[0] == 0xFF && Lrc(s) == 0 && |s| <= 3 + CountAnnounced(s[1])
  }

  /** What ifd_verify_pts says of a response. */
  function Judged(i: Info, s: seq<byte>): Verdict
    requires i.Valid()
  {
    if |s| < 3 then TooSmall
    else if s[0] != 0xFF then Incompatible
    else if Lrc(s) != 0 then Garbled
    else if !WellFormed(s) then Incompatible
    else if i.tc[0] == 255 && (Pts2(s).None? || !Has(Pts2(s).value, 1)) then Incompatible
    else Fine
  }

  /** What it leaves of the parameters: TA1 is given up unless the response repeats it. */
  function Settled(i: Info, s: seq<byte>): (r: Info)
    requires i.Valid() && |s| >= 3
    ensures r.Valid()
  {
    if i.ta[0] != -1 && (Pts1(s).None? || Pts1(s).value as int != i.ta[0]) then i.(ta := i.ta[0 := -1]) else i
  }

  /** A card that echoes the request is accepted, and all parameters stay as they were. */
  lemma EchoAccepted(i: Info, protocol: nat)
    requires i.Valid() && protocol in i.supported
    ensures Judged(i, Request(i, protocol)) == Fine
    ensures Settled(i, Request(i, protocol)) == i
  {
    hide Has, Lrc;
    var s := Request(i, protocol);
    var head := PtsHead(i, protocol);
    LrcOfChecked(head);
    Pts0Announces(i, protocol);
    OneIsOdd();
  }

  /** The request names the protocol asked for, offers what the answer to reset announced, and sums up
      to zero. */
  lemma RequestNames(i: Info, protocol: nat)
    requires i.Valid() && protocol in i.supported
    ensures var s := Request(i, protocol);
            && s[0] == 0xFF && Low(s[1]) == protocol && Lrc(s) == 0
            && (Has(s[1], 0x10) <==> i.ta[0] != -1) && (Has(s[1], 0x20) <==> i.tc[0] == 255)
            && !Has(s[1], 0x40) && !Has(s[1], 0x80)
            && |s| == 3 + (if i.ta[0] != -1 then 1 else 0) + (if i.tc[0] == 255 then 1 else 0)
            && (i.ta[0] != -1 ==> s[2] as int == i.ta[0])
            && (i.tc[0] == 255 ==> s[|s| - 2] == 1)
  {
    hide Has, Lrc, Low;
    LrcOfChecked(PtsHead(i, protocol));
    Pts0Announces(i, protocol);
    Pts0Low(i, protocol);
  }

  lemma Pts0Low(i: Info, protocol: nat)
    requires i.Valid() && protocol < 16
    ensures var p := PtsHead(i, protocol)[1]; Low(p) == protocol && !Has(p, 0x80)
  {
    hide ToByte, Low;
    var p := ToByte(protocol);
    LowNibble(p);
    LowOfSmall(p);
    LowWith(p, if i.ta[0] != -1 then 0x10 else 0, if i.tc[0] == 255 then 0x20 else 0);
  }

  lemma LowOfSmall(p: byte)
    requires p as int < 16
    ensures Low(p) == p as int
  {
    assert p < 16;
    assert p & 0x0F == p;
  }

  lemma LowWith(p: byte, a: byte, b: byte)
    requires p & 0xF0 == 0 && (a == 0 || a == 0x10) && (b == 0 || b == 0x20)
    ensures With(p, 0) == p && With(With(p, a), 0) == With(p, a)
    ensures Low(With(With(p, a), b)) == Low(p) && !Has(With(With(p, a), b), 0x80)
  {
    assert With(With(p, a), b) & 0x0F == p & 0x0F;
  }

  lemma OneIsOdd()
    ensures Has(1, 1)
  {
  }

  lemma LrcOfChecked(head: seq<byte>)
    ensures Lrc(head + [Lrc(head)]) == 0
  {
    FoldConcat(Xor, 0, head, [Lrc(head)]);
  }

  lemma Pts0Announces(i: Info, protocol: nat)
    requires i.Valid() && protocol < 16
    ensures var p := PtsHead(i, protocol)[1];
            Announced(p, 0) == (i.ta[0] != -1) && Announced(p, 1) == (i.tc[0] == 255) && !Announced(p, 2)
  {
    var p := ToByte(protocol);
    hide ToByte;
    LowNibble(p);
    NibbleWith(p, if i.ta[0] != -1 then 0x10 else 0, if i.tc[0] == 255 then 0x20 else 0);
  }

  lemma LowNibble(p: byte)
    requires p as int < 16
    ensures p & 0xF0 == 0
  {
    assert p < 16;
  }

  lemma NibbleWith(p: byte, a: byte, b: byte)
    requires p & 0xF0 == 0 && (a == 0 || a == 0x10) && (b == 0 || b == 0x20)
    ensures With(p, 0) == p && With(With(p, a), 0) == With(p, a)
    ensures var q := With(With(p, a), b); Has(q, 0x10) == (a != 0) && Has(q, 0x20) == (b != 0) && !Has(q, 0x40)
  {
  }

  /** Which responses with a right check octet are accepted: those with no more parameters than PTS0
      announces and, for a card that asked for it, a PTS2 with its low bit set. TA1 is kept exactly if
      PTS1 repeats it. */
  lemma ResponseJudged(i: Info, pts0: byte, params: seq<byte>)
    requires i.Valid()
    ensures var head := [0xFF, pts0] + params; var s := head + [Lrc(head)];
            var a, b, c := pts0 & 0x10 != 0, pts0 & 0x20 != 0, pts0 & 0x40 != 0;
            var k := if a then 1 else 0;
            var fits := |params| <= k + (if b then 1 else 0) + (if c then 1 else 0);
            && |s| >= 3
            && (Judged(i, s) == Fine <==> fits && (i.tc[0] == 255 ==> b && |params| > k && params[k] & 1 != 0))
            && (!fits ==> Judged(i, s) == Incompatible)
            && Settled(i, s) == if i.ta[0] == -1 || (a && params != [] && params[0] as int == i.ta[0]) then i
                                else i.(ta := i.ta[0 := -1])
  {
    hide Lrc;
    var head := [0xFF, pts0] + params;
    LrcOfChecked(head);
    var s := head + [Lrc(head)];
    assert forall j {:trigger params[j]} :: 0 <= j < |params| ==> s[2 + j] == params[j];
  }

  /** A response that differs from the echo in one octet is never accepted. */
  lemma AlteredEchoRefused(i: Info, protocol: nat, k: nat, b: byte)
    requires i.Valid() && protocol in i.supported && k < |Request(i, protocol)| && b != Request(i, protocol)[k]
    ensures Judged(i, Request(i, protocol)[k := b]) != Fine
  {
    hide Has, Lrc, Xor;
    var s := Request(i, protocol);
    var head := PtsHead(i, protocol);
    LrcOfChecked(head);
    LrcOfUpdate(s, k, b);
    XorDiffers(0, s[k], b);
  }

  /** A card that leaves out PTS1 declines TA1: it is accepted and TA1 is forgotten, nothing else. */
  lemma DeclinedRateForgotten(i: Info, protocol: nat)
    requires i.Valid() && protocol in i.supported && i.ta[0] != -1
    ensures var plain := i.(ta := i.ta[0 := -1]);
            var s := Request(plain, protocol);
            Judged(i, s) == Fine && Settled(i, s) == plain
  {
    hide Has, Lrc;
    var plain := i.(ta := i.ta[0 := -1]);
    EchoAccepted(plain, protocol);
    Pts0Announces(plain, protocol);
  }
}
