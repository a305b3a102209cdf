/** Answers to reset built from their parts (section 8.2 of ISO/IEC 7816-3), and what the library finds
    in them. */
module AtrRoundTrip {
  import opened Bytes
  import opened AtrSpec

  type nibble = n: nat | n < 16

  /** The interface octets with one index, TD excepted. */
  datatype Group = Group(ta: Option<byte>, tb: Option<byte>, tc: Option<byte>)

  /** TS; the interface octets of indices 1, 2, ...; the protocols that the TD octets between them name;
      the historical octets; the check octet, which is there if the last protocol is not T=0. */
  datatype Answer = Answer(ts: byte, groups: seq<Group>, protocols: seq<nibble>, historical: seq<byte>, tck: byte) {
    predicate Valid() {
      Linked(groups, protocols) && |historical| < 16
    }

    function LastProtocol(): nibble {
      if protocols == [] then 0 else protocols[|protocols| - 1]
    }
  }

  predicate Linked(gs: seq<Group>, ps: seq<nibble>) {
    |gs| == |ps| + 1
  }

  function Present(o: Option<byte>): seq<byte> {
    match o case None => [] case Some(b) => [b]
  }

  function Octets(g: Group): seq<byte> {
    Present(g.ta) + Present(g.tb) + Present(g.tc)
  }

  /** T0 or a TD octet: which interface octets follow, and the low half. */
  function Indicator(g: Group, more: bool, low: nibble): byte
  {
    Flags(g.ta.Some?, g.tb.Some?, g.tc.Some?, more) | ToByte(low)
  }

  function Flags(a: bool, b: bool, c: bool, d: bool): byte {
    (if a then 0x10 else 0) | (if b then 0x20 else 0) | (if c then 0x40 else 0) | (if d then 0x80 else 0)
  }

  /** Interface octets and TD octets behind T0. */
  function Chain(gs: seq<Group>, ps: seq<nibble>): seq<byte>
    requires Linked(gs, ps)
  {
    Octets(gs[0]) +
    if ps == [] then [] else [Indicator(gs[1], |ps| > 1, ps[0])] + Chain(gs[1..], ps[1..])
  }

  function Render(a: Answer): seq<byte>
    requires a.Valid()
  {
    [a.ts, Indicator(a.groups[0], a.protocols != [], |a.historical|)] + Chain(a.groups, a.protocols)
    + (a.historical + if a.LastProtocol() != 0 then [a.tck] else [])
  }

  /** T0 and the TD octets. */
  function Indicators(gs: seq<Group>, ps: seq<nibble>, low: nibble): (cs: seq<byte>)
    requires Linked(gs, ps)
    ensures |cs| == |gs|
  {
    [Indicator(gs[0], ps != [], low)] + if ps == [] then [] else Indicators(gs[1..], ps[1..], ps[0])
  }

  // ---- one indicator -----------------------------------------------------------------------------

  lemma FlagsAndLow(a: bool, b: bool, c: bool, d: bool, p: byte)
    requires p < 16
    ensures var i := Flags(a, b, c, d) | p;
            && i & 0x0F == p
            && Has(i, 0x10) == a && Has(i, 0x20) == b && Has(i, 0x40) == c && Has(i, 0x80) == d
  {
  }

  lemma SmallOctet(p: byte)
    requires p as int < 16
    ensures p < 16
  {
  }

  lemma IndicatorLow(g: Group, more: bool, low: nibble)
    ensures Low(Indicator(g, more, low)) == low
  {
    hide ToByte, Has, Flags;
    SmallOctet(ToByte(low));
    FlagsAndLow(g.ta.Some?, g.tb.Some?, g.tc.Some?, more, ToByte(low));
  }

  lemma IndicatorFlags(g: Group, more: bool, low: nibble)
    ensures var i := Indicator(g, more, low);
            && More(i) == more
            && Has(i, 0x10) == g.ta.Some? && Has(i, 0x20) == g.tb.Some? && Has(i, 0x40) == g.tc.Some?
  {
    hide ToByte, Has, Flags;
    SmallOctet(ToByte(low));
    FlagsAndLow(g.ta.Some?, g.tb.Some?, g.tc.Some?, more, ToByte(low));
  }

  lemma IndicatorMeans(g: Group, more: bool, low: nibble)
    ensures var i := Indicator(g, more, low);
            && Low(i) == low && More(i) == more
            && Has(i, 0x10) == g.ta.Some? && Has(i, 0x20) == g.tb.Some? && Has(i, 0x40) == g.tc.Some?
            && Groups(i) == |Octets(g)| + if more then 1 else 0
  {
    hide Has, Indicator, Low;
    IndicatorLow(g, more, low);
    IndicatorFlags(g, more, low);
  }

  // ---- the walk over the TD octets -------------------------------------------------------------------

  /** What lies around T0 or a TD octet c and the interface octets g it announces. */
  lemma Here(pre: seq<byte>, c: byte, g: seq<byte>, rest: seq<byte>, post: seq<byte>)
    ensures var s := pre + [c] + (g + rest) + post; var n := |pre| + 1;
            && n + |g| <= |s| - |post| && s[n - 1] == c && s[n..n + |g|] == g
            && s == (pre + [c] + g) + rest + post
  {
  }

  lemma Around(pre: seq<byte>, gs: seq<Group>, ps: seq<nibble>, low: nibble, post: seq<byte>)
    requires Linked(gs, ps)
    ensures var c := Indicator(gs[0], ps != [], low); var s := pre + [c] + Chain(gs, ps) + post;
            var n, k := |pre| + 1, |Octets(gs[0])|;
            && n + k <= |s| - |post| && s[n - 1] == c && s[n..n + k] == Octets(gs[0])
            && (ps == [] ==> Chain(gs, ps) == Octets(gs[0]))
            && (ps != [] ==>
                  && |Chain(gs, ps)| == k + 1 + |Chain(gs[1..], ps[1..])|
                  && s == (pre + [c] + Octets(gs[0])) + [Indicator(gs[1..][0], ps[1..] != [], ps[0])]
                          + Chain(gs[1..], ps[1..]) + post)
  {
    hide Octets, Indicator;
    var c := Indicator(gs[0], ps != [], low);
    if ps == [] {
      assert Octets(gs[0]) + [] == Octets(gs[0]);
      Here(pre, c, Octets(gs[0]), [], post);
    } else {
      var next := [Indicator(gs[1], |ps| > 1, ps[0])];
      var rest := Chain(gs[1..], ps[1..]);
      Here(pre, c, Octets(gs[0]), next + rest, post);
      JoinThree(pre + [c] + Octets(gs[0]), next, rest);
    }
  }

  lemma {:induction false} TdsRendered(pre: seq<byte>, gs: seq<Group>, ps: seq<nibble>, low: nibble, post: seq<byte>)
    requires Linked(gs, ps)
    ensures var s := pre + [Indicator(gs[0], ps != [], low)] + Chain(gs, ps) + post;
            Tds(s, |pre| + 1) == Some((Indicators(gs, ps, low), |pre| + 1 + |Chain(gs, ps)|))
    decreases ps
  {
    hide Octets, Indicator, Chain, Groups, Low, More, Tds;
    var c := Indicator(gs[0], ps != [], low);
    var s, n := pre + [c] + Chain(gs, ps) + post, |pre| + 1;
    Around(pre, gs, ps, low, post);
    IndicatorMeans(gs[0], ps != [], low);
    TdsNext(s, n);
    if ps == [] {
      assert Indicators(gs, ps, low) == [c];
    } else {
      var pre1 := pre + [c] + Octets(gs[0]);
      TdsRendered(pre1, gs[1..], ps[1..], ps[0], post);
      assert |pre1| + 1 == n + Groups(c);
      assert Tds(s, n + Groups(c)) == Some((Indicators(gs[1..], ps[1..], ps[0]), |pre1| + 1 + |Chain(gs[1..], ps[1..])|));
    }
  }

  /** The octets at q are the interface octets g, just after the octet that announces them. */
  ghost predicate Stands(s: seq<byte>, q: nat, g: Group, post: nat) {
    && 1 <= q && q + |Octets(g)| + post <= |s| && s[q..q + |Octets(g)|] == Octets(g)
    && exists more: bool, p: nibble :: s[q - 1] == Indicator(g, more, p)
  }

  /** Position finds each set of interface octets, or that there is no such set. */
  lemma {:induction false} PositionRendered(pre: seq<byte>, gs: seq<Group>, ps: seq<nibble>, low: nibble, post: seq<byte>, j: nat)
    requires Linked(gs, ps)
    ensures var s := pre + [Indicator(gs[0], ps != [], low)] + Chain(gs, ps) + post;
            var q := Position(s, |pre| + 1, j);
            if j < |gs| then q.Some? && Stands(s, q.value, gs[j], |post|) else q.None?
    decreases ps
  {
    hide Octets, Indicator, Chain, Groups, Low, More, Stands;
    var c := Indicator(gs[0], ps != [], low);
    var s, n := pre + [c] + Chain(gs, ps) + post, |pre| + 1;
    Around(pre, gs, ps, low, post);
    IndicatorMeans(gs[0], ps != [], low);
    StandsHere(s, n, gs[0], ps != [], low, |post|);
    if j > 0 && ps != [] {
      var pre1 := pre + [c] + Octets(gs[0]);
      PositionRendered(pre1, gs[1..], ps[1..], ps[0], post, j - 1);
      assert |pre1| + 1 == n + Groups(c);
      assert Position(s, n, j) == Position(s, n + Groups(c), j - 1);
    }
  }

  lemma StandsHere(s: seq<byte>, q: nat, g: Group, more: bool, p: nibble, post: nat)
    requires 1 <= q && q + |Octets(g)| + post <= |s| && s[q..q + |Octets(g)|] == Octets(g)
    requires s[q - 1] == Indicator(g, more, p)
    ensures Stands(s, q, g, post)
  {
  }

  // ---- what the library finds -------------------------------------------------------------------------

  function Ending(a: Answer): seq<byte> {
    a.historical + if a.LastProtocol() != 0 then [a.tck] else []
  }

  /** The TD octets name the protocols, and the last octet announces as many as its group has. */
  lemma {:induction false} IndicatorsName(gs: seq<Group>, ps: seq<nibble>, low: nibble)
    requires Linked(gs, ps)
    ensures var cs := Indicators(gs, ps, low);
            && cs[0] == Indicator(gs[0], ps != [], low) && Low(cs[0]) == low && (ps != [] ==> Low(cs[1]) == ps[0])
            && Low(cs[|cs| - 1]) == (if ps == [] then low else ps[|ps| - 1])
            && Groups(cs[|cs| - 1]) == |Octets(gs[|gs| - 1])|
            && cs[1..] == (if ps == [] then [] else Indicators(gs[1..], ps[1..], ps[0]))
    decreases ps
  {
    hide Octets, Indicator, Groups, Low;
    IndicatorMeans(gs[0], ps != [], low);
    if ps != [] {
      IndicatorsName(gs[1..], ps[1..], ps[0]);
    }
  }

  lemma {:induction false} ProtocolsNamed(gs: seq<Group>, ps: seq<nibble>, low: nibble)
    requires Linked(gs, ps)
    ensures forall p :: p in Protocols(Indicators(gs, ps, low)) <==> p == low || p in ps
    decreases ps
  {
    hide Indicator, Indicators, Low, Groups, Octets;
    var cs := Indicators(gs, ps, low);
    IndicatorsName(gs, ps, low);
    if ps == [] {
      assert Protocols(cs[1..]) == {};
    } else {
      ProtocolsNamed(gs[1..], ps[1..], ps[0]);
      assert ps == [ps[0]] + ps[1..];
    }
  }

  lemma RenderedWalk(a: Answer)
    requires a.Valid()
    ensures var s := Render(a); var cs := Indicators(a.groups, a.protocols, |a.historical|);
            && |s| == 2 + |Chain(a.groups, a.protocols)| + |Ending(a)| && s[1] == cs[0]
            && Tds(s, 2) == Some((cs, |s| - |Ending(a)|))
            && s == [a.ts] + [cs[0]] + Chain(a.groups, a.protocols) + Ending(a)
  {
    hide Indicator, Chain;
    TdsRendered([a.ts], a.groups, a.protocols, |a.historical|, Ending(a));
    var c := Indicator(a.groups[0], a.protocols != [], |a.historical|);
    assert [a.ts] + [c] == [a.ts, c];
  }

  /** The walk of the receive loop ends exactly where the answer does. */
  lemma RenderedComplete(a: Answer)
    requires a.Valid()
    ensures Needed(Render(a)) == Some(|Render(a)|)
  {
    hide Indicators, Render, Tds, Low, Groups;
    RenderedWalk(a);
    IndicatorsName(a.groups, a.protocols, |a.historical|);
  }

  /** The interface octet as ifd_atr_info_t holds it. */
  function Entry(o: Option<byte>): int {
    match o case None => -1 case Some(b) => b as int
  }

  /** Exactly which of these answers ifd_atr_parse accepts, and what it then finds: the default protocol is
      the first one named, and under each index below 3 stand the interface octets put there. The
      protocols are those named, unless the last set of interface octets is empty and its protocol, T=0, is
      named nowhere else. */
  lemma RenderedParses(a: Answer)
    requires a.Valid()
    ensures var (r, ok) := Parse(Render(a)); var last := a.groups[|a.groups| - 1];
            && |Render(a)| >= 2
            && (ok <==> if Octets(last) == [] then a.LastProtocol() == 0 && |a.groups| <= 5 else |a.groups| <= 4)
            && (ok ==> r.default == if a.protocols == [] then 0 else a.protocols[0])
            && (ok && Octets(last) != [] ==>
                  forall p :: p in r.supported <==> p in a.protocols || (a.protocols == [] && p == 0))
            && (ok ==> forall j :: 0 <= j <= 2 ==>
                  EntriesAre(r, j, if j < |a.groups| then a.groups[j] else Group(None, None, None)))
  {
    hide Indicators, Render, Tds, Low, Groups, Parse, Protocols, EntriesAre, Octets;
    var s := Render(a);
    RenderedComplete(a);
    RenderedWalk(a);
    WholeAnswer(s);
    var cs := Indicators(a.groups, a.protocols, |a.historical|);
    IndicatorsName(a.groups, a.protocols, |a.historical|);
    if a.protocols != [] {
      ProtocolsNamed(a.groups[1..], a.protocols[1..], a.protocols[0]);
      assert a.protocols == [a.protocols[0]] + a.protocols[1..];
    }
    if Parse(s).1 {
      forall j | 0 <= j <= 2
        ensures EntriesAre(Parse(s).0, j, if j < |a.groups| then a.groups[j] else Group(None, None, None))
      {
        EntriesFound(a, j);
      }
    }
  }

  predicate EntriesAre(r: Info, j: nat, g: Group)
    requires r.Valid() && j <= 3
  {
    r.ta[j] == Entry(g.ta) && r.tb[j] == Entry(g.tb) && r.tc[j] == Entry(g.tc)
  }

  lemma EntriesFound(a: Answer, j: nat)
    requires a.Valid() && j <= 2 && |Render(a)| >= 2 && Parse(Render(a)).1
    ensures EntriesAre(Parse(Render(a)).0, j, if j < |a.groups| then a.groups[j] else Group(None, None, None))
  {
    hide Indicators, Render, Low, Groups, Parse, Octets, Chain, Holds, Stands;
    var s := Render(a);
    RenderedWalk(a);
    IndicatorsName(a.groups, a.protocols, |a.historical|);
    PositionRendered([a.ts], a.groups, a.protocols, |a.historical|, Ending(a), j);
    InterfaceOctets(s, j);
    if j < |a.groups| {
      var q := Position(s, 2, j).value;
      HoldsGroup(Parse(s).0, j, s, q, a.groups[j], |Ending(a)|, |a.historical|);
    }
  }

  lemma OctetsInOrder(g: Group)
    ensures var a := if g.ta.Some? then 1 else 0; var b := if g.tb.Some? then 1 else 0;
            && |Octets(g)| == a + b + (if g.tc.Some? then 1 else 0)
            && (g.ta.Some? ==> Octets(g)[0] == g.ta.value)
            && (g.tb.Some? ==> Octets(g)[a] == g.tb.value)
            && (g.tc.Some? ==> Octets(g)[a + b] == g.tc.value)
  {
  }

  lemma HoldsGroup(r: Info, j: nat, s: seq<byte>, q: nat, g: Group, post: nat, k: nat)
    requires r.Valid() && j <= 3 && Stands(s, q, g, post) && k <= post && k <= |s|
    requires if q < |s| - k then
               q + Groups(s[q - 1]) <= |s| && Holds(r.ta[j], r.tb[j], r.tc[j], s, q, (-1, -1, -1))
             else r.ta[j] == r.tb[j] == r.tc[j] == -1
    ensures EntriesAre(r, j, g)
  {
    hide Low, Groups, Indicator, Has, Octets;
    var more: bool, p: nibble :| s[q - 1] == Indicator(g, more, p);
    IndicatorMeans(g, more, p);
    OctetsInOrder(g);
    forall i | 0 <= i < |Octets(g)|
      ensures Octets(g)[i] == s[q + i]
    {
      assert s[q..q + |Octets(g)|][i] == s[q + i];
    }
  }

  /** With octets behind its end such an answer is refused; only one octet in the place of a check octet is
      overlooked, where a protocol other than T=0 is named but not last. */
  lemma RenderedSurplus(a: Answer, surplus: seq<byte>)
    requires a.Valid() && |a.groups| <= 4 && Octets(a.groups[|a.groups| - 1]) != []
    ensures |Render(a)| >= 2
    ensures Parse(Render(a) + surplus).1
            <==> surplus == [] || (|surplus| == 1 && a.LastProtocol() == 0 && exists p :: p in a.protocols && p != 0)
  {
    hide Indicators, Tds, Low, Groups, Octets, Chain, Indicator, ParseFrom, Protocols, BeyondT0;
    var s := Render(a) + surplus;
    var cs := Indicators(a.groups, a.protocols, |a.historical|);
    var c := Indicator(a.groups[0], a.protocols != [], |a.historical|);
    assert [a.ts] + [c] == [a.ts, c];
    JoinThree([a.ts] + [c] + Chain(a.groups, a.protocols), Ending(a), surplus);
    TdsRendered([a.ts], a.groups, a.protocols, |a.historical|, Ending(a) + surplus);
    IndicatorsName(a.groups, a.protocols, |a.historical|);
    var len := |s| - |a.historical|;
    SurplusRefused(s, len, 0, 2, START);
    assert s[1] == c;
    BeyondNamed(a.groups, a.protocols, |a.historical|);
    assert {} + Protocols(Seen(cs, 2)) == Protocols(Seen(cs, 2));
    if a.LastProtocol() != 0 {
      assert a.protocols[|a.protocols| - 1] in a.protocols;
    }
  }

  lemma BeyondNamed(gs: seq<Group>, ps: seq<nibble>, low: nibble)
    requires Linked(gs, ps) && Octets(gs[|gs| - 1]) != []
    ensures BeyondT0(Protocols(Seen(Indicators(gs, ps, low), 2))) <==> exists p :: p in ps && p != 0
  {
    hide Indicators, Low, Groups, Octets;
    IndicatorsName(gs, ps, low);
    if ps != [] {
      IndicatorsName(gs[1..], ps[1..], ps[0]);
      ProtocolsNamed(gs[1..], ps[1..], ps[0]);
      assert ps == [ps[0]] + ps[1..];
      var cs := Indicators(gs, ps, low);
      assert Seen(cs, 2) == cs[1..];
      assert forall p: nat :: p in Protocols(cs[1..]) <==> p in ps;
    } else {
      assert Protocols(Seen(Indicators(gs, ps, low), 2)) == {};
    }
  }
}
