/** Octets, and the few facts about them that the protocol modules share. */
module Bytes {

  type byte = bv8

  /** A sequence bit, as the protocol state machines keep it. */
  type bit = b: byte | b == 0 || b == 1

  datatype Option<+T> = None | Some(value: T)

  /** The octet with numeric value n. */
  function ToByte(n: int): (b: byte)
    requires 0 <= n < 256
    ensures b as int == n
    decreases n
  {
    if n == 0 then 0 else Successor(ToByte(n - 1)); ToByte(n - 1) + 1
  }

  lemma Successor(b: byte)
    requires b < 255
    ensures (b + 1) as int == b as int + 1
  {
  }

  lemma OctetIsItsValue(b: byte)
    ensures ToByte(b as int) == b
  {
    SameValue(ToByte(b as int), b);
  }

  lemma SameValue(a: byte, b: byte)
    requires a as int == b as int
    ensures a == b
  {
  }

  /** A part of a part of a sequence. */
  lemma PartOfPart<T>(s: seq<T>, a: nat, b: nat, c: nat, d: nat)
    requires a <= b <= |s| && c <= d <= b - a
    ensures s[a..b][c..d] == s[a + c..a + d]
  {
    forall i | 0 <= i < d - c
      ensures s[a..b][c..d][i] == s[a + c..a + d][i]
    {
    }
  }

  /** A part of a concatenation that lies in the first half. */
  lemma PartOfFirst<T>(s: seq<T>, t: seq<T>, a: nat, b: nat)
    requires a <= b <= |s|
    ensures (s + t)[a..b] == s[a..b]
  {
    forall i | 0 <= i < b - a
      ensures (s + t)[a..b][i] == s[a..b][i]
    {
    }
  }

  lemma JoinThree<T>(a: seq<T>, b: seq<T>, c: seq<T>)
    ensures a + b + c == a + (b + c)
  {
  }

  lemma JoinFour<T>(a: seq<T>, b: seq<T>, c: seq<T>, d: seq<T>)
    ensures a + b + c + d == a + (b + c + d)
  {
  }

  function Min(a: int, b: int): int {
    if a <= b then a else b
  }

  /** Decrement of an `unsigned int`. */
  function Dec32(n: nat): (r: nat)
    ensures n < 0x1_0000_0000 ==> r == (n + 0xFFFF_FFFF) % 0x1_0000_0000
  {
    if n == 0 then 0xFFFF_FFFF else n - 1
  }
}
