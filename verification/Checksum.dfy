/** The two error detection codes of T=1 (checksum.c). */
module Checksum {
  import opened Bytes

  // ---- folding a register over its input -----------------------------------

  function Fold<S, X>(f: (S, X) -> S, v: S, xs: seq<X>): S
    decreases xs
  {
    if xs == [] then v else Fold(f, f(v, xs[0]), xs[1..])
  }

  lemma {:induction false} FoldConcat<S, X>(f: (S, X) -> S, v: S, a: seq<X>, b: seq<X>)
    ensures Fold(f, v, a + b) == Fold(f, Fold(f, v, a), b)
    decreases a
  {
    if a == [] {
      assert a + b == b;
    } else {
      assert (a + b)[1..] == a[1..] + b;
      FoldConcat(f, f(v, a[0]), a[1..], b);
    }
  }

  lemma FoldNothing<S, X>(f: (S, X) -> S, v: S)
    ensures Fold(f, v, []) == v
  {
  }

  /** One more element at the end, as a loop over a buffer meets it. */
  lemma FoldNext<S, X>(f: (S, X) -> S, v: S, xs: seq<X>, i: nat)
    requires i < |xs|
    ensures Fold(f, v, xs[..i + 1]) == f(Fold(f, v, xs[..i]), xs[i])
  {
    assert xs[..i + 1] == xs[..i] + [xs[i]];
    FoldConcat(f, v, xs[..i], [xs[i]]);
  }

  ghost predicate StepInjective<S(!new), X(!new)>(f: (S, X) -> S) {
    forall v, w, x :: f(v, x) == f(w, x) ==> v == w
  }

  lemma {:induction false} FoldInjective<S(!new), X(!new)>(f: (S, X) -> S, v: S, w: S, xs: seq<X>)
    requires StepInjective(f) && Fold(f, v, xs) == Fold(f, w, xs)
    ensures v == w
    decreases xs
  {
    if xs != [] {
      FoldInjective(f, f(v, xs[0]), f(w, xs[0]), xs[1..]);
    }
  }

  // ---- LRC -----------------------------------------------------------------

  function Xor(a: byte, b: byte): byte {
    a ^ b
  }

  /** Exclusive-or of all octets: the longitudinal redundancy code. */
  function Lrc(data: seq<byte>): byte {
    Fold(Xor, 0, data)
  }

  method LrcCompute(data: array<byte>, len: nat) returns (rc: seq<byte>)
    requires len <= data.Length
    ensures rc == [Lrc(data[..len])]
  {
    var lrc: byte := 0;
    var i := 0;
    while i < len
      invariant 0 <= i <= len
      invariant lrc == Lrc(data[..len][..i])
    {
      FoldNext(Xor, 0, data[..len], i);
      lrc := lrc ^ data[i];
      i := i + 1;
    }
    assert data[..len][..len] == data[..len];
    rc := [lrc];
  }

  /** The number of octets that have a bit of the mask set. */
  function CountWith(data: seq<byte>, mask: byte): nat {
    if data == [] then 0 else CountWith(data[..|data| - 1], mask) + if data[|data| - 1] & mask != 0 then 1 else 0
  }

  /** What an exclusive-or is: each bit of the LRC tells the parity of that bit over all octets. */
  lemma {:induction false} LrcIsParity(data: seq<byte>, mask: byte)
    requires mask in {0x01, 0x02, 0x04, 0x08, 0x10, 0x20, 0x40, 0x80}
    ensures Lrc(data) & mask != 0 <==> CountWith(data, mask) % 2 == 1
    decreases data
  {
    var n := |data|;
    if n == 0 {
      assert Lrc(data) == 0;
    } else {
      LrcIsParity(data[..n - 1], mask);
      FoldNext(Xor, 0, data, n - 1);
      assert data[..n] == data;
      XorBit(Lrc(data[..n - 1]), data[n - 1], mask);
    }
  }

  lemma XorBit(a: byte, b: byte, mask: byte)
    requires mask in {0x01, 0x02, 0x04, 0x08, 0x10, 0x20, 0x40, 0x80}
    ensures Xor(a, b) & mask != 0 <==> (a & mask != 0) != (b & mask != 0)
  {
  }

  ghost predicate StepsCommute<S(!new), X(!new)>(f: (S, X) -> S) {
    forall v, x, y :: f(f(v, x), y) == f(f(v, y), x)
  }

  lemma {:induction false} FoldCommutes<S(!new), X(!new)>(f: (S, X) -> S, v: S, x: X, xs: seq<X>)
    requires StepsCommute(f)
    ensures Fold(f, f(v, x), xs) == f(Fold(f, v, xs), x)
    decreases xs
  {
    if xs != [] {
      assert f(f(v, x), xs[0]) == f(f(v, xs[0]), x);
      FoldCommutes(f, f(v, xs[0]), x, xs[1..]);
    }
  }

  /** Replacing one octet moves the LRC by the difference of the two values. */
  lemma LrcOfUpdate(data: seq<byte>, i: nat, b: byte)
    requires i < |data|
    ensures Lrc(data[i := b]) == Xor(Xor(Lrc(data), data[i]), b)
  {
    var p, s := data[..i], data[i + 1..];
    assert data == p + [data[i]] + s && data[i := b] == p + [b] + s;
    LrcSplit(p, data[i], s);
    LrcSplit(p, b, s);
    XorAlgebra(Fold(Xor, Lrc(p), s), data[i], b);
  }

  lemma LrcSplit(p: seq<byte>, x: byte, s: seq<byte>)
    ensures Lrc(p + [x] + s) == Fold(Xor, Lrc(p), s) ^ x
  {
    FoldConcat(Xor, 0, p + [x], s);
    FoldConcat(Xor, 0, p, [x]);
    XorCommutes();
    FoldCommutes(Xor, Lrc(p), x, s);
  }

  lemma XorCommutes()
    ensures StepsCommute(Xor)
  {
    forall v, x, y
      ensures Xor(Xor(v, x), y) == Xor(Xor(v, y), x)
    {
      XorSwap(v, x, y);
    }
  }

  lemma XorSwap(v: byte, x: byte, y: byte)
    ensures v ^ x ^ y == v ^ y ^ x
  {
  }

  lemma XorAlgebra(x: byte, a: byte, b: byte)
    ensures x ^ b == (x ^ a) ^ a ^ b
  {
  }

  lemma XorDiffers(x: byte, a: byte, b: byte)
    requires a != b
    ensures Xor(Xor(x, a), b) != x
  {
  }

  lemma XorCancels(x: byte, y: byte, z: byte, a: byte, b: byte, c: byte, d: byte)
    requires y == Xor(Xor(x, a), b) && z == Xor(Xor(y, c), d)
    ensures z == x <==> Cancel(a, b, c, d)
  {
    hide Xor;
    XorAssociates(x, a, b);
    XorAssociates(y, c, d);
    XorTwice(x, Xor(a, b), Xor(c, d));
  }

  lemma XorAssociates(x: byte, a: byte, b: byte)
    ensures Xor(Xor(x, a), b) == Xor(x, Xor(a, b))
  {
  }

  lemma XorTwice(x: byte, p: byte, q: byte)
    ensures Xor(Xor(x, p), q) == x <==> p == q
  {
    if p == q {
      assert (x ^ p) ^ p == x;
    }
  }

  // ---- CRC -----------------------------------------------------------------

  // The table, in sixteen rows of sixteen entries.
  const Row0: seq<bv16> := [
    0x0000, 0x1189, 0x2312, 0x329b, 0x4624, 0x57ad, 0x6536, 0x74bf,
    0x8c48, 0x9dc1, 0xaf5a, 0xbed3, 0xca6c, 0xdbe5, 0xe97e, 0xf8f7]
  const Row1: seq<bv16> := [
    0x1081, 0x0108, 0x3393, 0x221a, 0x56a5, 0x472c, 0x75b7, 0x643e,
    0x9cc9, 0x8d40, 0xbfdb, 0xae52, 0xdaed, 0xcb64, 0xf9ff, 0xe876]
  const Row2: seq<bv16> := [
    0x2102, 0x308b, 0x0210, 0x1399, 0x6726, 0x76af, 0x4434, 0x55bd,
    0xad4a, 0xbcc3, 0x8e58, 0x9fd1, 0xeb6e, 0xfae7, 0xc87c, 0xd9f5]
  const Row3: seq<bv16> := [
    0x3183, 0x200a, 0x1291, 0x0318, 0x77a7, 0x662e, 0x54b5, 0x453c,
    0xbdcb, 0xac42, 0x9ed9, 0x8f50, 0xfbef, 0xea66, 0xd8fd, 0xc974]
  const Row4: seq<bv16> := [
    0x4204, 0x538d, 0x6116, 0x709f, 0x0420, 0x15a9, 0x2732, 0x36bb,
    0xce4c, 0xdfc5, 0xed5e, 0xfcd7, 0x8868, 0x99e1, 0xab7a, 0xbaf3]
  const Row5: seq<bv16> := [
    0x5285, 0x430c, 0x7197, 0x601e, 0x14a1, 0x0528, 0x37b3, 0x263a,
    0xdecd, 0xcf44, 0xfddf, 0xec56, 0x98e9, 0x8960, 0xbbfb, 0xaa72]
  const Row6: seq<bv16> := [
    0x6306, 0x728f, 0x4014, 0x519d, 0x2522, 0x34ab, 0x0630, 0x17b9,
    0xef4e, 0xfec7, 0xcc5c, 0xddd5, 0xa96a, 0xb8e3, 0x8a78, 0x9bf1]
  const Row7: seq<bv16> := [
    0x7387, 0x620e, 0x5095, 0x411c, 0x35a3, 0x242a, 0x16b1, 0x0738,
    0xffcf, 0xee46, 0xdcdd, 0xcd54, 0xb9eb, 0xa862, 0x9af9, 0x8b70]
  const Row8: seq<bv16> := [
    0x8408, 0x9581, 0xa71a, 0xb693, 0xc22c, 0xd3a5, 0xe13e, 0xf0b7,
    0x0840, 0x19c9, 0x2b52, 0x3adb, 0x4e64, 0x5fed, 0x6d76, 0x7cff]
  const Row9: seq<bv16> := [
    0x9489, 0x8500, 0xb79b, 0xa612, 0xd2ad, 0xc324, 0xf1bf, 0xe036,
    0x18c1, 0x0948, 0x3bd3, 0x2a5a, 0x5ee5, 0x4f6c, 0x7df7, 0x6c7e]
  const RowA: seq<bv16> := [
    0xa50a, 0xb483, 0x8618, 0x9791, 0xe32e, 0xf2a7, 0xc03c, 0xd1b5,
    0x2942, 0x38cb, 0x0a50, 0x1bd9, 0x6f66, 0x7eef, 0x4c74, 0x5dfd]
  const RowB: seq<bv16> := [
    0xb58b, 0xa402, 0x9699, 0x8710, 0xf3af, 0xe226, 0xd0bd, 0xc134,
    0x39c3, 0x284a, 0x1ad1, 0x0b58, 0x7fe7, 0x6e6e, 0x5cf5, 0x4d7c]
  const RowC: seq<bv16> := [
    0xc60c, 0xd785, 0xe51e, 0xf497, 0x8028, 0x91a1, 0xa33a, 0xb2b3,
    0x4a44, 0x5bcd, 0x6956, 0x78df, 0x0c60, 0x1de9, 0x2f72, 0x3efb]
  const RowD: seq<bv16> := [
    0xd68d, 0xc704, 0xf59f, 0xe416, 0x90a9, 0x8120, 0xb3bb, 0xa232,
    0x5ac5, 0x4b4c, 0x79d7, 0x685e, 0x1ce1, 0x0d68, 0x3ff3, 0x2e7a]
  const RowE: seq<bv16> := [
    0xe70e, 0xf687, 0xc41c, 0xd595, 0xa12a, 0xb0a3, 0x8238, 0x93b1,
    0x6b46, 0x7acf, 0x4854, 0x59dd, 0x2d62, 0x3ceb, 0x0e70, 0x1ff9]
  const RowF: seq<bv16> := [
    0xf78f, 0xe606, 0xd49d, 0xc514, 0xb1ab, 0xa022, 0x92b9, 0x8330,
    0x7bc7, 0x6a4e, 0x58d5, 0x495c, 0x3de3, 0x2c6a, 0x1ef1, 0x0f78]

  function CrcRow(h: nat): seq<bv16>
    requires h < 16
  {
    match h
    case 0 => Row0
    case 1 => Row1
    case 2 => Row2
    case 3 => Row3
    case 4 => Row4
    case 5 => Row5
    case 6 => Row6
    case 7 => Row7
    case 8 => Row8
    case 9 => Row9
    case 10 => RowA
    case 11 => RowB
    case 12 => RowC
    case 13 => RowD
    case 14 => RowE
    case 15 => RowF
  }

  function CrcTab(n: nat): bv16
    requires n < 256
  {
    TableShape(n / 16);
    CrcRow(n / 16)[n % 16]
  }

  lemma TableShape(h: nat)
    requires h < 16
    ensures |CrcRow(h)| == 16
  {
  }

  /** One step of the reflected CCITT shift register (x^16 + x^12 + x^5 + 1). */
  function Shift(v: bv16): bv16 {
    if v & 1 == 1 then (v >> 1) ^ 0x8408 else v >> 1
  }

  function Shift8(v: bv16): bv16 {
    Shift(Shift(Shift(Shift(Shift(Shift(Shift(Shift(v))))))))
  }

  /** Feed one message bit to the register. */
  function FeedBit(v: bv16, b: bool): bv16 {
    Shift(v ^ if b then 1 else 0)
  }

  /** The bits of an octet, in the order ISO 3309 transmits them: low bit first. */
  function Bits(b: byte): seq<bool> {
    [b & 1 != 0, b & 2 != 0, b & 4 != 0, b & 8 != 0,
     b & 16 != 0, b & 32 != 0, b & 64 != 0, b & 128 != 0]
  }

  function Message(data: seq<byte>): seq<bool> {
    if data == [] then [] else Bits(data[0]) + Message(data[1..])
  }

  /** Reference definition: divide the message bit by bit, register preset to all ones. */
  function Division(bits: seq<bool>): bv16 {
    Fold(FeedBit, 0xFFFF, bits)
  }

  /** The register after one octet. */
  function Update(v: bv16, b: byte): bv16 {
    Shift8(v ^ (b as bv16))
  }

  /** The same by table look-up. */
  function TableUpdate(v: bv16, b: byte): bv16 {
    ((v >> 8) & 0xFF) ^ CrcTab(((v ^ (b as bv16)) & 0xFF) as byte as int)
  }

  function CrcOctets(v: bv16): seq<byte> {
    [((v >> 8) & 0xFF) as byte, (v & 0xFF) as byte]
  }

  /** A 16-bit value from its high and its low octet. */
  function Joined(high: byte, low: byte): bv16 {
    (high as bv16 << 8) | low as bv16
  }

  /** The octets of a register go out high octet first. */
  lemma HighOctetFirst(v: bv16)
    ensures |CrcOctets(v)| == 2 && Joined(CrcOctets(v)[0], CrcOctets(v)[1]) == v
  {
  }

  method CrcCompute(data: array<byte>, len: nat) returns (rc: seq<byte>)
    requires len <= data.Length
    ensures rc == CrcOctets(Division(Message(data[..len])))
    ensures |rc| == 2 && Joined(rc[0], rc[1]) == Division(Message(data[..len]))
  {
    hide *;
    var v: bv16 := 0xFFFF;
    var i := 0;
    FoldNothing(TableUpdate, v);
    assert data[..len][..0] == [];
    while i < len
      invariant 0 <= i <= len
      invariant v == Fold(TableUpdate, 0xFFFF, data[..len][..i])
    {
      FoldNext(TableUpdate, 0xFFFF, data[..len], i);
      v := TableUpdate(v, data[i]);
      i := i + 1;
    }
    assert data[..len][..len] == data[..len];
    CrcIsDivision(0xFFFF, data[..len]);
    DivisionIs(Message(data[..len]));
    rc := CrcOctets(v);
    HighOctetFirst(v);
  }

  /** The register over the nine digits "123456789": the check value by which this CRC (preset to all
      ones, not complemented) is told from its relatives. */
  lemma CrcOfDigits()
    ensures Division(Message([0x31, 0x32, 0x33, 0x34, 0x35, 0x36, 0x37, 0x38, 0x39])) == 0x6F91
  {
    hide Division, Message;
    var s: seq<byte> := [0x31, 0x32, 0x33, 0x34, 0x35, 0x36, 0x37, 0x38, 0x39];
    DivisionIs(Message(s));
    CrcIsDivision(0xFFFF, s);
    DigitsFolded(s);
  }

  lemma DigitsFolded(s: seq<byte>)
    requires s == [0x31, 0x32, 0x33, 0x34, 0x35, 0x36, 0x37, 0x38, 0x39]
    ensures Fold(TableUpdate, 0xFFFF, s) == 0x6F91
  {
    hide TableUpdate, Fold, Update;
    FoldNothing(TableUpdate, 0xFFFF);
    DigitSteps();
    assert s[..0] == [] && s[..9] == s;
    StepTo(s, 0, 0xFFFF, 0x2F8D);
    StepTo(s, 1, 0x2F8D, 0x4D53);
    StepTo(s, 2, 0x4D53, 0x634B);
    StepTo(s, 3, 0x634B, 0x8B13);
    StepTo(s, 4, 0x8B13, 0x44BF);
    StepTo(s, 5, 0x44BF, 0x198D);
    StepTo(s, 6, 0x198D, 0x1AC8);
    StepTo(s, 7, 0x1AC8, 0xF795);
    StepTo(s, 8, 0xF795, 0x6F91);
  }

  lemma StepTo(s: seq<byte>, k: nat, v: bv16, w: bv16)
    requires k < |s| && Fold(TableUpdate, 0xFFFF, s[..k]) == v && Update(v, s[k]) == w
    ensures Fold(TableUpdate, 0xFFFF, s[..k + 1]) == w
  {
    hide Update;
    FoldNext(TableUpdate, 0xFFFF, s, k);
    TableStep(v, s[k]);
  }

  lemma DigitSteps()
    ensures Update(0xFFFF, 0x31) == 0x2F8D && Update(0x2F8D, 0x32) == 0x4D53 && Update(0x4D53, 0x33) == 0x634B
    ensures Update(0x634B, 0x34) == 0x8B13 && Update(0x8B13, 0x35) == 0x44BF && Update(0x44BF, 0x36) == 0x198D
    ensures Update(0x198D, 0x37) == 0x1AC8 && Update(0x1AC8, 0x38) == 0xF795 && Update(0xF795, 0x39) == 0x6F91
  {
  }

  lemma DivisionIs(bits: seq<bool>)
    ensures Division(bits) == Fold(FeedBit, 0xFFFF, bits)
  {
  }

  // ---- the table is the bit-serial register, eight bits at a time -----------

  /** The register contents that the table entry for octet n should hold. */
  function Octet(n: nat): bv16 {
    if n < 256 then Shift8(n as bv16) else 0
  }

  /** Row is the sixteen values of f from base on. */
  ghost predicate RowMatches(row: seq<bv16>, f: nat -> bv16, base: nat) {
    && |row| == 16
    && row[0] == f(base + 0) && row[1] == f(base + 1)
    && row[2] == f(base + 2) && row[3] == f(base + 3)
    && row[4] == f(base + 4) && row[5] == f(base + 5)
    && row[6] == f(base + 6) && row[7] == f(base + 7)
    && row[8] == f(base + 8) && row[9] == f(base + 9)
    && row[10] == f(base + 10) && row[11] == f(base + 11)
    && row[12] == f(base + 12) && row[13] == f(base + 13)
    && row[14] == f(base + 14) && row[15] == f(base + 15)
  }

  lemma RowEntry(row: seq<bv16>, f: nat -> bv16, base: nat, k: nat)
    requires RowMatches(row, f, base) && k < 16
    ensures row[k] == f(base + k)
  {
  }

  ghost predicate GivesOctet(f: nat -> bv16) {
    forall n :: f(n) == Octet(n)
  }

  lemma Row0Matches(f: nat -> bv16)
    requires GivesOctet(f)
    ensures RowMatches(Row0, f, 0)
  {}

  lemma Row1Matches(f: nat -> bv16)
    requires GivesOctet(f)
    ensures RowMatches(Row1, f, 16)
  {}

  lemma Row2Matches(f: nat -> bv16)
    requires GivesOctet(f)
    ensures RowMatches(Row2, f, 32)
  {}

  lemma Row3Matches(f: nat -> bv16)
    requires GivesOctet(f)
    ensures RowMatches(Row3, f, 48)
  {}

  lemma Row4Matches(f: nat -> bv16)
    requires GivesOctet(f)
    ensures RowMatches(Row4, f, 64)
  {}

  lemma Row5Matches(f: nat -> bv16)
    requires GivesOctet(f)
    ensures RowMatches(Row5, f, 80)
  {}

  lemma Row6Matches(f: nat -> bv16)
    requires GivesOctet(f)
    ensures RowMatches(Row6, f, 96)
  {}

  lemma Row7Matches(f: nat -> bv16)
    requires GivesOctet(f)
    ensures RowMatches(Row7, f, 112)
  {}

  lemma Row8Matches(f: nat -> bv16)
    requires GivesOctet(f)
    ensures RowMatches(Row8, f, 128)
  {}

  lemma Row9Matches(f: nat -> bv16)
    requires GivesOctet(f)
    ensures RowMatches(Row9, f, 144)
  {}

  lemma RowAMatches(f: nat -> bv16)
    requires GivesOctet(f)
    ensures RowMatches(RowA, f, 160)
  {}

  lemma RowBMatches(f: nat -> bv16)
    requires GivesOctet(f)
    ensures RowMatches(RowB, f, 176)
  {}

  lemma RowCMatches(f: nat -> bv16)
    requires GivesOctet(f)
    ensures RowMatches(RowC, f, 192)
  {}

  lemma RowDMatches(f: nat -> bv16)
    requires GivesOctet(f)
    ensures RowMatches(RowD, f, 208)
  {}

  lemma RowEMatches(f: nat -> bv16)
    requires GivesOctet(f)
    ensures RowMatches(RowE, f, 224)
  {}

  lemma RowFMatches(f: nat -> bv16)
    requires GivesOctet(f)
    ensures RowMatches(RowF, f, 240)
  {}

  lemma TableMatches(h: nat, f: nat -> bv16)
    requires h < 16 && GivesOctet(f)
    ensures RowMatches(CrcRow(h), f, 16 * h)
  {
    match h {
      case 0 => Row0Matches(f);
      case 1 => Row1Matches(f);
      case 2 => Row2Matches(f);
      case 3 => Row3Matches(f);
      case 4 => Row4Matches(f);
      case 5 => Row5Matches(f);
      case 6 => Row6Matches(f);
      case 7 => Row7Matches(f);
      case 8 => Row8Matches(f);
      case 9 => Row9Matches(f);
      case 10 => RowAMatches(f);
      case 11 => RowBMatches(f);
      case 12 => RowCMatches(f);
      case 13 => RowDMatches(f);
      case 14 => RowEMatches(f);
      case 15 => RowFMatches(f);
    }
  }

  lemma TableEntry(n: nat)
    requires n < 256
    ensures CrcTab(n) == Octet(n)
  {
    var f := (k: nat) => Octet(k);
    TableMatches(n / 16, f);
    RowEntry(CrcRow(n / 16), f, 16 * (n / 16), n % 16);
  }

  lemma TableEntryOf(i: byte)
    ensures CrcTab(i as int) == Shift8(i as bv16)
  {
    TableEntry(i as int);
    WidenOctet(i, i as int);
  }

  lemma WidenOctet(i: byte, n: nat)
    requires n == i as int
    ensures n as bv16 == i as bv16
  {
    assert i == n as bv8;
    Widen(n);
  }

  lemma Widen(n: nat)
    requires n < 256
    ensures n as bv16 == n as bv8 as bv16
  {
  }

  lemma LowOctet(x: bv16)
    ensures (x & 0xFF) as byte as bv16 == x & 0xFF
  {
  }

  /** The register is linear, and only shifts what lies in its high half. */
  lemma Shift8Splits(x: bv16)
    ensures Shift8(x) == ((x >> 8) & 0xFF) ^ Shift8(x & 0xFF)
  {
    hide Shift8;
    var h, l := x & 0xFF00, x & 0xFF;
    Shift8Plus(h, l);
    Shift8High(h);
    Halved(x);
  }

  lemma Halved(x: bv16)
    ensures Plus(x & 0xFF00, x & 0xFF) == x && (x & 0xFF00) >> 8 == (x >> 8) & 0xFF && (x & 0xFF00) & 0xFF == 0
  {
  }

  lemma Shift8High(h: bv16)
    requires h & 0xFF == 0
    ensures Shift8(h) == h >> 8
  {
  }

  /** Addition of registers. */
  function Plus(x: bv16, y: bv16): bv16 {
    x ^ y
  }

  lemma ShiftPlus(x: bv16, y: bv16)
    ensures Shift(Plus(x, y)) == Plus(Shift(x), Shift(y))
  {
    hide Shift;
    ShiftXor(x, y);
  }

  lemma Shift8Plus(x: bv16, y: bv16)
    ensures Shift8(Plus(x, y)) == Plus(Shift8(x), Shift8(y))
  {
    hide Shift, Plus;
    var x1, y1 := Shift(x), Shift(y);
    var x2, y2 := Shift(x1), Shift(y1);
    var x3, y3 := Shift(x2), Shift(y2);
    var x4, y4 := Shift(x3), Shift(y3);
    var x5, y5 := Shift(x4), Shift(y4);
    var x6, y6 := Shift(x5), Shift(y5);
    var x7, y7 := Shift(x6), Shift(y6);
    ShiftPlus(x, y);
    ShiftPlus(x1, y1);
    ShiftPlus(x2, y2);
    ShiftPlus(x3, y3);
    ShiftPlus(x4, y4);
    ShiftPlus(x5, y5);
    ShiftPlus(x6, y6);
    ShiftPlus(x7, y7);
  }

  /** What the loop body of csum_crc_compute does to the register. */
  lemma TableStep(v: bv16, b: byte)
    ensures TableUpdate(v, b) == Update(v, b)
  {
    hide CrcTab, Shift8;
    var i := ((v ^ (b as bv16)) & 0xFF) as byte;
    TableEntryOf(i);
    CombineOctets(v, b, i, CrcTab(i as int));
  }

  lemma CombineOctets(v: bv16, b: byte, i: byte, entry: bv16)
    requires i == ((v ^ (b as bv16)) & 0xFF) as byte && entry == Shift8(i as bv16)
    ensures ((v >> 8) & 0xFF) ^ entry == Update(v, b)
  {
    hide *;
    var x := v ^ (b as bv16);
    UpdateIs(v, b, x);
    LowOctet(x);
    Shift8Splits(x);
    HighOctet(v, b);
  }

  lemma UpdateIs(v: bv16, b: byte, x: bv16)
    requires x == v ^ (b as bv16)
    ensures Update(v, b) == Shift8(x)
  {
  }

  lemma HighOctet(v: bv16, b: byte)
    ensures (v ^ (b as bv16)) >> 8 == v >> 8
  {
  }

  /** One step, when the bits still to come are xored in beforehand. */
  lemma FeedNext(v: bv16, y: bv16)
    requires y < 0x100
    ensures FeedBit(v, y & 1 != 0) ^ (y >> 1) == Shift(v ^ y)
  {
  }

  /** s are the low bits of y, and y has no others. */
  ghost predicate LowBits(s: seq<bool>, y: bv16)
    decreases s
  {
    if s == [] then y == 0 else s[0] == (y & 1 != 0) && LowBits(s[1..], y >> 1)
  }

  function Shifts(n: nat, v: bv16): bv16 {
    if n == 0 then v else Shifts(n - 1, Shift(v))
  }

  lemma {:induction false} FeedLowBits(v: bv16, s: seq<bool>, y: bv16)
    requires y < 0x100 && LowBits(s, y)
    ensures Fold(FeedBit, v, s) == Shifts(|s|, v ^ y)
    decreases s
  {
    hide Shift, FeedBit;
    if s != [] {
      FeedNext(v, y);
      FeedLowBits(FeedBit(v, s[0]), s[1..], y >> 1);
    }
  }

  lemma FeedBits(v: bv16, b: byte)
    ensures Fold(FeedBit, v, Bits(b)) == Update(v, b)
  {
    hide Shift8, FeedBit, Bits;
    BitsAreLow(b);
    var y := b as bv16;
    assert y < 0x100;
    FeedLowBits(v, Bits(b), y);
    EightShifts(v ^ y);
  }

  lemma EightShifts(x: bv16)
    ensures Shifts(8, x) == Shift8(x)
  {
    hide Shift;
    var x1 := Shift(x);
    var x2 := Shift(x1);
    var x3 := Shift(x2);
    var x4 := Shift(x3);
    var x5 := Shift(x4);
    var x6 := Shift(x5);
    var x7 := Shift(x6);
    assert Shifts(8, x) == Shifts(7, x1) == Shifts(6, x2) == Shifts(5, x3);
    assert Shifts(5, x3) == Shifts(4, x4) == Shifts(3, x5) == Shifts(2, x6);
    assert Shifts(2, x6) == Shifts(1, x7) == Shifts(0, Shift(x7));
  }

  lemma BitsAreLow(b: byte)
    ensures LowBits(Bits(b), b as bv16) && |Bits(b)| == 8
  {
    var s, y := Bits(b), b as bv16;
    BitsOf(b);
    assert LowBits(s[8..], y >> 8);
    assert s[7..][1..] == s[8..] && (y >> 7) >> 1 == y >> 8;
    assert LowBits(s[7..], y >> 7);
    assert s[6..][1..] == s[7..] && (y >> 6) >> 1 == y >> 7;
    assert LowBits(s[6..], y >> 6);
    assert s[5..][1..] == s[6..] && (y >> 5) >> 1 == y >> 6;
    assert LowBits(s[5..], y >> 5);
    assert s[4..][1..] == s[5..] && (y >> 4) >> 1 == y >> 5;
    assert LowBits(s[4..], y >> 4);
    assert s[3..][1..] == s[4..] && (y >> 3) >> 1 == y >> 4;
    assert LowBits(s[3..], y >> 3);
    assert s[2..][1..] == s[3..] && (y >> 2) >> 1 == y >> 3;
    assert LowBits(s[2..], y >> 2);
    assert s[1..][1..] == s[2..] && (y >> 1) >> 1 == y >> 2;
    assert LowBits(s[1..], y >> 1);
  }

  lemma BitsOf(b: byte)
    ensures var y, s := b as bv16, Bits(b);
            && s[0] == (y & 1 != 0) && s[1] == ((y >> 1) & 1 != 0)
            && s[2] == ((y >> 2) & 1 != 0) && s[3] == ((y >> 3) & 1 != 0)
            && s[4] == ((y >> 4) & 1 != 0) && s[5] == ((y >> 5) & 1 != 0)
            && s[6] == ((y >> 6) & 1 != 0) && s[7] == ((y >> 7) & 1 != 0)
            && y >> 8 == 0 && y < 0x100
  {
  }

  /** The table algorithm and the octet-wise register both are the bit-serial division of ISO 3309. */
  lemma {:induction false} CrcIsDivision(v: bv16, data: seq<byte>)
    ensures Fold(TableUpdate, v, data) == Fold(FeedBit, v, Message(data))
    ensures Fold(Update, v, data) == Fold(FeedBit, v, Message(data))
    decreases data
  {
    hide TableUpdate, Update, FeedBit;
    if data != [] {
      TableStep(v, data[0]);
      FeedBits(v, data[0]);
      CrcIsDivision(Update(v, data[0]), data[1..]);
      FoldConcat(FeedBit, v, Bits(data[0]), Message(data[1..]));
    }
  }

  // ---- what the CRC detects ---------------------------------------------------

  /** One step of the register backwards. */
  function Unshift(v: bv16): bv16 {
    if v & 0x8000 != 0 then ((v ^ 0x8408) << 1) | 1 else v << 1
  }

  function Unshift8(v: bv16): bv16 {
    Unshift(Unshift(Unshift(Unshift(Unshift(Unshift(Unshift(Unshift(v))))))))
  }

  /** Every octet acts on the register as a bijection, with an explicit inverse. */
  lemma UpdateBijective(v: bv16, b: byte)
    ensures Unshift8(Update(v, b)) ^ (b as bv16) == v
    ensures Update(Unshift8(v) ^ (b as bv16), b) == v
  {
    ShiftInverse(v);
    ShiftInverse8(v ^ (b as bv16));
    ShiftInverse8(v);
  }

  lemma ShiftInverse(v: bv16)
    ensures Unshift(Shift(v)) == v && Shift(Unshift(v)) == v
  {
    UnshiftInverse(v);
  }

  lemma UnshiftInverse(v: bv16)
    ensures Shift(Unshift(v)) == v
  {
    var u := Unshift(v);
    if v & 0x8000 != 0 {
      assert u & 1 == 1;
    } else {
      assert u & 1 == 0;
    }
  }

  lemma ShiftInverse8(v: bv16)
    ensures Unshift8(Shift8(v)) == v && Shift8(Unshift8(v)) == v
  {
    ShiftInverse4(v);
    ShiftInverse4(Shift(Shift(Shift(Shift(v)))));
    ShiftInverse4(Unshift(Unshift(Unshift(Unshift(v)))));
  }

  lemma ShiftInverse4(v: bv16)
    ensures Unshift(Unshift(Unshift(Unshift(Shift(Shift(Shift(Shift(v)))))))) == v
    ensures Shift(Shift(Shift(Shift(Unshift(Unshift(Unshift(Unshift(v)))))))) == v
  {
    ShiftInverse(v);
    ShiftInverse(Shift(v));
    ShiftInverse(Shift(Shift(v)));
    ShiftInverse(Shift(Shift(Shift(v))));
    ShiftInverse(Unshift(v));
    ShiftInverse(Unshift(Unshift(v)));
    ShiftInverse(Unshift(Unshift(Unshift(v))));
  }

  lemma FeedBitInjective()
    ensures StepInjective(FeedBit)
  {
    hide Shift;
    forall v, w, b | FeedBit(v, b) == FeedBit(w, b)
      ensures v == w
    {
      ShiftInjective(v, w, if b then 1 else 0);
    }
  }

  lemma ShiftInjective(v: bv16, w: bv16, y: bv16)
    requires Shift(v ^ y) == Shift(w ^ y)
    ensures v == w
  {
    ShiftInverse(v ^ y);
    ShiftInverse(w ^ y);
    assert v ^ y == w ^ y;
  }

  /** t can be halved n times without reaching zero. */
  ghost predicate Halves(t: bv16, n: nat) {
    t >= 1 && (n == 0 || (t & 1 == 0 && Halves(t >> 1, n - 1)))
  }

  lemma TopHalves(n: nat)
    requires n <= 15
    ensures Halves(0x8000, n)
  {
    assert forall k: nat | k <= 3 :: Halves(8, k) by {
      assert forall k: nat | k <= 1 :: Halves(2, k);
      assert forall k: nat | k <= 2 :: Halves(4, k);
    }
    assert forall k: nat | k <= 6 :: Halves(0x40, k) by {
      assert forall k: nat | k <= 4 :: Halves(0x10, k);
      assert forall k: nat | k <= 5 :: Halves(0x20, k);
    }
    assert forall k: nat | k <= 9 :: Halves(0x200, k) by {
      assert forall k: nat | k <= 7 :: Halves(0x80, k);
      assert forall k: nat | k <= 8 :: Halves(0x100, k);
    }
    assert forall k: nat | k <= 12 :: Halves(0x1000, k) by {
      assert forall k: nat | k <= 10 :: Halves(0x400, k);
      assert forall k: nat | k <= 11 :: Halves(0x800, k);
    }
    assert forall k: nat | k <= 13 :: Halves(0x2000, k);
    assert forall k: nat | k <= 14 :: Halves(0x4000, k);
  }

  /** The difference of two registers sinks by at most one bit per step. */
  lemma DifferenceStep(x: bv16, y: bv16, b: bool, c: bool, t: bv16)
    requires Reaches(x ^ y, t) && t & 1 == 0
    ensures Reaches(FeedBit(x, b) ^ FeedBit(y, c), t >> 1)
  {
    hide *;
    var p: bv16 := if b then 1 else 0;
    var q: bv16 := if c then 1 else 0;
    FeedBitIs(x, b, p);
    FeedBitIs(y, c, q);
    LowBitIrrelevant(x, y, p, q, t);
    var x1, y1 := x ^ p, y ^ q;
    ShiftSinks(x1 ^ y1, t);
    ShiftXor(x1, y1);
  }

  lemma FeedBitIs(x: bv16, b: bool, p: bv16)
    requires p == if b then 1 else 0
    ensures FeedBit(x, b) == Shift(x ^ p)
  {
  }

  /** d reaches the nonzero threshold t. */
  ghost predicate Reaches(d: bv16, t: bv16) {
    d >= t && t >= 1
  }

  lemma LowBitIrrelevant(x: bv16, y: bv16, p: bv16, q: bv16, t: bv16)
    requires Reaches(x ^ y, t) && t & 1 == 0 && p <= 1 && q <= 1
    ensures Reaches((x ^ p) ^ (y ^ q), t)
  {
  }

  lemma ShiftXor(x: bv16, y: bv16)
    ensures Shift(x) ^ Shift(y) == Shift(x ^ y)
  {
    hide Shift;
    if x & 1 == 1 {
      if y & 1 == 1 {
        ShiftXorOddOdd(x, y);
      } else {
        ShiftXorOddEven(x, y);
      }
    } else if y & 1 == 1 {
      ShiftXorEvenOdd(x, y);
    } else {
      ShiftXorEvenEven(x, y);
    }
  }

  lemma ShiftXorOddOdd(x: bv16, y: bv16)
    requires x & 1 == 1 && y & 1 == 1
    ensures Shift(x) ^ Shift(y) == Shift(x ^ y)
  {
    assert (x ^ y) & 1 == 0;
  }

  lemma ShiftXorOddEven(x: bv16, y: bv16)
    requires x & 1 == 1 && y & 1 != 1
    ensures Shift(x) ^ Shift(y) == Shift(x ^ y)
  {
    assert (x ^ y) & 1 == 1;
  }

  lemma ShiftXorEvenOdd(x: bv16, y: bv16)
    requires x & 1 != 1 && y & 1 == 1
    ensures Shift(x) ^ Shift(y) == Shift(x ^ y)
  {
    assert (x ^ y) & 1 == 1;
  }

  lemma ShiftXorEvenEven(x: bv16, y: bv16)
    requires x & 1 != 1 && y & 1 != 1
    ensures Shift(x) ^ Shift(y) == Shift(x ^ y)
  {
    assert (x ^ y) & 1 == 0;
  }

  lemma ShiftSinks(d: bv16, t: bv16)
    requires Reaches(d, t) && t & 1 == 0
    ensures Reaches(Shift(d), t >> 1)
  {
  }

  lemma {:induction false} DifferenceSurvives(x: bv16, y: bv16, s: seq<bool>, s': seq<bool>, t: bv16)
    requires |s| == |s'| && Reaches(x ^ y, t) && Halves(t, |s|)
    ensures Fold(FeedBit, x, s) != Fold(FeedBit, y, s')
    decreases s
  {
    hide FeedBit, Reaches;
    if s == [] {
      DifferenceOfEqual(x, y, t);
    } else {
      DifferenceStep(x, y, s[0], s'[0], t);
      DifferenceSurvives(FeedBit(x, s[0]), FeedBit(y, s'[0]), s[1..], s'[1..], t >> 1);
    }
  }

  lemma DifferenceOfEqual(x: bv16, y: bv16, t: bv16)
    requires Reaches(x ^ y, t)
    ensures x != y
  {
  }

  lemma {:induction false} BurstInjective(v: bv16, w: seq<bool>, w': seq<bool>)
    requires |w| == |w'| <= 16 && w != w'
    ensures Fold(FeedBit, v, w) != Fold(FeedBit, v, w')
    decreases w
  {
    hide FeedBit, Reaches;
    if w[0] == w'[0] {
      assert w == [w[0]] + w[1..] && w' == [w'[0]] + w'[1..];
      BurstInjective(FeedBit(v, w[0]), w[1..], w'[1..]);
    } else {
      TopHalves(|w| - 1);
      FirstDifference(v);
      DifferenceSurvives(FeedBit(v, w[0]), FeedBit(v, w'[0]), w[1..], w'[1..], 0x8000);
    }
  }

  lemma FirstDifference(v: bv16)
    ensures Reaches(FeedBit(v, true) ^ FeedBit(v, false), 0x8000)
    ensures Reaches(FeedBit(v, false) ^ FeedBit(v, true), 0x8000)
  {
  }

  /** Any burst of at most sixteen bits changes the remainder. */
  lemma CrcDetectsBursts(p: seq<bool>, w: seq<bool>, w': seq<bool>, s: seq<bool>)
    requires |w| == |w'| <= 16 && w != w'
    ensures Division(p + w + s) != Division(p + w' + s)
  {
    hide FeedBit;
    var v := Division(p);
    FoldConcat(FeedBit, 0xFFFF, p + w, s);
    FoldConcat(FeedBit, 0xFFFF, p + w', s);
    FoldConcat(FeedBit, 0xFFFF, p, w);
    FoldConcat(FeedBit, 0xFFFF, p, w');
    BurstInjective(v, w, w');
    if Division(p + w + s) == Division(p + w' + s) {
      FeedBitInjective();
      FoldInjective(FeedBit, Fold(FeedBit, v, w), Fold(FeedBit, v, w'), s);
    }
  }

  lemma {:induction false} MessageConcat(a: seq<byte>, b: seq<byte>)
    ensures Message(a + b) == Message(a) + Message(b)
  {
    if a == [] {
      assert a + b == b;
    } else {
      assert (a + b)[1..] == a[1..] + b;
      MessageConcat(a[1..], b);
    }
  }

  lemma BitsInjective(a: byte, b: byte)
    requires Bits(a) == Bits(b)
    ensures a == b
  {
    var s, t := Bits(a), Bits(b);
    assert s[0] == t[0] && s[1] == t[1] && s[2] == t[2] && s[3] == t[3];
    assert s[4] == t[4] && s[5] == t[5] && s[6] == t[6] && s[7] == t[7];
  }

  /** Two messages that differ only in two adjacent octets have different remainders. */
  lemma CrcDetectsTwoOctets(p: seq<byte>, a: byte, b: byte, a': byte, b': byte, s: seq<byte>)
    requires a != a' || b != b'
    ensures Division(Message(p + [a, b] + s)) != Division(Message(p + [a', b'] + s))
  {
    var w, w' := Message([a, b]), Message([a', b']);
    MessageOfTwo(a, b);
    MessageOfTwo(a', b');
    if w == w' {
      BitsOfTwoInjective(a, b, a', b');
    }
    MessageConcat(p, [a, b]);
    MessageConcat(p, [a', b']);
    MessageConcat(p + [a, b], s);
    MessageConcat(p + [a', b'], s);
    CrcDetectsBursts(Message(p), w, w', Message(s));
  }

  lemma BitsOfTwoInjective(a: byte, b: byte, a': byte, b': byte)
    requires Bits(a) + Bits(b) == Bits(a') + Bits(b')
    ensures a == a' && b == b'
  {
    var w := Bits(a) + Bits(b);
    assert w[..8] == Bits(a) == Bits(a') && w[8..] == Bits(b) == Bits(b');
    BitsInjective(a, a');
    BitsInjective(b, b');
  }

  lemma MessageOfTwo(a: byte, b: byte)
    ensures Message([a, b]) == Bits(a) + Bits(b)
  {
    assert [a, b][1..] == [b] && Message([b]) == Bits(b) + Message([]);
  }

  lemma CrcOctetsInjective(v: bv16, w: bv16)
    requires CrcOctets(v) == CrcOctets(w)
    ensures v == w
  {
    assert CrcOctets(v)[0] == CrcOctets(w)[0] && CrcOctets(v)[1] == CrcOctets(w)[1];
  }

  // ---- the code in use on a T=1 link --------------------------------------------

  datatype Kind = LRC | CRC

  function RcBytes(kind: Kind): nat {
    match kind case LRC => 1 case CRC => 2
  }

  /** The check octets of a block body. */
  function Edc(kind: Kind, body: seq<byte>): (rc: seq<byte>)
    ensures |rc| == RcBytes(kind)
  {
    match kind
    case LRC => [Lrc(body)]
    case CRC => CrcOctets(Division(Message(body)))
  }

  /** t1_verify_checksum. */
  predicate Verifies(kind: Kind, block: seq<byte>) {
    var m := |block| - RcBytes(kind);
    m >= 0 && block[m..] == Edc(kind, block[..m])
  }

  lemma ChecksummedBlockVerifies(kind: Kind, body: seq<byte>)
    ensures Verifies(kind, body + Edc(kind, body))
  {
    var block := body + Edc(kind, body);
    assert block[..|body|] == body;
  }

  /** A CRC block with up to two adjacent body octets altered is rejected. */
  lemma AlteredCrcBlockRejected(body: seq<byte>, i: nat, a: byte, b: byte)
    requires i + 1 < |body|
    requires a != body[i] || b != body[i + 1]
    ensures !Verifies(CRC, body[i := a][i + 1 := b] + Edc(CRC, body))
  {
    var p, s := body[..i], body[i + 2..];
    var altered := body[i := a][i + 1 := b];
    assert body == p + [body[i], body[i + 1]] + s;
    assert altered == p + [a, b] + s;
    CrcDetectsTwoOctets(p, body[i], body[i + 1], a, b, s);
    var block := altered + Edc(CRC, body);
    assert block[..|body|] == altered && block[|body|..] == Edc(CRC, body);
    if Verifies(CRC, block) {
      CrcOctetsInjective(Division(Message(body)), Division(Message(altered)));
    }
  }

  /** An LRC block with a single altered body octet is rejected. */
  lemma AlteredLrcBlockRejected(body: seq<byte>, i: nat, a: byte)
    requires i < |body| && a != body[i]
    ensures !Verifies(LRC, body[i := a] + Edc(LRC, body))
  {
    LrcOfUpdate(body, i, a);
    XorDiffers(Lrc(body), body[i], a);
    var block := body[i := a] + Edc(LRC, body);
    assert block[..|body|] == body[i := a] && block[|body|..] == Edc(LRC, body);
    assert Edc(LRC, body)[0] != Edc(LRC, body[i := a])[0];
  }

  /** The two changes x -> a and y -> b cancel in an exclusive-or. */
  ghost predicate Cancel(x: byte, a: byte, y: byte, b: byte) {
    Xor(x, a) == Xor(y, b)
  }

  /** The LRC, unlike the CRC, lets some pairs of changes through, wherever they are: exactly those
      whose exclusive-ors cancel. */
  lemma LrcMissesCancellingPair(body: seq<byte>, i: nat, j: nat, a: byte, b: byte)
    requires i < j < |body|
    ensures Verifies(LRC, body[i := a][j := b] + Edc(LRC, body)) <==> Cancel(body[i], a, body[j], b)
  {
    var altered := body[i := a][j := b];
    LrcOfTwoUpdates(body, i, j, a, b, Lrc(altered));
    var block := altered + Edc(LRC, body);
    assert block[..|body|] == altered && block[|body|..] == Edc(LRC, body);
    assert Verifies(LRC, block) <==> Edc(LRC, body)[0] == Edc(LRC, altered)[0];
  }

  lemma LrcOfTwoUpdates(body: seq<byte>, i: nat, j: nat, a: byte, b: byte, l: byte)
    requires i < j < |body| && l == Lrc(body[i := a][j := b])
    ensures l == Lrc(body) <==> Cancel(body[i], a, body[j], b)
  {
    hide *;
    var one := body[i := a];
    LrcOfUpdate(body, i, a);
    LrcOfUpdate(one, j, b);
    assert one[j] == body[j];
    XorCancels(Lrc(body), Lrc(one), l, body[i], a, body[j], b);
  }
}
