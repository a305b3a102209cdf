/** Verified writes to synchronous memory cards (proto-sync.c:41-94): at most one 256-octet page at a
    time, each read back and compared, with a few retries for the whole write. */
module SyncMemory {
  import opened Bytes

  const SPACE := 65536
  const I2C_SHORT := 18
  const I2C_LONG := 19

  /** What the card makes of one write: it stores the octets, or the given ones instead in the first
      cells, or the driver reports an error after doing the latter. */
  datatype Reaction = Proper | Faulty(cells: seq<byte>) | Refused(cells: seq<byte>, code: int)

  datatype Verdict = Verified | Mismatch | Error

  /** One write of the driver and how it came out. */
  datatype Attempt = Attempt(addr: nat, count: nat, verdict: Verdict)

  datatype Memory = Memory(cells: seq<byte>, reactions: seq<Reaction>, log: seq<Attempt>) {
    predicate Valid() {
      |cells| == SPACE && forall r :: r in reactions && r.Refused? ==> r.code < 0
    }
  }

  datatype Outcome = Done | VerifyFailed | DriverError(code: int)

  /** The cells from addr on with the octets in front of the others. */
  function Overlay(cells: seq<byte>, addr: nat, octets: seq<byte>): (r: seq<byte>)
    requires addr + |octets| <= |cells|
    ensures |r| == |cells|
    ensures forall c :: 0 <= c < |r| ==> r[c] == if addr <= c < addr + |octets| then octets[c - addr] else cells[c]
  {
    cells[..addr] + octets + cells[addr + |octets|..]
  }

  function Reaction0(m: Memory): Reaction {
    if m.reactions == [] then Proper else m.reactions[0]
  }

  /** The cells after a write of data at addr. */
  function Struck(m: Memory, addr: nat, data: seq<byte>): (cells: seq<byte>)
    requires m.Valid() && addr + |data| <= SPACE
    ensures |cells| == SPACE
    ensures forall c :: 0 <= c < SPACE && !(addr <= c < addr + |data|) ==> cells[c] == m.cells[c]
  {
    var r := Reaction0(m);
    var stored := if r.Proper? then data else r.cells[..Min(|r.cells|, |data|)];
    Overlay(m.cells, addr, stored)
  }

  /** The octets that one pass of the loop writes: none beyond the page of addr. */
  function PieceSize(addr: nat, left: nat): (n: nat)
    requires left > 0
    ensures 0 < n <= left && n <= 256
  {
    Min(256 - addr % 256, left)
  }

  /** A write of the driver followed by reading back. */
  function Tried(m: Memory, addr: nat, piece: seq<byte>): (r: (Memory, Verdict))
    requires m.Valid() && addr + |piece| <= SPACE
    ensures r.0.Valid()
  {
    var cells := Struck(m, addr, piece);
    var v := if Reaction0(m).Refused? then Error
             else if cells[addr..addr + |piece|] == piece then Verified else Mismatch;
    (Memory(cells, if m.reactions == [] then [] else m.reactions[1..], m.log + [Attempt(addr, |piece|, v)]), v)
  }

  lemma TriedIs(m: Memory, addr: nat, piece: seq<byte>)
    requires m.Valid() && addr + |piece| <= SPACE
    ensures var (m1, v) := Tried(m, addr, piece);
            && m1.log == m.log + [Attempt(addr, |piece|, v)]
            && m1.reactions == (if m.reactions == [] then [] else m.reactions[1..])
            && (v == Error <==> Reaction0(m).Refused?)
            && (v == Verified ==> m1.cells[addr..addr + |piece|] == piece)
            && (forall c :: 0 <= c < SPACE && !(addr <= c < addr + |piece|) ==> m1.cells[c] == m.cells[c])
  {
  }

  lemma PieceInSpace(addr: nat, left: nat)
    requires addr < SPACE && left > 0
    ensures addr + PieceSize(addr, left) <= SPACE
    ensures addr / 256 == (addr + PieceSize(addr, left) - 1) / 256
  {
  }

  /** The loop of sync_write; the address is an unsigned short. */
  function Written(m: Memory, addr: nat, data: seq<byte>, retries: nat): (r: (Memory, Outcome))
    requires m.Valid() && addr < SPACE
    ensures r.0.Valid()
    decreases |data|, retries
  {
    if data == [] then (m, Done)
    else
      var count := PieceSize(addr, |data|);
      PieceInSpace(addr, |data|);
      var (m1, v) := Tried(m, addr, data[..count]);
      match v
      case Error => (m1, DriverError(Reaction0(m).code))
      case Mismatch => if retries > 0 then Written(m1, addr, data, retries - 1) else (m1, VerifyFailed)
      case Verified => Written(m1, (addr + count) % SPACE, data[count..], retries)
  }

  // ---- what a result of 0 means ---------------------------------------------------------------

  /** How far cell c lies behind addr, the address space being a ring. */
  function Offset(addr: nat, c: nat): (n: nat)
    requires addr < SPACE && c < SPACE
    ensures n < SPACE
  {
    if c >= addr then c - addr else c - addr + SPACE
  }

  ghost predicate Outside(m: Memory, m': Memory, addr: nat, n: nat)
    requires m.Valid() && m'.Valid() && addr < SPACE
  {
    forall c :: 0 <= c < SPACE && Offset(addr, c) >= n ==> m'.cells[c] == m.cells[c]
  }

  /** Whatever the card does, only cells of the range change. If the result is Done, the range holds
      the data; this is so even when the range wraps around the end of the address space. */
  lemma {:induction false} WriteIsVerified(m: Memory, addr: nat, data: seq<byte>, retries: nat)
    requires m.Valid() && addr < SPACE && |data| <= SPACE
    ensures var (m', r) := Written(m, addr, data, retries);
            && Outside(m, m', addr, |data|)
            && (r.Done? ==> forall c :: 0 <= c < SPACE && Offset(addr, c) < |data| ==> m'.cells[c] == data[Offset(addr, c)])
    decreases |data|, retries
  {
    hide Tried, PieceSize;
    if data != [] {
      var count := PieceSize(addr, |data|);
      PieceInSpace(addr, |data|);
      TriedIs(m, addr, data[..count]);
      var (m1, v) := Tried(m, addr, data[..count]);
      assert Outside(m, m1, addr, |data|);
      match v
      case Error =>
      case Mismatch =>
        if retries > 0 {
          WriteIsVerified(m1, addr, data, retries - 1);
        }
      case Verified =>
        var next := (addr + count) % SPACE;
        WriteIsVerified(m1, next, data[count..], retries);
        var m' := Written(m1, next, data[count..], retries).0;
        VerifiedPiece(m1, m', addr, data, count);
    }
  }

  /** A verified piece stays as it is while the rest is written. */
  lemma VerifiedPiece(m1: Memory, m': Memory, addr: nat, data: seq<byte>, count: nat)
    requires m1.Valid() && m'.Valid() && addr < SPACE && |data| <= SPACE
    requires 0 < count <= |data| && addr + count <= SPACE && m1.cells[addr..addr + count] == data[..count]
    requires Outside(m1, m', (addr + count) % SPACE, |data| - count)
    ensures Outside(m1, m', addr, |data|)
    ensures forall c :: 0 <= c < SPACE && Offset(addr, c) < count ==> m'.cells[c] == data[Offset(addr, c)]
    ensures forall c :: 0 <= c < SPACE && Offset(addr, c) >= count ==>
              Offset((addr + count) % SPACE, c) == Offset(addr, c) - count
  {
    forall c | 0 <= c < SPACE && Offset(addr, c) < count
      ensures m'.cells[c] == data[Offset(addr, c)]
    {
      assert Offset((addr + count) % SPACE, c) >= |data| - count;
      assert m1.cells[c] == m1.cells[addr..addr + count][c - addr] == data[..count][c - addr];
    }
  }

  // ---- what the driver is asked to do ---------------------------------------------------------

  /** The write lies inside one page and inside the range. */
  ghost predicate Confined(a: Attempt, addr: nat, n: nat)
    requires addr < SPACE
  {
    && a.addr < SPACE && a.count >= 1
    && a.addr / 256 == (a.addr + a.count - 1) / 256
    && Offset(addr, a.addr) + a.count <= n
  }

  function Count(log: seq<Attempt>, v: Verdict): nat {
    if log == [] then 0 else Count(log[1..], v) + if log[0].verdict == v then 1 else 0
  }

  /** The number of pages that n octets from addr on touch. */
  function Pages(addr: nat, n: nat): nat {
    if n == 0 then 0 else (addr % 256 + n - 1) / 256 + 1
  }

  /** The attempts of a whole write, none of them logged before. */
  function Attempts(m: Memory, addr: nat, data: seq<byte>, retries: nat): seq<Attempt>
    requires m.Valid() && addr < SPACE
    decreases |data|, retries
  {
    if data == [] then []
    else
      var count := PieceSize(addr, |data|);
      PieceInSpace(addr, |data|);
      var (m1, v) := Tried(m, addr, data[..count]);
      [Attempt(addr, count, v)] + (
        match v
        case Error => []
        case Mismatch => if retries > 0 then Attempts(m1, addr, data, retries - 1) else []
        case Verified => Attempts(m1, (addr + count) % SPACE, data[count..], retries)
      )
  }

  lemma {:induction false} AttemptsAreLogged(m: Memory, addr: nat, data: seq<byte>, retries: nat)
    requires m.Valid() && addr < SPACE
    ensures Written(m, addr, data, retries).0.log == m.log + Attempts(m, addr, data, retries)
    decreases |data|, retries
  {
    hide Tried, PieceSize;
    if data != [] {
      var count := PieceSize(addr, |data|);
      PieceInSpace(addr, |data|);
      TriedIs(m, addr, data[..count]);
      var (m1, v) := Tried(m, addr, data[..count]);
      if v == Mismatch && retries > 0 {
        AttemptsAreLogged(m1, addr, data, retries - 1);
        JoinThree(m.log, [Attempt(addr, count, v)], Attempts(m1, addr, data, retries - 1));
      } else if v == Verified {
        AttemptsAreLogged(m1, (addr + count) % SPACE, data[count..], retries);
        JoinThree(m.log, [Attempt(addr, count, v)], Attempts(m1, (addr + count) % SPACE, data[count..], retries));
      }
    }
  }

  lemma NoPages(addr: nat)
    ensures Pages(addr, 0) == 0
  {
  }

  lemma PagesNext(addr: nat, n: nat)
    requires addr < SPACE && n > 0
    ensures var count := PieceSize(addr, n);
            Pages(addr, n) == 1 + Pages((addr + count) % SPACE, n - count)
  {
    var count := PieceSize(addr, n);
    if n > count {
      assert (addr + count) % 256 == 0;
      assert (addr + count) % SPACE % 256 == 0;
      assert addr % 256 + n - 1 == (n - count - 1) + 256;
    } else {
      assert addr % 256 + n - 1 < 256;
    }
  }

  /** Every write of the driver stays in one page of the range. There are at most as many writes as
      pages and retries; the result is Done exactly when no write reported an error and at most
      `retries` failed to verify, and then every page was verified once. */
  lemma {:induction false} RetriesBounded(m: Memory, addr: nat, data: seq<byte>, retries: nat)
    requires m.Valid() && addr < SPACE && |data| <= SPACE
    ensures var log := Attempts(m, addr, data, retries); var r := Written(m, addr, data, retries).1;
            && (forall a :: a in log ==> Confined(a, addr, |data|))
            && |log| <= Pages(addr, |data|) + retries
            && (r.Done? <==> Count(log, Error) == 0 && Count(log, Mismatch) <= retries)
            && (r.Done? ==> Count(log, Verified) == Pages(addr, |data|))
    decreases |data|, retries
  {
    hide Tried, Pages, PieceSize, Confined;
    NoPages(addr);
    if data == [] {
      return;
    }
    var count := PieceSize(addr, |data|);
    PieceInSpace(addr, |data|);
    PagesNext(addr, |data|);
    TriedIs(m, addr, data[..count]);
    FirstConfined(addr, |data|);
    var (m1, v) := Tried(m, addr, data[..count]);
    var log := Attempts(m, addr, data, retries);
    assert log[0] == Attempt(addr, count, v);
    match v
    case Error =>
    case Mismatch =>
      if retries > 0 {
        RetriesBounded(m1, addr, data, retries - 1);
        assert log[1..] == Attempts(m1, addr, data, retries - 1);
      }
    case Verified =>
      var next := (addr + count) % SPACE;
      RetriesBounded(m1, next, data[count..], retries);
      var rest := Attempts(m1, next, data[count..], retries);
      assert log[1..] == rest;
      forall a | a in rest
        ensures Confined(a, addr, |data|)
      {
        FurtherOn(a, addr, next, count, |data|);
      }
  }

  /** The attempts that a whole write adds to the log. */
  lemma TriesAre(m: Memory, addr: nat, data: seq<byte>, retries: nat)
    requires m.Valid() && addr < SPACE
    ensures var (m', r) := Written(m, addr, data, retries);
            && |m'.log| >= |m.log|
            && (|data| <= SPACE ==>
                  var tries := m'.log[|m.log|..];
                  && (r.Done? <==> Count(tries, Error) == 0 && Count(tries, Mismatch) <= retries)
                  && |tries| <= Pages(addr, |data|) + retries)
  {
    hide Written, Attempts, Count, Pages;
    AttemptsAreLogged(m, addr, data, retries);
    if |data| <= SPACE {
      RetriesBounded(m, addr, data, retries);
    }
  }

  lemma FirstConfined(addr: nat, n: nat)
    requires addr < SPACE && n > 0
    ensures forall v :: Confined(Attempt(addr, PieceSize(addr, n), v), addr, n)
  {
    PieceInSpace(addr, n);
  }

  lemma FurtherOn(a: Attempt, addr: nat, next: nat, count: nat, n: nat)
    requires addr < SPACE && 0 < count <= n <= SPACE && addr + count <= SPACE && next == (addr + count) % SPACE
    requires Confined(a, next, n - count)
    ensures Confined(a, addr, n)
  {
  }

  /** A card that misbehaves at most `retries` times, and never with an error, is written. */
  lemma {:induction false} FewFaultsTolerated(m: Memory, addr: nat, data: seq<byte>, retries: nat)
    requires m.Valid() && addr < SPACE && FaultsOnly(m.reactions) <= retries
    requires forall r :: r in m.reactions ==> !r.Refused?
    ensures Written(m, addr, data, retries).1 == Done
    decreases |data|, retries
  {
    hide Tried, PieceSize;
    if data != [] {
      var count := PieceSize(addr, |data|);
      PieceInSpace(addr, |data|);
      TriedIs(m, addr, data[..count]);
      var (m1, v) := Tried(m, addr, data[..count]);
      if Reaction0(m).Proper? {
        ProperIsVerified(m, addr, data[..count]);
      }
      if v == Verified {
        FewFaultsTolerated(m1, (addr + count) % SPACE, data[count..], retries);
      } else {
        FewFaultsTolerated(m1, addr, data, retries - 1);
      }
    }
  }

  function FaultsOnly(rs: seq<Reaction>): nat {
    if rs == [] then 0 else FaultsOnly(rs[1..]) + if rs[0].Faulty? then 1 else 0
  }

  lemma ProperIsVerified(m: Memory, addr: nat, piece: seq<byte>)
    requires m.Valid() && addr + |piece| <= SPACE && Reaction0(m).Proper?
    ensures Tried(m, addr, piece).1 == Verified
  {
    assert Struck(m, addr, piece)[addr..addr + |piece|] == piece;
  }

  // ---- the code ------------------------------------------------------------------------------------

  /** The driver with the card behind it; what it reads is what the cells hold. */
  class Driver {
    const cells: array<byte>
    var reactions: seq<Reaction>
    ghost var log: seq<Attempt>

    constructor (cells: array<byte>, reactions: seq<Reaction>)
      requires Memory(cells[..], reactions, []).Valid()
      ensures Valid() && Value() == Memory(cells[..], reactions, [])
    {
      this.cells, this.reactions, log := cells, reactions, [];
    }

    ghost predicate Valid()
      reads this, cells
    {
      cells.Length == SPACE && Memory(cells[..], reactions, log).Valid()
    }

    ghost function Value(): (m: Memory)
      reads this, cells
      requires Valid()
      ensures m.Valid()
    {
      Memory(cells[..], reactions, log)
    }

    /** sync_write of the driver. */
    method Write(addr: nat, data: seq<byte>) returns (r: int)
      requires Valid() && addr + |data| <= SPACE
      modifies this`reactions, cells
      ensures Valid() && cells[..] == Struck(old(Value()), addr, data) && log == old(log)
      ensures reactions == if old(reactions) == [] then [] else old(reactions)[1..]
      ensures r == if Reaction0(old(Value())).Refused? then Reaction0(old(Value())).code else 0
    {
      ghost var m := Value();
      var reaction := if reactions == [] then Proper else reactions[0];
      var stored := if reaction.Proper? then data else reaction.cells[..Min(|reaction.cells|, |data|)];
      forall i | 0 <= i < |stored| {
        cells[addr + i] := stored[i];
      }
      assert cells[..] == Overlay(m.cells, addr, stored);
      if reactions != [] {
        reactions := reactions[1..];
      }
      r := if reaction.Refused? then reaction.code else 0;
    }

    /** sync_read of the driver. */
    method Read(addr: nat, count: nat) returns (data: seq<byte>)
      requires Valid() && addr + count <= SPACE
      ensures data == Value().cells[addr..addr + count]
    {
      data := cells[addr..addr + count];
    }
  }

  class Protocol {
    const id: nat
    const driver: Driver

    constructor (id: nat, driver: Driver)
      ensures this.id == id && this.driver == driver
    {
      this.id, this.driver := id, driver;
    }

    function Retries(slen: nat): nat {
      if (id == I2C_SHORT || id == I2C_LONG) && slen > 1 then 2 else 1
    }

    /** sync_write. */
    method Write(start: nat, sbuf: seq<byte>) returns (r: Outcome)
      requires driver.Valid() && start < SPACE
      modifies driver, driver.cells
      ensures driver.Valid() && (driver.Value(), r) == Written(old(driver.Value()), start, sbuf, Retries(|sbuf|))
      ensures |driver.log| >= |old(driver.log)|
      ensures |sbuf| <= SPACE ==>
                var tries := driver.log[|old(driver.log)|..];
                var survived := if (id == 18 || id == 19) && |sbuf| > 1 then 2 else 1;
                && (r.Done? <==> Count(tries, Error) == 0 && Count(tries, Mismatch) <= survived)
                && |tries| <= Pages(start, |sbuf|) + survived
    {
      hide Tried, Struck, Count, Pages;
      TriesAre(driver.Value(), start, sbuf, Retries(|sbuf|));
      var retries: nat := 1;
      if (id == I2C_SHORT || id == I2C_LONG) && |sbuf| > 1 {
        retries := 2;
      }
      var addr: nat, left := start, sbuf;
      ghost var goal := Written(driver.Value(), start, sbuf, retries);
      while left != []
        invariant driver.Valid() && addr < SPACE
        invariant goal == Written(driver.Value(), addr, left, retries)
        decreases |left|, retries
      {
        var count := 256 - addr % 256;
        if count > |left| {
          count := |left|;
        }
        PieceInSpace(addr, |left|);
        ghost var m := driver.Value();
        var verdict, code := Try(addr, left[..count]);
        if verdict.Error? {
          return DriverError(code);
        }
        if verdict.Mismatch? {
          if retries == 0 {
            return VerifyFailed;
          }
          retries := retries - 1;
          continue;
        }
        addr := (addr + count) % SPACE;
        left := left[count..];
      }
      r := Done;
    }

    /** One pass of the loop: write, read back and compare; the attempt is noted for the proofs. */
    method Try(addr: nat, piece: seq<byte>) returns (v: Verdict, code: int)
      requires driver.Valid() && addr + |piece| <= SPACE
      modifies driver, driver.cells
      ensures driver.Valid() && (driver.Value(), v) == Tried(old(driver.Value()), addr, piece)
      ensures v.Error? ==> code == Reaction0(old(driver.Value())).code
    {
      hide Struck;
      code := driver.Write(addr, piece);
      if code < 0 {
        v := Error;
      } else {
        var temp := driver.Read(addr, |piece|);
        v := if piece == temp then Verified else Mismatch;
      }
      driver.log := driver.log + [Attempt(addr, |piece|, v)];
    }
  }
}
