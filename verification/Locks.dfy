/** Card locks of the resource manager (locks.c): a linked list changed in place, and mutual
    exclusion over every interleaving of clients. */
module Locks {
  import opened Bytes

  // ---- the table as a value ----------------------------------------------------------------

  /** A client, as the identity of its socket. */
  type Client = int

  datatype Lock = Lock(slot: int, uid: int, handle: nat, owner: Client, exclusive: bool)

  /** The locks held, newest first, and the next handle (an unsigned int). */
  datatype Table = Table(locks: seq<Lock>, next: nat)

  /** l stands in the way of a lock on slot for this client. */
  predicate Conflicts(l: Lock, client: Client, uid: int, slot: int, exclusive: bool) {
    l.slot == slot && l.owner != client && (l.exclusive || exclusive || l.uid != uid)
  }

  predicate Free(locks: seq<Lock>, client: Client, uid: int, slot: int, exclusive: bool) {
    forall l :: l in locks ==> !Conflicts(l, client, uid, slot, exclusive)
  }

  const HANDLES: nat := 0x1_0000_0000

  function Granted(t: Table, client: Client, uid: int, slot: int, exclusive: bool): Table {
    Table([Lock(slot, uid, t.next, client, exclusive)] + t.locks, (t.next + 1) % HANDLES)
  }

  predicate Matches(l: Lock, client: Client, slot: int, handle: nat) {
    l.owner == client && l.slot == slot && l.handle == handle
  }

  /** Position of the lock that unlock releases; the length of the list if there is none. */
  function Find(locks: seq<Lock>, client: Client, slot: int, handle: nat): (i: nat)
    ensures i <= |locks|
    ensures i < |locks| ==> Matches(locks[i], client, slot, handle)
    ensures forall j :: 0 <= j < i ==> !Matches(locks[j], client, slot, handle)
  {
    if locks == [] || Matches(locks[0], client, slot, handle) then 0
    else 1 + Find(locks[1..], client, slot, handle)
  }

  function Without(locks: seq<Lock>, i: nat): seq<Lock>
    requires i < |locks|
  {
    locks[..i] + locks[i + 1..]
  }

  /** What is left after a client's departure, in the same order. */
  function NotOwnedBy(locks: seq<Lock>, client: Client): seq<Lock> {
    if locks == [] then []
    else (if locks[0].owner == client then [] else [locks[0]]) + NotOwnedBy(locks[1..], client)
  }

  // ---- the table in place ----------------------------------------------------------------------

  class Node {
    var next: Node?
    const slot: int
    const uid: int
    const handle: nat
    const owner: Client
    const exclusive: bool

    constructor (slot: int, uid: int, handle: nat, owner: Client, exclusive: bool, next: Node?)
      ensures this.slot == slot && this.uid == uid && this.handle == handle && this.owner == owner
      ensures this.exclusive == exclusive && this.next == next
    {
      this.slot, this.uid, this.handle, this.owner := slot, uid, handle, owner;
      this.exclusive, this.next := exclusive, next;
    }

    function Value(): Lock {
      Lock(slot, uid, handle, owner, exclusive)
    }
  }

  function Values(nodes: seq<Node>): (ls: seq<Lock>)
    ensures |ls| == |nodes| && forall i :: 0 <= i < |nodes| ==> ls[i] == nodes[i].Value()
  {
    seq(|nodes|, i requires 0 <= i < |nodes| => nodes[i].Value())
  }

  /** The nodes form the list that starts at first. */
  ghost predicate Chain(first: Node?, nodes: seq<Node>)
    reads nodes
  {
    && first == At(nodes, 0)
    && (forall i {:trigger nodes[i].next} :: 0 <= i < |nodes| ==> nodes[i].next == At(nodes, i + 1))
    && (forall i, j :: 0 <= i < j < |nodes| ==> nodes[i] != nodes[j])
  }

  lemma ChainStart(first: Node?, nodes: seq<Node>)
    requires Chain(first, nodes)
    ensures first == At(nodes, 0)
  {
  }

  predicate Within(nodes: seq<Node>, spine: set<Node>) {
    forall i :: 0 <= i < |nodes| ==> nodes[i] in spine
  }

  /** The node at a position of the list; null behind its end. */
  function At(nodes: seq<Node>, i: nat): Node? {
    if i < |nodes| then nodes[i] else null
  }

  class LockTable {
    var locks: Node?
    var lockHandle: nat
    ghost var nodes: seq<Node>

    ghost predicate Valid()
      reads this, nodes
    {
      Chain(locks, nodes) && lockHandle < HANDLES
    }

    ghost function Value(): Table
      reads this, nodes
    {
      Table(Values(nodes), lockHandle)
    }

    constructor ()
      ensures Valid() && Value() == Table([], 0) && fresh(nodes)
    {
      locks, lockHandle, nodes := null, 0, [];
    }

    /** ifdhandler_check_lock. */
    method CheckLock(client: Client, uid: int, slot: int, exclusive: bool) returns (ok: bool)
      requires Valid()
      ensures ok <==> Free(Value().locks, client, uid, slot, exclusive)
    {
      var l := locks;
      ghost var k := 0;
      while l != null
        invariant k <= |nodes| && l == At(nodes, k)
        invariant forall i :: 0 <= i < k ==> !Conflicts(nodes[i].Value(), client, uid, slot, exclusive)
        decreases |nodes| - k
      {
        assert l == nodes[k];
        if l.slot == slot && l.owner != client {
          if l.exclusive || exclusive || l.uid != uid {
            assert Value().locks[k] in Value().locks;
            return false;
          }
        }
        l := l.next;
        k := k + 1;
      }
      ok := true;
    }

    /** ifdhandler_lock. */
    method Lock(client: Client, uid: int, slot: int, exclusive: bool) returns (res: Option<nat>)
      requires Valid()
      modifies this
      ensures Valid() && forall n :: n in nodes && n !in old(nodes) ==> fresh(n)
      ensures if Free(old(Value()).locks, client, uid, slot, exclusive)
              then res == Some(old(lockHandle)) && Value() == Granted(old(Value()), client, uid, slot, exclusive)
              else res == None && Value() == old(Value())
    {
      var ok := CheckLock(client, uid, slot, exclusive);
      if !ok {
        return None;
      }
      var l := new Node(slot, uid, lockHandle, client, exclusive, locks);
      lockHandle := (lockHandle + 1) % HANDLES;
      Prepend(l);
      res := Some(l.handle);
    }

    method Prepend(l: Node)
      requires Valid() && l.next == locks && l !in nodes
      modifies this`locks, this`nodes
      ensures Valid() && nodes == [l] + old(nodes)
      ensures Values(nodes) == [l.Value()] + old(Values(nodes))
    {
      ghost var before := nodes;
      nodes := [l] + nodes;
      locks := l;
      Prepended(l, before);
    }

    /** Take the node at position k out of the list. */
    method Unlink(prev: Node?, l: Node, ghost k: nat)
      requires Valid() && k < |nodes| && l == nodes[k]
      requires if k == 0 then prev == null else prev == nodes[k - 1]
      modifies this`locks, this`nodes, nodes
      ensures Valid() && nodes == old(nodes[..k] + nodes[k + 1..]) && lockHandle == old(lockHandle)
      ensures forall n :: n in old(nodes) && n !in nodes ==> n == l
      ensures l.next == old(l.next)
      ensures Values(nodes) == Without(old(Values(nodes)), k)
    {
      hide At, Values, Without;
      ghost var before := nodes;
      ghost var after := nodes[..k] + nodes[k + 1..];
      Spliced(before, k);
      AtIndex(before);
      if prev == null {
        locks := l.next;
      } else {
        prev.next := l.next;
      }
      nodes := after;
      forall i | 0 <= i < |after|
        ensures after[i].next == At(after, i + 1)
      {
        if i + 1 != k {
          assert after[i] == if i < k then before[i] else before[i + 1];
        }
      }
    }

    /** ifdhandler_unlock: the first lock with this owner, slot and handle. */
    method Unlock(client: Client, slot: int, handle: nat) returns (ok: bool)
      requires Valid()
      modifies this, nodes
      ensures Valid() && lockHandle == old(lockHandle)
      ensures var was, i := old(Value()).locks, Find(old(Value()).locks, client, slot, handle);
              && ok == (i < |was|)
              && Value().locks == if ok then Without(was, i) else was
    {
      var prev: Node? := null;
      var l := locks;
      ghost var k := 0;
      ghost var was := Value().locks;
      while l != null
        invariant Valid() && nodes == old(nodes) && unchanged(this) && unchanged(nodes)
        invariant k <= |nodes| && l == At(nodes, k)
        invariant if k == 0 then prev == null else prev == nodes[k - 1]
        invariant forall i :: 0 <= i < k ==> !Matches(was[i], client, slot, handle)
        decreases |nodes| - k
      {
        assert l == nodes[k] && was[k] == l.Value();
        if l.owner == client && l.slot == slot && l.handle == handle {
          FindUnique(was, client, slot, handle, k);
          Unlink(prev, l, k);
          return true;
        }
        prev := l;
        l := l.next;
        k := k + 1;
      }
      FindUnique(was, client, slot, handle, k);
      ok := false;
    }

    /** ifdhandler_unlock_all: every lock of this client. */
    method UnlockAll(client: Client)
      requires Valid()
      modifies this, nodes
      ensures Valid() && lockHandle == old(lockHandle)
      ensures Value().locks == NotOwnedBy(old(Value()).locks, client)
    {
      var prev: Node? := null;
      var l := locks;
      ghost var k: nat, j: nat := 0, 0;
      ghost var was := Value().locks;
      ghost var spine := set n | n in nodes;
      ProgressStart(was, client);
      ChainStart(locks, nodes);
      hide Progress, Values, Within, Chain, NotOwnedBy;
      while l != null
        invariant Valid() && lockHandle == old(lockHandle)
        invariant Within(nodes, spine)
        invariant k <= |nodes| && l == At(nodes, k)
        invariant if k == 0 then prev == null else prev == nodes[k - 1]
        invariant Progress(Values(nodes), k, was, j, client)
        decreases |nodes| - k
      {
        prev, l, k := Visit(prev, l, k, client, spine, was, j);
        j := j + 1;
      }
      ProgressEnd(Values(nodes), k, was, j, client);
    }

    /** One pass of ifdhandler_unlock_all: drop the node or step over it. */
    method Visit(prev: Node?, l: Node, ghost k: nat, client: Client, ghost spine: set<Node>,
                 ghost was: seq<Lock>, ghost j: nat)
      returns (prev': Node?, l': Node?, ghost k': nat)
      requires Valid() && k < |nodes| && l == nodes[k] && Within(nodes, spine)
      requires if k == 0 then prev == null else prev == nodes[k - 1]
      requires Progress(Values(nodes), k, was, j, client)
      modifies this`locks, this`nodes, spine
      ensures Valid() && Within(nodes, spine)
      ensures k' <= |nodes| && l' == At(nodes, k')
      ensures if k' == 0 then prev' == null else prev' == nodes[k' - 1]
      ensures Progress(Values(nodes), k', was, j + 1, client)
      ensures |nodes| - k' < old(|nodes| - k)
    {
      hide Progress;
      ProgressStep(Values(nodes), k, was, j, client);
      k' := k;
      if l.owner == client {
        prev', l' := prev, l.next;
        Unlink(prev, l, k);
      } else {
        prev', l', k' := l, l.next, k + 1;
      }
    }
  }

  lemma Prepended(l: Node, nodes: seq<Node>)
    ensures var after := [l] + nodes;
            && (forall i :: 0 < i < |after| ==> after[i] == nodes[i - 1])
            && (forall i :: 0 < i <= |after| ==> At(after, i) == At(nodes, i - 1))
            && Values(after) == [l.Value()] + Values(nodes)
  {
  }

  /** unlock_all has dealt with the first j of the locks it found; k of them are left. */
  ghost predicate Progress(now: seq<Lock>, k: nat, was: seq<Lock>, j: nat, client: Client) {
    && k <= |now| && j <= |was|
    && now[k..] == was[j..] && now[..k] == NotOwnedBy(was[..j], client)
  }

  lemma ProgressStart(was: seq<Lock>, client: Client)
    ensures Progress(was, 0, was, 0, client)
  {
  }

  lemma ProgressStep(now: seq<Lock>, k: nat, was: seq<Lock>, j: nat, client: Client)
    requires Progress(now, k, was, j, client) && k < |now|
    ensures if now[k].owner == client then Progress(Without(now, k), k, was, j + 1, client)
            else Progress(now, k + 1, was, j + 1, client)
  {
    assert |now[k..]| == |was[j..]|;
    assert now[k] == now[k..][0] == was[j..][0];
    assert now[k + 1..] == now[k..][1..] && was[j + 1..] == was[j..][1..];
    assert now[..k + 1] == now[..k] + [was[j]];
    assert Without(now, k)[..k] == now[..k] && Without(now, k)[k..] == now[k + 1..];
    NotOwnedByNext(was, j, client);
  }

  lemma ProgressEnd(now: seq<Lock>, k: nat, was: seq<Lock>, j: nat, client: Client)
    requires Progress(now, k, was, j, client) && k == |now|
    ensures now == NotOwnedBy(was, client)
  {
    assert |was[j..]| == 0;
    assert now[..k] == now && was[..j] == was;
  }

  lemma Spliced(nodes: seq<Node>, k: nat)
    requires k < |nodes|
    ensures var after := nodes[..k] + nodes[k + 1..];
            && (forall i :: 0 <= i < |after| ==> after[i] == if i < k then nodes[i] else nodes[i + 1])
            && (forall i :: 0 <= i <= |after| ==> At(after, i) == if i < k then nodes[i] else At(nodes, i + 1))
            && Values(after) == Without(Values(nodes), k)
  {
    var after := nodes[..k] + nodes[k + 1..];
    forall i | 0 <= i < |after|
      ensures Values(after)[i] == Without(Values(nodes), k)[i]
    {
    }
  }

  lemma AtIndex(nodes: seq<Node>)
    ensures forall i :: 0 <= i < |nodes| ==> At(nodes, i) == nodes[i]
  {
  }

  lemma {:induction false} FindUnique(locks: seq<Lock>, client: Client, slot: int, handle: nat, k: nat)
    requires k <= |locks|
    requires k < |locks| ==> Matches(locks[k], client, slot, handle)
    requires forall i :: 0 <= i < k ==> !Matches(locks[i], client, slot, handle)
    ensures Find(locks, client, slot, handle) == k
  {
  }

  lemma {:induction false} NotOwnedByConcat(a: seq<Lock>, b: seq<Lock>, client: Client)
    ensures NotOwnedBy(a + b, client) == NotOwnedBy(a, client) + NotOwnedBy(b, client)
  {
    if a == [] {
      assert a + b == b;
    } else {
      assert (a + b)[1..] == a[1..] + b;
      NotOwnedByConcat(a[1..], b, client);
    }
  }

  lemma NotOwnedByNext(locks: seq<Lock>, j: nat, client: Client)
    requires j < |locks|
    ensures NotOwnedBy(locks[..j + 1], client)
            == NotOwnedBy(locks[..j], client) + (if locks[j].owner == client then [] else [locks[j]])
  {
    assert locks[..j + 1] == locks[..j] + [locks[j]];
    NotOwnedByConcat(locks[..j], [locks[j]], client);
  }

  // ---- every interleaving of clients ------------------------------------------------------------

  datatype Op =
    | OpLock(client: Client, uid: int, slot: int, exclusive: bool)
    | OpUnlock(client: Client, slot: int, handle: nat)
    | OpUnlockAll(client: Client)

  function Apply(t: Table, op: Op): Table {
    match op
    case OpLock(client, uid, slot, exclusive) =>
      if Free(t.locks, client, uid, slot, exclusive) then Granted(t, client, uid, slot, exclusive) else t
    case OpUnlock(client, slot, handle) =>
      var i := Find(t.locks, client, slot, handle);
      if i < |t.locks| then t.(locks := Without(t.locks, i)) else t
    case OpUnlockAll(client) => t.(locks := NotOwnedBy(t.locks, client))
  }

  function Run(t: Table, ops: seq<Op>): Table
    decreases ops
  {
    if ops == [] then t else Run(Apply(t, ops[0]), ops[1..])
  }

  const EMPTY: Table := Table([], 0)

  /** Locks of different clients on one slot are all shared, and all for the same user. */
  predicate Compatible(a: Lock, b: Lock) {
    a.slot == b.slot && a.owner != b.owner ==> !a.exclusive && !b.exclusive && a.uid == b.uid
  }

  /** A request is granted exactly if the new lock is compatible with every lock held: nothing that may
      be shared is refused. */
  lemma GrantedIffCompatible(t: Table, client: Client, uid: int, slot: int, exclusive: bool)
    ensures var l := Lock(slot, uid, t.next, client, exclusive);
            var granted := forall m :: m in t.locks ==> Compatible(m, l);
            && (Grants(t, OpLock(client, uid, slot, exclusive)) <==> granted)
            && Apply(t, OpLock(client, uid, slot, exclusive))
               == if granted then Table([l] + t.locks, (t.next + 1) % 0x1_0000_0000) else t
  {
    var l := Lock(slot, uid, t.next, client, exclusive);
    forall m | m in t.locks
      ensures Conflicts(m, client, uid, slot, exclusive) <==> !Compatible(m, l)
    {
    }
  }

  predicate Exclusion(locks: seq<Lock>) {
    forall a, b :: a in locks && b in locks ==> Compatible(a, b)
  }

  lemma {:induction false} NotOwnedByMembers(locks: seq<Lock>, client: Client, l: Lock)
    ensures l in NotOwnedBy(locks, client) <==> l in locks && l.owner != client
  {
    if locks != [] {
      NotOwnedByMembers(locks[1..], client, l);
    }
  }

  lemma ApplyKeepsExclusion(t: Table, op: Op)
    requires Exclusion(t.locks)
    ensures Exclusion(Apply(t, op).locks)
  {
    match op
    case OpLock(client, uid, slot, exclusive) =>
    case OpUnlock(client, slot, handle) =>
    case OpUnlockAll(client) =>
      forall l | l in NotOwnedBy(t.locks, client)
        ensures l in t.locks
      {
        NotOwnedByMembers(t.locks, client, l);
      }
  }

  /** Mutual exclusion in every reachable state. */
  lemma {:induction false} RunKeepsExclusion(t: Table, ops: seq<Op>)
    requires Exclusion(t.locks)
    ensures Exclusion(Run(t, ops).locks)
    decreases ops
  {
    if ops != [] {
      ApplyKeepsExclusion(t, ops[0]);
      RunKeepsExclusion(Apply(t, ops[0]), ops[1..]);
    }
  }

  /** Once an exclusive lock is held, no other client holds or gets any lock on the slot, whatever
      it asks for and whoever its user is. */
  lemma ExclusiveLockExcludes(ops: seq<Op>, l: Lock, client: Client, uid: int, exclusive: bool)
    requires l in Run(EMPTY, ops).locks && l.exclusive && client != l.owner
    ensures var t := Run(EMPTY, ops);
            && (forall m :: m in t.locks && m.slot == l.slot ==> m.owner == l.owner)
            && Apply(t, OpLock(client, uid, l.slot, exclusive)) == t
  {
    RunKeepsExclusion(EMPTY, ops);
    var t := Run(EMPTY, ops);
    assert Conflicts(l, client, uid, l.slot, exclusive);
    assert forall m :: m in t.locks ==> Compatible(l, m);
  }

  // ---- handles -------------------------------------------------------------------------------------

  /** Handles are distinct and all below the next one. */
  predicate Numbered(t: Table) {
    && (forall l :: l in t.locks ==> l.handle < t.next)
    && (forall i, j :: 0 <= i < j < |t.locks| ==> t.locks[i].handle != t.locks[j].handle)
  }

  lemma {:induction false} NotOwnedByPositions(locks: seq<Lock>, client: Client)
    requires forall i, j :: 0 <= i < j < |locks| ==> locks[i].handle != locks[j].handle
    ensures var ls := NotOwnedBy(locks, client);
            && (forall l :: l in ls ==> l in locks)
            && forall i, j :: 0 <= i < j < |ls| ==> ls[i].handle != ls[j].handle
  {
    if locks != [] {
      NotOwnedByPositions(locks[1..], client);
      var tail := NotOwnedBy(locks[1..], client);
      forall j | 0 <= j < |tail|
        ensures tail[j].handle != locks[0].handle
      {
        assert tail[j] in locks[1..];
        var k :| 0 <= k < |locks[1..]| && locks[1..][k] == tail[j];
        assert locks[k + 1].handle != locks[0].handle;
      }
    }
  }

  /** Whether a request adds a lock. */
  predicate Grants(t: Table, op: Op) {
    op.OpLock? && Free(t.locks, op.client, op.uid, op.slot, op.exclusive)
  }

  function CountGrants(t: Table, ops: seq<Op>): nat
    decreases ops
  {
    if ops == [] then 0 else CountGrants(Apply(t, ops[0]), ops[1..]) + if Grants(t, ops[0]) then 1 else 0
  }

  lemma GrantedNumbered(t: Table, l: Lock)
    requires Numbered(t) && l.handle == t.next && t.next + 1 < HANDLES
    ensures Numbered(Table([l] + t.locks, t.next + 1))
  {
    var ls := [l] + t.locks;
    forall i, j | 0 <= i < j < |ls|
      ensures ls[i].handle != ls[j].handle
    {
      assert ls[j] == t.locks[j - 1] && ls[j] in t.locks;
    }
  }

  lemma WithoutNumbered(t: Table, k: nat)
    requires Numbered(t) && k < |t.locks|
    ensures Numbered(t.(locks := Without(t.locks, k)))
  {
    var ls := Without(t.locks, k);
    forall i | 0 <= i < |ls|
      ensures ls[i] == t.locks[if i < k then i else i + 1] && ls[i] in t.locks
    {
    }
  }

  lemma ApplyKeepsNumbered(t: Table, op: Op)
    requires Numbered(t) && (Grants(t, op) ==> t.next + 1 < HANDLES)
    ensures Numbered(Apply(t, op)) && Apply(t, op).next == t.next + if Grants(t, op) then 1 else 0
  {
    match op
    case OpLock(client, uid, slot, exclusive) =>
      if Grants(t, op) {
        GrantedNumbered(t, Lock(slot, uid, t.next, client, exclusive));
      }
    case OpUnlock(client, slot, handle) =>
      var i := Find(t.locks, client, slot, handle);
      if i < |t.locks| {
        WithoutNumbered(t, i);
      }
    case OpUnlockAll(client) =>
      NotOwnedByPositions(t.locks, client);
  }

  /** For fewer than 2^32 grants, no two locks ever share a handle. */
  lemma {:induction false} RunKeepsNumbered(t: Table, ops: seq<Op>)
    requires Numbered(t) && t.next + CountGrants(t, ops) < HANDLES
    ensures Numbered(Run(t, ops)) && Run(t, ops).next == t.next + CountGrants(t, ops)
    decreases ops
  {
    if ops != [] {
      ApplyKeepsNumbered(t, ops[0]);
      RunKeepsNumbered(Apply(t, ops[0]), ops[1..]);
    }
  }

  /** Then unlock releases the lock named and no other, and only for its owner. */
  lemma UnlockIsExact(ops: seq<Op>, client: Client, slot: int, handle: nat, l: Lock)
    requires CountGrants(EMPTY, ops) < HANDLES
    ensures var t := Run(EMPTY, ops);
            l in Apply(t, OpUnlock(client, slot, handle)).locks
            <==> l in t.locks && !(l.owner == client && l.slot == slot && l.handle == handle)
  {
    RunKeepsNumbered(EMPTY, ops);
    var t := Run(EMPTY, ops);
    var i := Find(t.locks, client, slot, handle);
    if i < |t.locks| {
      WithoutMember(t.locks, i, l);
    }
  }

  lemma WithoutMember(locks: seq<Lock>, i: nat, l: Lock)
    requires i < |locks| && forall j, k :: 0 <= j < k < |locks| ==> locks[j].handle != locks[k].handle
    ensures l in Without(locks, i) <==> l in locks && l.handle != locks[i].handle
  {
    var ls := Without(locks, i);
    assert forall j :: 0 <= j < |ls| ==> ls[j] == locks[if j < i then j else j + 1];
    if l in locks && l.handle != locks[i].handle {
      var j :| 0 <= j < |locks| && locks[j] == l;
      assert ls[if j < i then j else j - 1] == l;
    }
  }

  /** After a client left, the others are served as if it had never asked: its locks are gone and
      all others are untouched. */
  lemma DepartureFreesSlots(t: Table, client: Client, other: Client, uid: int, slot: int, exclusive: bool)
    ensures var left := Apply(t, OpUnlockAll(client)).locks;
            && (forall l :: l in left <==> l in t.locks && l.owner != client)
            && (Free(left, other, uid, slot, exclusive)
                <==> forall l :: l in t.locks && l.owner != client ==>
                       Compatible(l, Lock(slot, uid, t.next, other, exclusive)))
  {
    forall l
      ensures l in NotOwnedBy(t.locks, client) <==> l in t.locks && l.owner != client
    {
      NotOwnedByMembers(t.locks, client, l);
    }
  }
}
