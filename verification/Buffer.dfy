/** The compacting octet buffer (ct_buf_t of buffer.c) and the bounded queue it refines. */
module Buffers {
  import opened Bytes

  // ---- the buffer as a value ---------------------------------------------------

  /** The memory of a buffer with its read and write positions. */
  datatype Buf = Buf(mem: seq<byte>, head: nat, tail: nat, overrun: bool) {

    predicate Valid() {
      head <= tail <= |mem|
    }

    /** The octets that were put and not yet taken. */
    function Avail(): seq<byte>
      requires Valid()
    {
      mem[head..tail]
    }

    function Tailroom(): nat
      requires Valid()
    {
      |mem| - tail
    }

    function Compact(): (b: Buf)
      requires Valid()
      ensures b.Valid() && |b.mem| == |mem| && b.head == 0
    {
      if head == 0 then this
      else this.(mem := mem[head..tail] + mem[tail - head..], head := 0, tail := tail - head)
    }

    function Get(n: nat): (r: (Buf, Option<seq<byte>>))
      requires Valid()
      ensures r.0.Valid() && |r.0.mem| == |mem|
    {
      if n > tail - head then (this, None)
      else (this.(head := head + n), Some(mem[head..head + n]))
    }

    /** The buffer on which ct_buf_put decides whether len octets fit. */
    function MakeRoom(len: nat): (b: Buf)
      requires Valid()
      ensures b.Valid() && |b.mem| == |mem|
    {
      if len > |mem| - tail then Compact() else this
    }

    function Put(data: seq<byte>): (r: (Buf, bool))
      requires Valid()
      ensures r.0.Valid() && |r.0.mem| == |mem|
    {
      var b := MakeRoom(|data|);
      if |data| > |b.mem| - b.tail then (b.(overrun := true), false)
      else (b.(mem := b.mem[..b.tail] + data + b.mem[b.tail + |data|..],
               tail := b.tail + |data|), true)
    }

    /** Put with a null source: octets already written behind the tail become available. */
    function Extend(n: nat): (r: (Buf, bool))
      requires Valid()
      ensures r.0.Valid() && |r.0.mem| == |mem|
    {
      var b := MakeRoom(n);
      if n > |b.mem| - b.tail then (b.(overrun := true), false) else (b.(tail := b.tail + n), true)
    }

    function Push(data: seq<byte>): (r: (Buf, bool))
      requires Valid()
      ensures r.0.Valid() && |r.0.mem| == |mem|
    {
      if head < |data| then (this, false)
      else (this.(mem := mem[..head - |data|] + data + mem[head..], head := head - |data|), true)
    }
  }

  // ---- the buffer as the library keeps it ----------------------------------------

  class Buffer {
    const base: array<byte>
    const size: nat
    var head: nat
    var tail: nat
    var overrun: bool

    ghost predicate Valid()
      reads this
    {
      head <= tail <= size <= base.Length
    }

    ghost function Value(): (b: Buf)
      reads this, base
      requires Valid()
      ensures b.Valid()
    {
      Buf(base[..size], head, tail, overrun)
    }

    /** ct_buf_init on fresh memory. */
    constructor Init(mem: array<byte>, len: nat)
      requires len <= mem.Length
      ensures Valid() && base == mem && size == len
      ensures Value() == Buf(mem[..len], 0, 0, false)
    {
      base, size, head, tail, overrun := mem, len, 0, 0, false;
    }

    /** ct_buf_set: everything in mem is available. */
    constructor Set(mem: array<byte>, len: nat)
      requires len <= mem.Length
      ensures Valid() && base == mem && size == len
      ensures Value() == Buf(mem[..len], 0, len, false)
      ensures Value().Avail() == mem[..len]
    {
      base, size, head, tail, overrun := mem, len, 0, len, false;
    }

    /** ct_buf_init again on the same memory. */
    method Reinit()
      requires Valid()
      modifies this
      ensures Valid() && Value() == Buf(old(Value()).mem, 0, 0, false)
    {
      head, tail, overrun := 0, 0, false;
    }

    method Compact()
      requires Valid()
      modifies this, base
      ensures Valid() && Value() == old(Value()).Compact()
      ensures base[size..] == old(base[size..])
    {
      if head == 0 {
        return;
      }
      var count := tail - head;
      forall i | 0 <= i < count {
        base[i] := base[head + i];
      }
      tail := tail - head;
      head := 0;
      assert base[..size] == old(base[..size][head..tail] + base[..size][tail - head..]);
    }

    /** The first n available octets, where ct_buf_head points. */
    function Front(n: nat): (s: seq<byte>)
      reads this, base
      requires Valid() && n <= tail - head
      ensures s == Value().Avail()[..n]
    {
      assert base[..size][head..head + n] == base[head..head + n];
      PartOfPart(base[..size], head, tail, 0, n);
      base[head..head + n]
    }

    /** ct_buf_get; with a null destination the caller ignores `data`. */
    method Get(len: nat) returns (ok: bool, data: seq<byte>)
      requires Valid()
      modifies this
      ensures Valid() && Value() == old(Value()).Get(len).0
      ensures ok == old(Value()).Get(len).1.Some?
      ensures ok ==> data == old(Value()).Get(len).1.value
    {
      if len > tail - head {
        return false, [];
      }
      data := base[head..head + len];
      assert data == base[..size][head..head + len];
      head := head + len;
      ok := true;
    }

    /** memcpy to a position of the memory. */
    method Overwrite(at: nat, data: seq<byte>)
      requires at + |data| <= size <= base.Length
      modifies base
      ensures base[..size] == old(base[..size])[..at] + data + old(base[..size])[at + |data|..]
      ensures base[size..] == old(base[size..])
    {
      ghost var was := base[..size];
      ghost var goal := was[..at] + data + was[at + |data|..];
      forall i | 0 <= i < |data| {
        base[at + i] := data[i];
      }
      forall i | 0 <= i < size
        ensures base[i] == goal[i]
      {
        if at <= i < at + |data| {
          assert base[at + (i - at)] == data[i - at];
        }
      }
      assert base[..size] == goal;
    }

    method Put(data: seq<byte>) returns (ok: bool)
      requires Valid()
      modifies this, base
      ensures Valid() && (Value(), ok) == old(Value()).Put(data)
      ensures base[size..] == old(base[size..])
    {
      if |data| > size - tail {
        Compact();
      }
      if |data| > size - tail {
        overrun := true;
        return false;
      }
      Overwrite(tail, data);
      tail := tail + |data|;
      ok := true;
    }

    method Extend(n: nat) returns (ok: bool)
      requires Valid()
      modifies this, base
      ensures Valid() && (Value(), ok) == old(Value()).Extend(n)
      ensures base[size..] == old(base[size..])
      ensures old(n <= size - tail) ==> ok && tail == old(tail) + n && head == old(head) && base[..] == old(base[..])
    {
      if n > size - tail {
        Compact();
      }
      if n > size - tail {
        overrun := true;
        return false;
      }
      tail := tail + n;
      ok := true;
    }

    method Push(data: seq<byte>) returns (ok: bool)
      requires Valid()
      modifies this, base
      ensures Valid() && (Value(), ok) == old(Value()).Push(data)
      ensures base[size..] == old(base[size..])
    {
      if head < |data| {
        return false;
      }
      head := head - |data|;
      Overwrite(head, data);
      ok := true;
    }
  }

  // ---- what a caller may rely on ---------------------------------------------------

  /** Compaction is invisible to the queue. */
  lemma CompactKeepsContents(b: Buf)
    requires b.Valid()
    ensures b.Compact().Avail() == b.Avail()
    ensures b.Compact().Tailroom() == |b.mem| - |b.Avail()|
  {
  }

  /** Put fails exactly when the octets do not fit beside the queued ones; it then only notes
      the overrun, and otherwise appends. */
  lemma PutIsEnqueue(b: Buf, data: seq<byte>)
    requires b.Valid()
    ensures b.Put(data).1 == (|b.Avail()| + |data| <= |b.mem|)
    ensures b.Put(data).0.Avail() == if b.Put(data).1 then b.Avail() + data else b.Avail()
    ensures b.Put(data).0.overrun == (b.overrun || !b.Put(data).1)
  {
    CompactKeepsContents(b);
    var c := b.MakeRoom(|data|);
    assert c.Avail() == b.Avail() && c.overrun == b.overrun;
    if |data| <= |c.mem| - c.tail {
      var mem := c.mem[..c.tail] + data + c.mem[c.tail + |data|..];
      assert mem[c.head..c.tail + |data|] == c.mem[c.head..c.tail] + data;
      assert b.Put(data).0.Avail() == mem[c.head..c.tail + |data|];
    }
  }

  /** Extend fails exactly when there is no room for so many octets; otherwise those that stood behind the
      tail follow what was queued, the buffer not having been moved if they fit there. */
  lemma ExtendIsEnqueue(b: Buf, n: nat)
    requires b.Valid()
    ensures var (c, ok) := b.Extend(n);
            && ok == (|b.Avail()| + n <= |b.mem|)
            && c.overrun == (b.overrun || !ok)
            && (!ok ==> c.Avail() == b.Avail())
            && (ok ==> b.Avail() <= c.Avail() && |c.Avail()| == |b.Avail()| + n)
            && (n <= b.Tailroom() ==> c.Avail() == b.Avail() + b.mem[b.tail..b.tail + n])
  {
    CompactKeepsContents(b);
    var c := b.MakeRoom(n);
    if n <= |c.mem| - c.tail {
      AdjacentParts(c.mem, c.head, c.tail, c.tail + n);
    }
  }

  lemma AdjacentParts(s: seq<byte>, i: nat, j: nat, k: nat)
    requires i <= j <= k <= |s|
    ensures s[i..k] == s[i..j] + s[j..k]
  {
  }

  /** Get fails exactly when fewer octets are queued than asked for; it then changes nothing. */
  lemma GetIsDequeue(b: Buf, n: nat)
    requires b.Valid()
    ensures var (b', got) := b.Get(n);
            && got.Some? == (n <= |b.Avail()|)
            && (got.Some? ==> got.value == b.Avail()[..n] && b'.Avail() == b.Avail()[n..])
            && (got.None? ==> b' == b)
  {
    if n <= b.tail - b.head {
      PartOfPart(b.mem, b.head, b.tail, 0, n);
      PartOfPart(b.mem, b.head, b.tail, n, b.tail - b.head);
    }
  }

  /** Taking m octets and then n. */
  lemma TwoGets(b: Buf, m: nat, n: nat)
    requires b.Valid() && m + n <= |b.Avail()|
    ensures var (b', got) := b.Get(m).0.Get(n);
            b'.Avail() == b.Avail()[m + n..] && got == Some(b.Avail()[m..m + n])
  {
    var s := b.Avail();
    GetIsDequeue(b, m);
    GetIsDequeue(b.Get(m).0, n);
    assert s[m..] == s[m..|s|];
    PartOfPart(s, m, |s|, n, |s| - m);
    PartOfPart(s, m, |s|, 0, n);
  }

  /** Pushing back what was just taken undoes the Get, memory included. */
  lemma PushUndoesGet(b: Buf, n: nat)
    requires b.Valid() && n <= |b.Avail()|
    ensures var (b', got) := b.Get(n);
            b'.Push(got.value) == (b, true)
  {
    var (b', got) := b.Get(n);
    assert b.mem[..b.head] + b.mem[b.head..b.head + n] + b.mem[b.head + n..] == b.mem;
  }

  // ---- refinement over whole runs ----------------------------------------------------

  /** What callers do with a buffer. OpFill stands for receiving octets directly behind the tail and
      then extending the contents over them; no more are received than there is room for. */
  datatype Op =
    | OpPut(data: seq<byte>)
    | OpGet(n: nat)
    | OpPush(data: seq<byte>)
    | OpFill(data: seq<byte>)
    | OpCompact

  datatype Result = Accepted | Refused | Taken(data: seq<byte>)

  /** One operation on the real buffer. */
  function BufStep(b: Buf, op: Op): (r: (Buf, Result))
    requires b.Valid()
    ensures r.0.Valid() && |r.0.mem| == |b.mem|
  {
    match op
    case OpPut(data) => var (b', ok) := b.Put(data); (b', if ok then Accepted else Refused)
    case OpGet(n) => var (b', got) := b.Get(n); (b', if got.Some? then Taken(got.value) else Refused)
    case OpPush(data) => var (b', ok) := b.Push(data); (b', if ok then Accepted else Refused)
    case OpFill(data) =>
      if |data| > b.Tailroom() then (b, Refused)
      else (b.(mem := b.mem[..b.tail] + data + b.mem[b.tail + |data|..]).Extend(|data|).0, Accepted)
    case OpCompact => (b.Compact(), Accepted)
  }

  /** A first-in first-out queue that also knows how many octets were taken from its front and could
      still be given back. */
  datatype Queue = Queue(q: seq<byte>, taken: nat)

  /** The same operation on such a queue of the given capacity. */
  function QueueStep(s: Queue, capacity: nat, op: Op): (Queue, Result) {
    match op
    case OpPut(data) =>
      var taken := if s.taken + |s.q| + |data| > capacity then 0 else s.taken;
      if |s.q| + |data| <= capacity then (Queue(s.q + data, taken), Accepted) else (Queue(s.q, taken), Refused)
    case OpGet(n) => if n <= |s.q| then (Queue(s.q[n..], s.taken + n), Taken(s.q[..n])) else (s, Refused)
    case OpPush(data) =>
      if |data| <= s.taken then (Queue(data + s.q, s.taken - |data|), Accepted) else (s, Refused)
    case OpFill(data) =>
      if s.taken + |s.q| + |data| <= capacity then (Queue(s.q + data, s.taken), Accepted) else (s, Refused)
    case OpCompact => (Queue(s.q, 0), Accepted)
  }

  function BufRun(b: Buf, ops: seq<Op>): (r: (Buf, seq<Result>))
    requires b.Valid()
    ensures r.0.Valid() && |r.0.mem| == |b.mem|
    decreases ops
  {
    if ops == [] then (b, [])
    else
      var (b1, r) := BufStep(b, ops[0]);
      var (b2, rs) := BufRun(b1, ops[1..]);
      (b2, [r] + rs)
  }

  function QueueRun(s: Queue, capacity: nat, ops: seq<Op>): (Queue, seq<Result>)
    decreases ops
  {
    if ops == [] then (s, [])
    else
      var (s1, r) := QueueStep(s, capacity, ops[0]);
      var (s2, rs) := QueueRun(s1, capacity, ops[1..]);
      (s2, [r] + rs)
  }

  function View(b: Buf): Queue
    requires b.Valid()
  {
    Queue(b.Avail(), b.head)
  }

  /** Under any sequence of operations the buffer answers like a bounded queue. */
  lemma {:induction false} BufferRefinesQueue(b: Buf, ops: seq<Op>)
    requires b.Valid()
    ensures var (b', rs) := BufRun(b, ops);
            QueueRun(View(b), |b.mem|, ops) == (View(b'), rs)
    decreases ops
  {
    hide BufStep, QueueStep;
    if ops != [] {
      StepRefines(b, ops[0]);
      BufferRefinesQueue(BufStep(b, ops[0]).0, ops[1..]);
    }
  }

  lemma StepRefines(b: Buf, op: Op)
    requires b.Valid()
    ensures var (b', r) := BufStep(b, op);
            QueueStep(View(b), |b.mem|, op) == (View(b'), r)
  {
    hide Buf.Put, Buf.Get, Buf.Push;
    match op
    case OpPut(data) =>
      PutIsEnqueue(b, data);
      HeadAfter(b, data, 0);
    case OpGet(n) =>
      GetIsDequeue(b, n);
      HeadAfter(b, [], n);
    case OpPush(data) => PushIsGivenBack(b, data);
    case OpFill(data) =>
      if |data| <= b.Tailroom() {
        FillIsEnqueue(b, data);
      }
    case OpCompact => CompactKeepsContents(b);
  }

  /** Where the contents begin after a put, and after a get. */
  lemma HeadAfter(b: Buf, data: seq<byte>, n: nat)
    requires b.Valid()
    ensures b.Put(data).0.head == if b.tail + |data| > |b.mem| then 0 else b.head
    ensures b.Get(n).0.head == if n <= |b.Avail()| then b.head + n else b.head
  {
  }

  /** Push fails exactly when fewer octets were taken than are given back. */
  lemma PushIsGivenBack(b: Buf, data: seq<byte>)
    requires b.Valid()
    ensures var (b', ok) := b.Push(data);
            && ok == (|data| <= b.head)
            && (if ok then b'.Avail() == data + b.Avail() && b'.head == b.head - |data| else b' == b)
  {
    if |data| <= b.head {
      var at := b.head - |data|;
      var mem := b.mem[..at] + data + b.mem[b.head..];
      assert mem[at..b.tail] == data + b.mem[b.head..b.tail];
    }
  }

  lemma FillIsEnqueue(b: Buf, data: seq<byte>)
    requires b.Valid() && |data| <= b.Tailroom()
    ensures var (b', r) := BufStep(b, OpFill(data));
            r == Accepted && b'.Avail() == b.Avail() + data && b'.head == b.head
  {
    var mem := b.mem[..b.tail] + data + b.mem[b.tail + |data|..];
    assert mem[b.head..b.tail + |data|] == b.mem[b.head..b.tail] + data;
  }
}
