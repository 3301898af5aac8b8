// The AVR circular buffer: a ring in a heap block that behaves as a bounded queue.
module CircularBuffer {
  import opened Bytes

  datatype BufferResult = BUFFER_OK | BUFFER_FULL | BUFFER_EMPTY | BUFFER_INVALID

  // ----- the bounded queue it stands for -----

  /** A buffer without a block, or of size zero, is unusable. */
  datatype Fifo = Unusable | Fifo(items: seq<byte>, capacity: u16)

  datatype Op = Write(data: byte) | Read | Init(size: u16, granted: bool) | Free

  /** What an operation reports: its result and, for a read, the byte. */
  datatype Outcome = Outcome(result: BufferResult, byteRead: seq<byte>)

  function Start(size: u16, granted: bool): Fifo {
    if granted && size > 0 then Fifo([], size) else Unusable
  }

  function Apply(f: Fifo, op: Op): (Fifo, Outcome) {
    match op
    case Init(size, granted) => (Start(size, granted), Outcome(BUFFER_OK, []))
    case Free => (Unusable, Outcome(BUFFER_OK, []))
    case Write(data) =>
      if f.Unusable? then (f, Outcome(BUFFER_INVALID, []))
      else if |f.items| >= f.capacity then (f, Outcome(BUFFER_FULL, []))
      else (f.(items := f.items + [data]), Outcome(BUFFER_OK, []))
    case Read =>
      if f.Unusable? then (f, Outcome(BUFFER_INVALID, []))
      else if f.items == [] then (f, Outcome(BUFFER_EMPTY, []))
      else (f.(items := f.items[1..]), Outcome(BUFFER_OK, [f.items[0]]))
  }

  /** The state after a script of operations, and what each reported. */
  function Play(f: Fifo, ops: seq<Op>): Fifo
    decreases |ops|
  {
    if ops == [] then f else Play(Apply(f, ops[0]).0, ops[1..])
  }

  function Outcomes(f: Fifo, ops: seq<Op>): (os: seq<Outcome>)
    ensures |os| == |ops|
    decreases |ops|
  {
    if ops == [] then [] else [Apply(f, ops[0]).1] + Outcomes(Apply(f, ops[0]).0, ops[1..])
  }

  /** The bytes of the writes that were reported as accepted, and those that reads returned. */
  function Accepted(ops: seq<Op>, os: seq<Outcome>): seq<byte>
    requires |os| == |ops|
  {
    if ops == [] then []
    else (if ops[0].Write? && os[0].result == BUFFER_OK then [ops[0].data] else []) + Accepted(ops[1..], os[1..])
  }

  function Returned(os: seq<Outcome>): seq<byte> {
    if os == [] then [] else os[0].byteRead + Returned(os[1..])
  }

  predicate OnlyReadsAndWrites(ops: seq<Op>) {
    forall i | 0 <= i < |ops| :: ops[i].Write? || ops[i].Read?
  }

  /** First in, first out, nothing lost: over any run of reads and writes the bytes held before,
      followed by those accepted, are those returned, followed by those still held. */
  lemma {:induction false} FirstInFirstOut(f: Fifo, ops: seq<Op>)
    requires f.Fifo? && |f.items| <= f.capacity && OnlyReadsAndWrites(ops)
    ensures var g, os := Play(f, ops), Outcomes(f, ops);
            && g.Fifo? && g.capacity == f.capacity && |g.items| <= g.capacity
            && f.items + Accepted(ops, os) == Returned(os) + g.items
    decreases |ops|
  {
    if ops == [] {
      assert f.items + [] == [] + f.items;
    } else {
      var (f1, o) := Apply(f, ops[0]);
      FirstInFirstOut(f1, ops[1..]);
      var os := Outcomes(f1, ops[1..]);
      assert Outcomes(f, ops)[1..] == os;
      FifoStep(f, ops[0], Accepted(ops[1..], os), Returned(os), Play(f1, ops[1..]).items);
    }
  }

  /** How many writes are accepted: over writes alone, as many as there is room for. */
  lemma {:induction false} WritesAccepted(f: Fifo, ops: seq<Op>)
    requires f.Fifo? && |f.items| <= f.capacity && forall i | 0 <= i < |ops| :: ops[i].Write?
    ensures var room := f.capacity as int - |f.items|;
            |Accepted(ops, Outcomes(f, ops))| == if |ops| <= room then |ops| else room
    decreases |ops|
  {
    if ops != [] {
      var (f1, _) := Apply(f, ops[0]);
      WritesAccepted(f1, ops[1..]);
      assert Outcomes(f, ops)[1..] == Outcomes(f1, ops[1..]);
    }
  }

  lemma FifoStep(f: Fifo, op: Op, accepted: seq<byte>, returned: seq<byte>, held: seq<byte>)
    requires f.Fifo? && (op.Write? || op.Read?)
    requires Apply(f, op).0.items + accepted == returned + held
    ensures var o := Apply(f, op).1;
            f.items + ((if op.Write? && o.result == BUFFER_OK then [op.data] else []) + accepted) ==
            (o.byteRead + returned) + held
  {
    var (g, o) := Apply(f, op);
    if op.Write? && o.result == BUFFER_OK {
      assert f.items + ([op.data] + accepted) == g.items + accepted;
      assert [] + returned == returned;
    } else if o.result == BUFFER_OK {
      assert f.items == [f.items[0]] + g.items;
      assert f.items + ([] + accepted) == [f.items[0]] + (g.items + accepted);
      assert [f.items[0]] + (returned + held) == ([f.items[0]] + returned) + held;
    } else {
      assert [] + accepted == accepted && [] + returned == returned;
    }
  }

  /** The k-th byte returned is the k-th byte accepted. */
  lemma ReturnedInOrder(size: u16, ops: seq<Op>, k: nat)
    requires size > 0 && OnlyReadsAndWrites(ops)
    requires k < |Returned(Outcomes(Start(size, true), ops))|
    ensures var os := Outcomes(Start(size, true), ops);
            k < |Accepted(ops, os)| && Returned(os)[k] == Accepted(ops, os)[k]
  {
    var f := Start(size, true);
    var os := Outcomes(f, ops);
    FirstInFirstOut(f, ops);
    assert f.items + Accepted(ops, os) == Accepted(ops, os);
    assert (Returned(os) + Play(f, ops).items)[k] == Returned(os)[k];
  }

  // ----- the ring -----

  /** The status register; its top bit enables interrupts. */
  class Cpu {
    var sreg: byte

    constructor (sreg: byte)
      ensures this.sreg == sreg
    {
      this.sreg := sreg;
    }

    predicate InterruptsOn()
      reads this
    {
      sreg >= 0x80
    }

    method DisableInterrupts()
      modifies this
      ensures sreg == old(sreg) % 0x80 && !InterruptsOn()
    {
      sreg := sreg % 0x80;
    }
  }

  function RingItems(block: seq<byte>, front: nat, count: nat): (items: seq<byte>)
    requires block != []
    ensures |items| == count
  {
    seq(count, k requires 0 <= k < count => block[(front + k) % |block|])
  }

  lemma RingIndex(n: nat, front: nat, k: nat)
    requires front < n && k <= n
    ensures (front + k) % n == if front + k < n then front + k else front + k - n
  {
    if front + k >= n {
      if front + k - n < n {
        ModOnce(front + k - n, n);
      }
    }
  }

  lemma ModOnce(x: nat, n: nat)
    requires x < n
    ensures (x + n) % n == x
  {
    assert (x + n) / n == 1;
  }

  /** Writing one past the items appends; advancing the front drops the first. */
  lemma RingAppend(block: seq<byte>, front: nat, count: nat, data: byte)
    requires block != [] && front < |block| && count < |block|
    ensures var back := (front + count) % |block|;
            RingItems(block[back := data], front, count + 1) == RingItems(block, front, count) + [data]
  {
    var n, back := |block|, (front + count) % |block|;
    RingIndex(n, front, count);
    var after := RingItems(block[back := data], front, count + 1);
    forall k | 0 <= k < count ensures after[k] == RingItems(block, front, count)[k] {
      RingIndex(n, front, k);
    }
  }

  lemma RingAdvance(block: seq<byte>, front: nat, count: nat)
    requires block != [] && front < |block| && 0 < count <= |block|
    ensures RingItems(block, front, count)[0] == block[front]
    ensures RingItems(block, (front + 1) % |block|, count - 1) == RingItems(block, front, count)[1..]
  {
    var n := |block|;
    RingIndex(n, front, 0);
    RingIndex(n, front, 1);
    var front' := (front + 1) % n;
    forall k | 0 <= k < count - 1
      ensures RingItems(block, front', count - 1)[k] == RingItems(block, front, count)[1..][k]
    {
      RingIndex(n, front', k);
      RingIndex(n, front, k + 1);
    }
  }

  lemma BackMoves(n: nat, front: nat, count: nat)
    requires front < n && count < n
    ensures ((front + count) % n + 1) % n == (front + (count + 1)) % n
  {
    RingIndex(n, front, count);
    RingIndex(n, front, count + 1);
    RingIndex(n, (front + count) % n, 1);
  }

  lemma FrontMoves(n: nat, front: nat, count: nat)
    requires front < n && 0 < count <= n
    ensures ((front + 1) % n + (count - 1)) % n == (front + count) % n
  {
    RingIndex(n, front, count);
    RingIndex(n, front, 1);
    RingIndex(n, (front + 1) % n, count - 1);
  }

  class TBuffer {
    var buffer: array?<byte>
    var front: u16
    var back: u16
    var size: u16
    var count: u16
    var csreg: byte

    ghost predicate Valid()
      reads this, buffer
    {
      if buffer == null || size == 0 then count == 0
      else buffer.Length == size && front < size && back < size && count <= size && back == (front + count) % size
    }

    /** The queue the ring stands for. */
    ghost function Queue(): Fifo
      requires Valid()
      reads this, buffer
    {
      if buffer == null || size == 0 then Unusable else Fifo(RingItems(buffer[..], front, count), size)
    }

    /** A buffer that was never initialised, in cleared memory. */
    constructor ()
      ensures Valid() && Queue() == Unusable
    {
      buffer, size, count, front, back, csreg := null, 0, 0, 0, 0, 0;
    }

    method EnterAtomic(cpu: Cpu)
      modifies this`csreg, cpu
      ensures csreg == old(cpu.sreg) && !cpu.InterruptsOn()
    {
      csreg := cpu.sreg;
      cpu.DisableInterrupts();
    }

    method ExitAtomic(cpu: Cpu)
      modifies cpu
      ensures cpu.sreg == csreg
    {
      cpu.sreg := csreg;
    }

    /** `granted` tells whether the allocator had room. */
    method InitBuffer(size: u16, granted: bool)
      modifies this
      ensures Valid() && Queue() == Start(size, granted)
      ensures Queue() == if granted && size > 0 then Fifo([], size) else Unusable
      ensures buffer != null ==> fresh(buffer)
    {
      if granted {
        buffer := new byte[size](_ => 0);
      } else {
        buffer := null;
      }
      count := 0;
      front := 0;
      back := 0;
      this.size := size;
    }

    /** Whatever the result, the status register is as it was. */
    method WriteBuffer(cpu: Cpu, data: byte) returns (result: BufferResult)
      requires Valid()
      modifies this, buffer, cpu
      ensures Valid() && buffer == old(buffer)
      ensures var (queue, outcome) := Apply(old(Queue()), Write(data));
              Queue() == queue && result == outcome.result
      ensures var q := old(Queue());
              && (result == BUFFER_OK <==> q.Fifo? && |q.items| < q.capacity)
              && (result == BUFFER_FULL <==> q.Fifo? && |q.items| >= q.capacity)
              && (result == BUFFER_INVALID <==> q.Unusable?)
              && Queue() == if result == BUFFER_OK then Fifo(q.items + [data], q.capacity) else q
      ensures cpu.sreg == old(cpu.sreg)
    {
      EnterAtomic(cpu);
      if buffer == null || size == 0 {
        ExitAtomic(cpu);
        return BUFFER_INVALID;
      }
      if count >= size {
        ExitAtomic(cpu);
        return BUFFER_FULL;
      }
      RingAppend(buffer[..], front, count, data);
      BackMoves(size, front, count);
      ghost var block := buffer[..];
      buffer[back] := data;
      assert buffer[..] == block[back := data];
      assert back + 1 < 0x1_0000 && count + 1 < 0x1_0000;  // 16-bit unsigned int: no wrap-around
      back := (back + 1) % size;
      count := count + 1;
      ExitAtomic(cpu);
      return BUFFER_OK;
    }

    /** `data` is the caller's variable, written only if a byte was read. */
    method ReadBuffer(cpu: Cpu, data0: byte) returns (result: BufferResult, data: byte)
      requires Valid()
      modifies this, cpu
      ensures Valid() && buffer == old(buffer)
      ensures var (queue, outcome) := Apply(old(Queue()), Read);
              && Queue() == queue && result == outcome.result
              && data == if outcome.byteRead == [] then data0 else outcome.byteRead[0]
      ensures var q := old(Queue());
              && (result == BUFFER_OK <==> q.Fifo? && |q.items| > 0)
              && (result == BUFFER_EMPTY <==> q.Fifo? && |q.items| == 0)
              && (result == BUFFER_INVALID <==> q.Unusable?)
              && if result == BUFFER_OK then data == q.items[0] && Queue() == Fifo(q.items[1..], q.capacity)
                 else data == data0 && Queue() == q
      ensures cpu.sreg == old(cpu.sreg)
    {
      hide RingItems;
      EnterAtomic(cpu);
      if buffer == null || size == 0 {
        ExitAtomic(cpu);
        return BUFFER_INVALID, data0;
      }
      if count == 0 {
        ExitAtomic(cpu);
        return BUFFER_EMPTY, data0;
      }
      RingAdvance(buffer[..], front, count);
      FrontMoves(size, front, count);
      data := buffer[front];
      assert front + 1 < 0x1_0000;
      front := (front + 1) % size;
      count := count - 1;
      ExitAtomic(cpu);
      return BUFFER_OK, data;
    }

    method FreeBuffer()
      requires Valid()
      modifies this
      ensures Valid() && Queue() == Apply(old(Queue()), Free).0 && buffer == null
    {
      buffer := null;
      size := 0;
      count := 0;
    }

    method DataAvailable() returns (available: bool)
      requires Valid()
      ensures available <==> Queue().Fifo? && Queue().items != []
    {
      available := count > 0;
    }
  }
}
