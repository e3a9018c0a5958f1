/** The interrupt-fed ring buffer of kernel/src/all/kernel/ringbuffer.c, with 32-bit positions that wrap. */
module RingBuffer {
  import opened Words
  import Division

  // ----- positions

  lemma ModShift(t: int, r: int, n: int)
    requires n > 0
    ensures (t * n + r) % n == r % n
  {
    Division.FloorOfDivision(r, n);
    Division.FloorOfDivision(t * n + r, n);
    var f := r / n;
    assert (t + f) * n == t * n + f * n;
    Division.FloorUnique(t * n + r, n, t + f, (t * n + r) / n);
  }

  /** Wrapping at 2^32 does not disturb the slot when the size divides 2^32. */
  lemma SlotOfWrapped(k: nat, n: nat)
    requires n > 0 && TWO_32 % n == 0
    ensures ToU32(k) % n == k % n
  {
    var c, q := TWO_32 / n, k / TWO_32;
    assert TWO_32 == c * n;
    assert k == q * TWO_32 + ToU32(k);
    assert q * TWO_32 == q * c * n by { assert q * (c * n) == q * c * n; }
    ModShift(q * c, ToU32(k), n);
  }

  /** Positions less than a full turn apart use different slots. */
  lemma SlotsDiffer(a: nat, b: nat, n: nat)
    requires b < a < b + n
    ensures a % n != b % n
  {
    Division.FloorOfDivision(a, n);
    Division.FloorOfDivision(b, n);
    var p, q := a / n, b / n;
    assert a == p * n + a % n && b == q * n + b % n;
    Division.MulOrder(p, q, n);
    Division.MulOrder(q, p, n);
  }

  lemma SlotApart(tail: uint32, k: nat, count: nat, n: nat)
    requires k < count < n && TWO_32 % n == 0
    ensures Slot(tail + k, n) != Slot(tail + count, n)
  {
    SlotOfWrapped(tail + k, n);
    SlotOfWrapped(tail + count, n);
    SlotsDiffer(tail + count, tail + k, n);
  }

  /** The index OFFSET computes for a position. */
  function Slot(position: int, n: nat): (i: nat)
    requires n > 0
    ensures i < n
  {
    ToU32(position) % n
  }

  /** The `count` elements from position `tail` on, oldest first. */
  function Queue<T>(buf: seq<T>, tail: int, count: nat, n: nat): (q: seq<T>)
    requires |buf| == n > 0
    ensures |q| == count && forall k :: 0 <= k < count ==> q[k] == buf[Slot(tail + k, n)]
  {
    seq(count, k requires 0 <= k => buf[Slot(tail + k, n)])
  }

  lemma QueuePut<T>(buf: seq<T>, tail: uint32, count: nat, n: nat, x: T)
    requires |buf| == n > 0 && TWO_32 % n == 0 && count < n
    ensures Queue(buf[Slot(tail + count, n) := x], tail, count + 1, n) == Queue(buf, tail, count, n) + [x]
  {
    hide Queue, Slot;
    var a, b := Queue(buf[Slot(tail + count, n) := x], tail, count + 1, n), Queue(buf, tail, count, n) + [x];
    forall k | 0 <= k < count + 1 ensures a[k] == b[k] {
      if k < count {
        SlotApart(tail, k, count, n);
      }
    }
    assert a == b;
  }

  lemma QueueGet<T>(buf: seq<T>, tail: uint32, count: nat, n: nat)
    requires |buf| == n > 0 && count > 0
    ensures Queue(buf, tail, count, n) == [buf[Slot(tail, n)]] + Queue(buf, ToU32(tail + 1), count - 1, n)
  {
    hide Queue, Slot, ToU32;
    var a, b := Queue(buf, tail, count, n), [buf[Slot(tail, n)]] + Queue(buf, ToU32(tail + 1), count - 1, n);
    forall k | 0 <= k < count ensures a[k] == b[k] {
      if k > 0 {
        SlotNext(tail, k - 1, n);
      }
    }
    assert a == b;
  }

  lemma SlotNext(tail: uint32, k: nat, n: nat)
    requires n > 0
    ensures Slot(ToU32(tail + 1) + k, n) == Slot(tail + (k + 1), n)
  {
    assert ToU32(ToU32(tail + 1) + k) == ToU32(tail + 1 + k);
  }

  /** Counting through the wrap. */
  lemma Positions(head: uint32, tail: uint32)
    ensures ToU32(tail) == tail && ToU32(tail + ToU32(head - tail)) == head
    ensures ToU32(head - tail) == 0 <==> head == tail
    ensures ToU32(head - tail) < TWO_32 - 1 ==> ToU32(ToU32(head + 1) - tail) == ToU32(head - tail) + 1
    ensures head != tail ==> ToU32(head - ToU32(tail + 1)) == ToU32(head - tail) - 1
  {
    hide ToU32;
    Distance(head, tail);
    NextHead(head, tail);
    NextTail(head, tail);
  }

  /** The number of positions from tail to head, wrap or not. */
  lemma Distance(head: uint32, tail: uint32)
    ensures ToU32(tail) == tail && ToU32(head - tail) == if head >= tail then head - tail else head - tail + TWO_32
    ensures ToU32(tail + ToU32(head - tail)) == head
  {
  }

  lemma NextHead(head: uint32, tail: uint32)
    ensures ToU32(head + 1) == if head == TWO_32 - 1 then 0 else head + 1
    ensures ToU32(head - tail) < TWO_32 - 1 ==> ToU32(ToU32(head + 1) - tail) == ToU32(head - tail) + 1
  {
    hide ToU32;
    Distance(head, tail);
    Successor(head);
    Distance(ToU32(head + 1), tail);
  }

  lemma NextTail(head: uint32, tail: uint32)
    ensures head != tail ==> ToU32(head - ToU32(tail + 1)) == ToU32(head - tail) - 1
  {
    hide ToU32;
    Distance(head, tail);
    Successor(tail);
    Distance(head, ToU32(tail + 1));
  }

  lemma Successor(x: uint32)
    ensures ToU32(x + 1) == if x == TWO_32 - 1 then 0 else x + 1
  {
  }

  // ----- the buffer used from one place

  class RingBuffer<T(0)> {
    const nbElems: uint32
    var buffer: array<T>
    var head: uint32
    var tail: uint32

    ghost predicate Valid()
      reads this
    {
      && nbElems > 0 && TWO_32 % nbElems == 0 && buffer.Length == nbElems
      && ToU32(head - tail) <= nbElems
    }

    /** The queue, oldest element first. */
    ghost function Contents(): (q: seq<T>)
      requires Valid()
      reads this, buffer
    {
      Queue(buffer[..], tail, ToU32(head - tail), nbElems)
    }

    constructor (nbElems: uint32, zero: T)
      requires nbElems > 0 && TWO_32 % nbElems == 0
      ensures Valid() && Contents() == [] && this.nbElems == nbElems && fresh(buffer)
    {
      this.nbElems := nbElems;
      buffer := new T[nbElems](i => zero);
      head, tail := 0, 0;
    }

    predicate Empty()
      reads this
    {
      head == tail
    }

    predicate Full()
      reads this
    {
      ToU32(head - tail) == nbElems
    }

    method Put(data: T) returns (r: int)
      requires Valid()
      modifies this`head, buffer
      ensures Valid() && buffer == old(buffer)
      ensures r == if old(|Contents()|) < nbElems then 0 else -1
      ensures Contents() == if r == 0 then old(Contents()) + [data] else old(Contents())
    {
      hide Queue, Slot, ToU32;
      if !Full() {
        ghost var count, buf := ToU32(head - tail), buffer[..];
        Positions(head, tail);
        SlotIs(tail + count, head, nbElems);
        buffer[ToU32(head) % nbElems] := data;
        assert buffer[..] == buf[Slot(tail + count, nbElems) := data];
        QueuePut(buf, tail, count, nbElems, data);
        head := ToU32(head + 1);
        r := 0;
      } else {
        r := -1;
      }
    }

    method Get() returns (r: int, data: T)
      requires Valid()
      modifies this`tail
      ensures Valid()
      ensures r == if old(Contents()) != [] then 0 else -1
      ensures r == 0 ==> [data] + Contents() == old(Contents())
      ensures r != 0 ==> Contents() == old(Contents())
    {
      hide Queue, Slot, ToU32;
      data := buffer[0];
      Positions(head, tail);
      if !Empty() {
        SlotIs(tail, tail, nbElems);
        QueueGet(buffer[..], tail, ToU32(head - tail), nbElems);
        data := buffer[ToU32(tail) % nbElems];
        tail := ToU32(tail + 1);
        r := 0;
      } else {
        r := -1;
      }
    }
  }

  lemma SlotIs(position: int, wrapped: uint32, n: nat)
    requires n > 0 && ToU32(position) == wrapped
    ensures Slot(position, n) == ToU32(wrapped) % n
  {
  }
}

/** The same buffer between one producer and one consumer that interleave between check, copy and publish. */
module RingProtocol {
  import opened Words
  import opened RingBuffer

  datatype Producer<T> = Idle | Checked(data: T) | Copied(data: T)
  datatype Consumer<T> = Waiting | Claimed | Read(data: T)

  /** accepted and consumed are the histories of published puts and finished gets. */
  datatype State<T> = State(buffer: seq<T>, head: uint32, tail: uint32, producer: Producer<T>, consumer: Consumer<T>,
                            accepted: seq<T>, consumed: seq<T>)

  datatype Op<T> = PutCheck(data: T) | PutCopy | PutPublish | GetCheck | GetCopy | GetPublish

  /** One step of either side; a step that is not next for its side does nothing. */
  function Step<T>(n: nat, s: State<T>, op: Op<T>): (s': State<T>)
    requires |s.buffer| == n > 0
    ensures |s'.buffer| == n
  {
    match op
    case PutCheck(x) => if s.producer.Idle? && ToU32(s.head - s.tail) != n then s.(producer := Checked(x)) else s
    case PutCopy =>
      if s.producer.Checked?
      then s.(buffer := s.buffer[Slot(s.head, n) := s.producer.data], producer := Copied(s.producer.data)) else s
    case PutPublish =>
      if s.producer.Copied?
      then s.(head := ToU32(s.head + 1), producer := Idle, accepted := s.accepted + [s.producer.data]) else s
    case GetCheck => if s.consumer.Waiting? && s.head != s.tail then s.(consumer := Claimed) else s
    case GetCopy => if s.consumer.Claimed? then s.(consumer := Read(s.buffer[Slot(s.tail, n)])) else s
    case GetPublish =>
      if s.consumer.Read?
      then s.(tail := ToU32(s.tail + 1), consumer := Waiting, consumed := s.consumed + [s.consumer.data]) else s
  }

  function Run<T>(n: nat, s: State<T>, ops: seq<Op<T>>): (s': State<T>)
    requires |s.buffer| == n > 0
    ensures |s'.buffer| == n
  {
    if ops == [] then s else Step(n, Run(n, s, ops[..|ops| - 1]), ops[|ops| - 1])
  }

  predicate Initial<T(==)>(n: nat, s: State<T>) {
    |s.buffer| == n > 0 && s.head == s.tail == 0 && s.producer == Idle && s.consumer == Waiting && s.accepted == s.consumed == []
  }

  /** What is promised: the consumer sees a prefix of what was accepted, and at most n elements wait. */
  predicate Faithful<T(==)>(n: nat, s: State<T>) {
    s.consumed <= s.accepted && |s.accepted| - |s.consumed| <= n
  }

  // ----- the invariant

  ghost predicate Inv<T>(n: nat, s: State<T>) {
    var a, c := |s.accepted|, |s.consumed|;
    && 0 < n < TWO_32 && TWO_32 % n == 0 && |s.buffer| == n
    && s.head == ToU32(a) && s.tail == ToU32(c)
    && s.consumed <= s.accepted && a - c <= n
    && (forall k :: c <= k < a ==> s.buffer[Slot(k, n)] == s.accepted[k])
    && (!s.producer.Idle? ==> a - c < n)
    && (s.producer.Copied? ==> s.buffer[Slot(a, n)] == s.producer.data)
    && (!s.consumer.Waiting? ==> c < a)
    && (s.consumer.Read? ==> s.consumer.data == s.accepted[c])
  }

  /** The wrapped difference is the true number of waiting elements. */
  lemma Occupancy(a: nat, c: nat)
    requires 0 <= a - c < TWO_32
    ensures ToU32(ToU32(a) - ToU32(c)) == a - c
    ensures ToU32(a) == ToU32(c) <==> a == c
  {
  }

  lemma WrapNext(a: nat, n: nat)
    requires n > 0
    ensures ToU32(ToU32(a) + 1) == ToU32(a + 1) && Slot(ToU32(a), n) == Slot(a, n)
  {
  }

  lemma WaitingSlots(a: nat, k: nat, n: nat)
    requires n > 0 && TWO_32 % n == 0 && k < a < k + n
    ensures Slot(a, n) != Slot(k, n)
  {
    SlotOfWrapped(a, n);
    SlotOfWrapped(k, n);
    SlotsDiffer(a, k, n);
  }

  lemma StepKeepsInv<T>(n: nat, s: State<T>, op: Op<T>)
    requires Inv(n, s)
    ensures Inv(n, Step(n, s, op))
  {
    hide Slot, ToU32;
    var a, c := |s.accepted|, |s.consumed|;
    Occupancy(a, c);
    WrapNext(a, n);
    WrapNext(c, n);
    if op.PutCopy? && s.producer.Checked? {
      forall k | c <= k < a ensures Slot(a, n) != Slot(k, n) {
        WaitingSlots(a, k, n);
      }
    }
  }

  lemma {:induction false} RunKeepsInv<T>(n: nat, s: State<T>, ops: seq<Op<T>>)
    requires Inv(n, s)
    ensures Inv(n, Run(n, s, ops))
  {
    if ops != [] {
      RunKeepsInv(n, s, ops[..|ops| - 1]);
      StepKeepsInv(n, Run(n, s, ops[..|ops| - 1]), ops[|ops| - 1]);
    }
  }

  /** With a size that divides 2^32, every interleaving is faithful, through any number of wraps. */
  lemma AlwaysFaithful<T>(n: nat, s: State<T>, ops: seq<Op<T>>)
    requires Initial(n, s) && n < TWO_32 && TWO_32 % n == 0
    ensures Faithful(n, Run(n, s, ops))
    ensures Run(n, s, ops).consumed <= Run(n, s, ops).accepted && |Run(n, s, ops).accepted| - |Run(n, s, ops).consumed| <= n
  {
    RunKeepsInv(n, s, ops);
  }

  // ----- every put with room goes in, every get with something to get comes out

  /**
   * In every reachable state, whatever the other side is in the middle of, an idle producer is let in exactly
   * when fewer than n elements wait, and a waiting consumer exactly when one does.
   */
  lemma LetIn<T>(n: nat, s0: State<T>, ops: seq<Op<T>>, x: T)
    requires Initial(n, s0) && n < TWO_32 && TWO_32 % n == 0
    ensures var s := Run(n, s0, ops);
      && (s.producer.Idle? ==>
            Step(n, s, PutCheck(x)) == if |s.accepted| - |s.consumed| < n then s.(producer := Checked(x)) else s)
      && (s.consumer.Waiting? ==>
            Step(n, s, GetCheck) == if |s.consumed| < |s.accepted| then s.(consumer := Claimed) else s)
  {
    hide Run, Slot, ToU32;
    InitialInv(n, s0);
    RunKeepsInv(n, s0, ops);
    var s := Run(n, s0, ops);
    Occupancy(|s.accepted|, |s.consumed|);
  }

  predicate OfProducer<T>(op: Op<T>) { op.PutCheck? || op.PutCopy? || op.PutPublish? }

  /** The producer's, or the consumer's, own steps. */
  function Own<T>(ops: seq<Op<T>>, producer: bool): seq<Op<T>> {
    if ops == [] then []
    else
      var last := ops[|ops| - 1];
      Own(ops[..|ops| - 1], producer) + if OfProducer(last) == producer then [last] else []
  }

  /** A put that was let in, after none, one and both of its further steps, amid any steps of the consumer. */
  lemma {:induction false} PutPhase<T>(n: nat, s: State<T>, x: T, ops: seq<Op<T>>)
    requires |s.buffer| == n > 0 && s.producer == Checked(x)
    ensures var s' := Run(n, s, ops);
      && (Own(ops, true) == [] ==> s'.producer == Checked(x) && s'.accepted == s.accepted)
      && (Own(ops, true) == [PutCopy] ==> s'.producer == Copied(x) && s'.accepted == s.accepted)
      && (Own(ops, true) == [PutCopy, PutPublish] ==> s'.producer == Idle && s'.accepted == s.accepted + [x])
  {
    hide Slot, ToU32;
    if ops != [] {
      var init := ops[..|ops| - 1];
      PutPhase(n, s, x, init);
      LastOwn(ops, true);
    }
  }

  lemma LastOwn<T>(ops: seq<Op<T>>, producer: bool)
    requires ops != []
    ensures var init, last := ops[..|ops| - 1], ops[|ops| - 1];
      && (OfProducer(last) != producer ==> Own(ops, producer) == Own(init, producer))
      && (OfProducer(last) == producer ==> Own(ops, producer) != [])
      && (OfProducer(last) == producer && |Own(ops, producer)| == 1 ==> Own(init, producer) == [] && Own(ops, producer) == [last])
      && (OfProducer(last) == producer && |Own(ops, producer)| == 2 ==>
            Own(init, producer) == [Own(ops, producer)[0]] && Own(ops, producer)[1] == last)
  {
  }

  /** A put for which there is room adds exactly its element to what is accepted. */
  lemma PutGoesIn<T>(n: nat, s0: State<T>, before: seq<Op<T>>, x: T, ops: seq<Op<T>>)
    requires Initial(n, s0) && n < TWO_32 && TWO_32 % n == 0
    requires Run(n, s0, before).producer.Idle? && Own(ops, true) == [PutCopy, PutPublish]
    requires |Run(n, s0, before).accepted| - |Run(n, s0, before).consumed| < n
    ensures Run(n, s0, before + [PutCheck(x)] + ops).accepted == Run(n, s0, before).accepted + [x]
  {
    hide Run, Step, Own, Initial;
    LetIn(n, s0, before, x);
    InitialBuffer(n, s0);
    var s := Run(n, s0, before);
    RunConcat(n, s0, before, [PutCheck(x)]);
    RunOne(n, s, PutCheck(x));
    RunConcat(n, s0, before + [PutCheck(x)], ops);
    PutPhase(n, Step(n, s, PutCheck(x)), x, ops);
  }

  lemma InitialBuffer<T>(n: nat, s: State<T>)
    requires Initial(n, s)
    ensures |s.buffer| == n > 0
  {
  }

  lemma RunOne<T>(n: nat, s: State<T>, op: Op<T>)
    requires |s.buffer| == n > 0
    ensures Run(n, s, [op]) == Step(n, s, op)
  {
    hide Step;
    assert [op][..0] == [];
    assert Run(n, s, []) == s;
  }

  /** The same for a get: it takes exactly the oldest element that waits. */
  lemma {:induction false} GetPhase<T>(n: nat, s: State<T>, ops: seq<Op<T>>)
    requires Inv(n, s) && s.consumer == Claimed
    ensures |s.consumed| < |s.accepted|
    ensures var s', x := Run(n, s, ops), s.accepted[|s.consumed|];
      && s.accepted <= s'.accepted
      && (Own(ops, false) == [] ==> s'.consumer == Claimed && s'.consumed == s.consumed)
      && (Own(ops, false) == [GetCopy] ==> s'.consumer == Read(x) && s'.consumed == s.consumed)
      && (Own(ops, false) == [GetCopy, GetPublish] ==> s'.consumer == Waiting && s'.consumed == s.consumed + [x])
  {
    hide Slot, ToU32, Inv, Step, Own;
    Oldest(n, s);
    NoneOwn<T>(false);
    if ops != [] {
      var init, last := ops[..|ops| - 1], ops[|ops| - 1];
      GetPhase(n, s, init);
      RunKeepsInv(n, s, init);
      Oldest(n, Run(n, s, init));
      ConsumerStep(n, Run(n, s, init), last);
      LastOwn(ops, false);
    }
  }

  lemma NoneOwn<T>(producer: bool)
    ensures Own<T>([], producer) == []
  {
  }

  /** What a step means to the consumer. */
  lemma ConsumerStep<T>(n: nat, s: State<T>, op: Op<T>)
    requires |s.buffer| == n > 0
    ensures var s' := Step(n, s, op);
      && s.accepted <= s'.accepted
      && (OfProducer(op) ==> s'.consumer == s.consumer && s'.consumed == s.consumed)
      && (op.GetCopy? && s.consumer.Claimed? ==> s'.consumer == Read(s.buffer[Slot(s.tail, n)]) && s'.consumed == s.consumed)
      && (op.GetPublish? && s.consumer.Read? ==> s'.consumer == Waiting && s'.consumed == s.consumed + [s.consumer.data])
  {
  }

  /** What a claimed get is about to copy. */
  lemma Oldest<T>(n: nat, s: State<T>)
    requires Inv(n, s)
    ensures s.consumed <= s.accepted && |s.buffer| == n > 0
    ensures s.consumer == Claimed ==> |s.consumed| < |s.accepted| && s.buffer[Slot(s.tail, n)] == s.accepted[|s.consumed|]
  {
    WrapNext(|s.consumed|, n);
  }

  /** A get for which something waits takes exactly the oldest element. */
  lemma GetComesOut<T>(n: nat, s0: State<T>, before: seq<Op<T>>, x: T, ops: seq<Op<T>>)
    requires Initial(n, s0) && n < TWO_32 && TWO_32 % n == 0
    requires Run(n, s0, before).consumer.Waiting? && Own(ops, false) == [GetCopy, GetPublish]
    requires |Run(n, s0, before).consumed| < |Run(n, s0, before).accepted|
    ensures var s := Run(n, s0, before);
      Run(n, s0, before + [GetCheck] + ops).consumed == s.consumed + [s.accepted[|s.consumed|]]
  {
    hide Run, Step, Own, Initial, Inv;
    LetIn(n, s0, before, x);
    InitialInv(n, s0);
    var s := Run(n, s0, before);
    RunKeepsInv(n, s0, before);
    StepKeepsInv(n, s, GetCheck);
    RunConcat(n, s0, before, [GetCheck]);
    RunOne(n, s, GetCheck);
    RunConcat(n, s0, before + [GetCheck], ops);
    GetPhase(n, Step(n, s, GetCheck), ops);
  }

  lemma InitialInv<T>(n: nat, s: State<T>)
    requires Initial(n, s) && n < TWO_32 && TWO_32 % n == 0
    ensures Inv(n, s) && |s.buffer| == n > 0
  {
  }

  // ----- and with any other size some run is not

  lemma {:induction false} RunConcat<T>(n: nat, s: State<T>, a: seq<Op<T>>, b: seq<Op<T>>)
    requires |s.buffer| == n > 0
    ensures Run(n, s, a + b) == Run(n, Run(n, s, a), b)
  {
    hide Step;
    if b == [] {
      assert a + b == a;
    } else {
      var b' := b[..|b| - 1];
      RunConcat(n, s, a, b');
      assert (a + b)[..|a + b| - 1] == a + b';
    }
  }

  function Put<T>(x: T): seq<Op<T>> { [PutCheck(x), PutCopy, PutPublish] }
  function Get<T>(): seq<Op<T>> { [GetCheck, GetCopy, GetPublish] }

  predicate Quiet<T(==)>(n: nat, s: State<T>) {
    |s.buffer| == n > 0 && s.producer.Idle? && s.consumer.Waiting?
  }

  lemma RunThree<T>(n: nat, s: State<T>, a: Op<T>, b: Op<T>, c: Op<T>)
    requires |s.buffer| == n > 0
    ensures Run(n, s, [a, b, c]) == Step(n, Step(n, Step(n, s, a), b), c)
  {
    hide Step;
    assert [a, b, c][..2] == [a, b] && [a, b][..1] == [a] && [a][..0] == [];
    assert Run(n, s, [a]) == Step(n, Run(n, s, []), a);
    assert Run(n, s, [a, b]) == Step(n, Run(n, s, [a]), b);
  }

  lemma PutRuns<T>(n: nat, s: State<T>, x: T)
    requires Quiet(n, s) && ToU32(s.head - s.tail) != n
    ensures Run(n, s, Put(x)) ==
      s.(buffer := s.buffer[Slot(s.head, n) := x], head := ToU32(s.head + 1), accepted := s.accepted + [x])
  {
    hide Run, ToU32, Slot;
    RunThree(n, s, PutCheck(x), PutCopy, PutPublish);
  }

  lemma GetRuns<T>(n: nat, s: State<T>)
    requires Quiet(n, s) && s.head != s.tail
    ensures Run(n, s, Get()) == s.(tail := ToU32(s.tail + 1), consumed := s.consumed + [s.buffer[Slot(s.tail, n)]])
  {
    hide Run, ToU32, Slot;
    RunThree(n, s, GetCheck, GetCopy, GetPublish);
  }

  lemma RunNothing<T>(n: nat, s: State<T>)
    requires |s.buffer| == n > 0
    ensures Run(n, s, []) == s
  {
  }

  lemma SmallWord(k: uint32)
    ensures ToU32(k) == k && ToU32(k - k) == 0
    ensures k > 0 ==> ToU32(k - 1 - (k - 1)) == 0
  {
  }

  /** k elements passed through one at a time. */
  lemma {:induction false} PassThrough<T>(n: nat, s: State<T>, x: T, k: nat) returns (ops: seq<Op<T>>)
    requires Initial(n, s) && k < TWO_32
    ensures var s' := Run(n, s, ops);
      Quiet(n, s') && s'.head == s'.tail == k && s'.accepted == s'.consumed && |s'.accepted| == k
  {
    hide Step, Run, Slot, ToU32, Put, Get;
    RunNothing(n, s);
    SmallWord(k);
    if k == 0 {
      ops := [];
    } else {
      var before := PassThrough(n, s, x, k - 1);
      var s0 := Run(n, s, before);
      PutRuns(n, s0, x);
      var s1 := Run(n, s0, Put(x));
      GetRuns(n, s1);
      RunConcat(n, s, before, Put(x));
      RunConcat(n, s, before + Put(x), Get());
      ops := before + Put(x) + Get();
    }
  }

  /** k elements put on top of an empty buffer, with room to spare. */
  lemma {:induction false} Fill<T>(n: nat, s: State<T>, x: T, k: nat) returns (ops: seq<Op<T>>)
    requires Quiet(n, s) && s.head == s.tail && k <= n < TWO_32
    ensures var s' := Run(n, s, ops);
      && Quiet(n, s') && s'.tail == s.tail && s'.head == ToU32(s.tail + k) && s'.consumed == s.consumed
      && s.accepted <= s'.accepted && |s'.accepted| == |s.accepted| + k
      && (k > 0 ==> s'.accepted[|s.accepted|] == x)
  {
    hide Step, Run, Slot, ToU32, Put, Get;
    RunNothing(n, s);
    SmallWord(s.tail);
    if k == 0 {
      ops := [];
    } else {
      var before := Fill(n, s, x, k - 1);
      var s0 := Run(n, s, before);
      HeadAfter(s.tail, k, n);
      PutRuns(n, s0, x);
      RunConcat(n, s, before, Put(x));
      ops := before + Put(x);
    }
  }

  lemma HeadAfter(tail: uint32, k: nat, n: nat)
    requires 0 < k <= n < TWO_32
    ensures ToU32(ToU32(tail + k - 1) - tail) == k - 1 && ToU32(ToU32(tail + k - 1) + 1) == ToU32(tail + k)
  {
  }

  /** The last multiple of n at or below 2^32 and the distance to 2^32. */
  lemma LastMultiple(n: nat) returns (q: nat, r: nat)
    requires 0 < n < TWO_32 && TWO_32 % n != 0
    ensures q < TWO_32 && q + r == TWO_32 && 0 < r < n && q % n == 0
  {
    q, r := TWO_32 / n * n, TWO_32 % n;
    ModShift(TWO_32 / n, 0, n);
  }

  /**
   * When n does not divide 2^32, the slots jump at the wrap: position 2^32 reuses the slot of the last
   * multiple of n below it, which can still be unread.
   */
  lemma Unfaithful<T>(n: nat, s: State<T>, x: T, y: T) returns (ops: seq<Op<T>>)
    requires Initial(n, s) && n < TWO_32 && TWO_32 % n != 0 && x != y
    ensures !Faithful(n, Run(n, s, ops))
  {
    hide Step, Run, Slot, ToU32, Put, Get;
    var q, r := LastMultiple(n);
    var a := PassThrough(n, s, x, q);
    var s1 := Run(n, s, a);
    var b := Fill(n, s1, x, r);
    var s2 := Run(n, s1, b);
    AtWrap(q, r, n);
    PutRuns(n, s2, y);
    var s3 := Run(n, s2, Put(y));
    GetRuns(n, s3);
    var s4 := Run(n, s3, Get());
    RunConcat(n, s, a, b);
    RunConcat(n, s, a + b, Put(y));
    RunConcat(n, s, a + b + Put(y), Get());
    ops := a + b + Put(y) + Get();
    assert s4.consumed[q] == y && s4.accepted[q] == x;
  }

  lemma AtWrap(q: nat, r: nat, n: nat)
    requires n > 0 && q < TWO_32 && q + r == TWO_32 && 0 < r < n < TWO_32 && q % n == 0
    ensures ToU32(q + r) == 0 && ToU32(0 - q) == r && Slot(0, n) == 0 && Slot(q, n) == 0
    ensures ToU32(0 + 1) == 1 && q != 1
  {
    hide ToU32;
    FullTurn(q, r);
    SmallWord(0);
    SmallWord(q);
    SmallWord(1);
    ModShift(0, 0, n);
    OneIsNoMultiple(n);
  }

  lemma FullTurn(q: nat, r: nat)
    requires q < TWO_32 && q + r == TWO_32 && 0 < r < TWO_32
    ensures ToU32(q + r) == 0 && ToU32(0 - q) == r
  {
  }

  lemma OneIsNoMultiple(n: nat)
    requires n > 0
    ensures n > 1 ==> 1 % n == 1
    ensures 0 % n == 0
  {
  }

  /** Sizes that divide 2^32, the powers of two, are exactly those that are safe. */
  lemma FaithfulExactly<T(!new)>(n: nat, s: State<T>, x: T, y: T)
    requires Initial(n, s) && n < TWO_32 && x != y
    ensures (forall ops: seq<Op<T>> :: Faithful(n, Run(n, s, ops))) <==> TWO_32 % n == 0
  {
    hide Faithful, Run;
    if TWO_32 % n == 0 {
      forall ops: seq<Op<T>> ensures Faithful(n, Run(n, s, ops)) {
        AlwaysFaithful(n, s, ops);
      }
    } else {
      var bad := Unfaithful(n, s, x, y);
    }
  }
}
