/** Whole runs of evbuffer operations over two buffers, against plain byte queues. */
module EvBufferRuns {
  import opened Bytes
  import opened Chains
  import opened EvBuffers

  /** A buffer as its user sees it. */
  datatype Queue = Queue(bytes: seq<byte>, frozenFront: bool, frozenEnd: bool)

  /** Two queues, and the bytes removed or drained from them, in order. */
  datatype State = State(a: Queue, b: Queue, taken: seq<byte>)

  /** One call; `second` tells which buffer it is made on. */
  datatype Op =
    | Add(second: bool, data: seq<byte>)
    | Prepend(second: bool, data: seq<byte>)
    | Drain(second: bool, n: nat)
    | Remove(second: bool, n: nat)
    | Pullup(second: bool, size: int)
    | AddBuffer(second: bool)
    | PrependBuffer(second: bool)
    | RemoveBuffer(second: bool, n: nat)
    | Freeze(second: bool, front: bool, on: bool)

  /** What a call on the queue `q`, with `o` the other one, leaves of the two,
      and the bytes it takes out. */
  datatype Effect = Effect(q: Queue, o: Queue, taken: seq<byte>)

  function Shift(q: Queue, o: Queue, n: nat): Effect {
    if q.frozenFront then Effect(q, o, [])
    else
      var k := Min(n, |q.bytes|);
      Effect(q.(bytes := q.bytes[k..]), o, q.bytes[..k])
  }

  function StepOn(q: Queue, o: Queue, op: Op): Effect {
    match op
    case Add(_, data) => Effect(if q.frozenEnd then q else q.(bytes := q.bytes + data), o, [])
    case Prepend(_, data) => Effect(if q.frozenFront then q else q.(bytes := data + q.bytes), o, [])
    case Drain(_, n) => Shift(q, o, n)
    case Remove(_, n) => Shift(q, o, n)
    case Pullup(_, _) => Effect(q, o, [])
    case Freeze(_, front, on) => Effect(if front then q.(frozenFront := on) else q.(frozenEnd := on), o, [])
    case AddBuffer(_) =>
      if q.frozenEnd || o.frozenFront then Effect(q, o, [])
      else Effect(q.(bytes := q.bytes + o.bytes), o.(bytes := []), [])
    case PrependBuffer(_) =>
      if q.frozenFront || o.frozenFront then Effect(q, o, [])
      else Effect(q.(bytes := o.bytes + q.bytes), o.(bytes := []), [])
    case RemoveBuffer(_, n) =>
      if o.frozenEnd || q.frozenFront then Effect(q, o, [])
      else
        var k := Min(n, |q.bytes|);
        Effect(q.(bytes := q.bytes[k..]), o.(bytes := o.bytes + q.bytes[..k]), [])
  }

  /** What a call does to two plain queues. */
  function Step(s: State, op: Op): State {
    if op.second then
      var e := StepOn(s.b, s.a, op);
      State(e.o, e.q, s.taken + e.taken)
    else
      var e := StepOn(s.a, s.b, op);
      State(e.q, e.o, s.taken + e.taken)
  }

  function Run(s: State, ops: seq<Op>): State
    decreases |ops|
  {
    if ops == [] then s else Run(Step(s, ops[0]), ops[1..])
  }

  ghost predicate Sound(buf: EvBuffer)
    reads buf
  {
    buf.Valid() && Compact(buf.chains, buf.lastWithDatap.Index())
  }

  ghost function View(buf: EvBuffer): Queue
    reads buf
  {
    Queue(buf.Contents(), buf.freezeStart, buf.freezeEnd)
  }

  /** Makes one call that involves one buffer only. */
  method CallOne(op: Op, buf: EvBuffer) returns (removed: seq<byte>, ghost taken: seq<byte>)
    requires !op.AddBuffer? && !op.PrependBuffer? && !op.RemoveBuffer?
    requires Sound(buf)
    requires op.Add? || op.Prepend? ==> |op.data| <= MAX_ALLOC && buf.totalLen + |op.data| <= SIZE_MAX
    modifies buf
    ensures Sound(buf)
    ensures op.Remove? ==> removed == taken
    ensures forall o :: StepOn(old(View(buf)), o, op) == Effect(View(buf), o, taken)
  {
    hide Content;
    removed, taken := [], [];
    ghost var was := View(buf);
    match op
    case Add(_, data) => var r := buf.Add(data);
    case Prepend(_, data) => var r := buf.Prepend(data);
    case Drain(_, n) =>
      taken := if buf.freezeStart then [] else buf.Contents()[..Min(n, buf.totalLen)];
      var r := buf.Drain(n);
    case Remove(_, n) =>
      var r := buf.Remove(n);
      removed := if r.Some? then r.value else [];
      taken := removed;
    case Pullup(_, size) => var r := buf.Pullup(size);
    case Freeze(_, front, on) =>
      if front {
        buf.freezeStart := on;
      } else {
        buf.freezeEnd := on;
      }
  }

  /** Makes one call that moves bytes between two buffers. */
  method CallTwo(op: Op, buf: EvBuffer, other: EvBuffer)
    requires op.AddBuffer? || op.PrependBuffer? || op.RemoveBuffer?
    requires buf != other && Sound(buf) && Sound(other)
    requires buf.totalLen + other.totalLen <= SIZE_MAX
    modifies buf, other
    ensures Sound(buf) && Sound(other)
    ensures old(StepOn(View(buf), View(other), op)) == Effect(View(buf), View(other), [])
  {
    hide Content;
    match op
    case AddBuffer(_) => var r := buf.AddBuffer(other);
    case PrependBuffer(_) => var r := buf.PrependBuffer(other);
    case RemoveBuffer(_, n) => var r, _, _, _ := buf.RemoveBuffer(other, n);
  }

  /** The bytes that the calls offer. */
  function Offered(ops: seq<Op>): nat {
    if ops == [] then 0
    else (if ops[0].Add? || ops[0].Prepend? then |ops[0].data| else 0) + Offered(ops[1..])
  }

  /** The lengths of both queues after a call. */
  lemma StepSize(s: State, op: Op)
    ensures |Step(s, op).a.bytes| + |Step(s, op).b.bytes| <= |s.a.bytes| + |s.b.bytes| + Offered([op])
  {
    assert [op][1..] == [];
  }

  /** What the calls of evbuffer_remove return along a run. */
  function Removals(s: State, ops: seq<Op>): seq<seq<byte>>
    decreases |ops|
  {
    if ops == [] then []
    else Returned(s, ops[0]) + Removals(Step(s, ops[0]), ops[1..])
  }

  /** What a call of evbuffer_remove returns, as a list of at most one. */
  function Returned(s: State, op: Op): seq<seq<byte>> {
    if op.Remove? then [(if op.second then StepOn(s.b, s.a, op) else StepOn(s.a, s.b, op)).taken] else []
  }

  lemma UnfoldAt(s: State, ops: seq<Op>, i: nat)
    requires i < |ops|
    ensures Run(s, ops[i..]) == Run(Step(s, ops[i]), ops[i + 1..])
    ensures Removals(s, ops[i..]) == Returned(s, ops[i]) + Removals(Step(s, ops[i]), ops[i + 1..])
    ensures Offered(ops[i..]) == Offered([ops[i]]) + Offered(ops[i + 1..])
  {
    assert ops[i..][0] == ops[i] && ops[i..][1..] == ops[i + 1..] && [ops[i]][1..] == [];
  }

  /** Makes one call. */
  method Call(op: Op, a: EvBuffer, b: EvBuffer, ghost before: seq<byte>) returns (removed: seq<byte>, ghost after: seq<byte>)
    requires a != b && Sound(a) && Sound(b)
    requires a.totalLen + b.totalLen + Offered([op]) <= SIZE_MAX
    requires op.Add? || op.Prepend? ==> |op.data| <= MAX_ALLOC
    modifies a, b
    ensures Sound(a) && Sound(b)
    ensures State(View(a), View(b), after) == Step(old(State(View(a), View(b), before)), op)
    ensures op.Remove? ==> [removed] == Returned(old(State(View(a), View(b), before)), op)
  {
    hide Content;
    var buf, other := if op.second then b else a, if op.second then a else b;
    ghost var taken := [];
    removed := [];
    assert [op][1..] == [];
    if op.AddBuffer? || op.PrependBuffer? || op.RemoveBuffer? {
      CallTwo(op, buf, other);
    } else {
      ghost var o := View(other);
      ghost var t;
      removed, t := CallOne(op, buf);
      taken := t;
    }
    after := before + taken;
  }

  /** Every run of calls, from any two sound buffers, leaves the queues that the
      plain runs leave, and returns what they return. */
  method Calls(ops: seq<Op>, a: EvBuffer, b: EvBuffer) returns (results: seq<seq<byte>>, ghost taken: seq<byte>)
    requires a != b && Sound(a) && Sound(b)
    requires a.totalLen + b.totalLen + Offered(ops) <= SIZE_MAX
    requires forall i | 0 <= i < |ops| :: ops[i].Add? || ops[i].Prepend? ==> |ops[i].data| <= MAX_ALLOC
    modifies a, b
    ensures Sound(a) && Sound(b)
    ensures State(View(a), View(b), taken) == Run(old(State(View(a), View(b), [])), ops)
    ensures results == Removals(old(State(View(a), View(b), [])), ops)
  {
    hide Content, Run, Removals, Step, Offered, StepOn;
    ghost var start := State(View(a), View(b), []);
    taken := [];
    results := [];
    var i := 0;
    assert ops[0..] == ops;
    while i < |ops|
      invariant 0 <= i <= |ops| && Sound(a) && Sound(b)
      invariant a.totalLen + b.totalLen + Offered(ops[i..]) <= SIZE_MAX
      invariant Run(State(View(a), View(b), taken), ops[i..]) == Run(start, ops)
      invariant results + Removals(State(View(a), View(b), taken), ops[i..]) == Removals(start, ops)
    {
      ghost var s := State(View(a), View(b), taken);
      StepSize(s, ops[i]);
      UnfoldAt(s, ops, i);
      Assoc(results, Returned(s, ops[i]), Removals(Step(s, ops[i]), ops[i + 1..]));
      var removed;
      removed, taken := Call(ops[i], a, b, taken);
      results := results + if ops[i].Remove? then [removed] else [];
      i := i + 1;
    }
    NoneLeft(State(View(a), View(b), taken));
    assert ops[i..] == [];
  }

  lemma NoneLeft(s: State)
    ensures Run(s, []) == s && Removals(s, []) == []
  {
  }

  /** All bytes in play: those taken out, then `b`, then `a`. */
  function Stream(s: State): seq<byte> {
    s.taken + s.b.bytes + s.a.bytes
  }

  /** The bytes of a call that reach a queue. */
  function Entering(s: State, op: Op): seq<byte> {
    var q := if op.second then s.b else s.a;
    if (op.Add? && !q.frozenEnd) || (op.Prepend? && !q.frozenFront) then op.data else []
  }

  function Accepted(s: State, ops: seq<Op>): seq<byte>
    decreases |ops|
  {
    if ops == [] then [] else Entering(s, ops[0]) + Accepted(Step(s, ops[0]), ops[1..])
  }

  lemma MultisetJoin(x: seq<byte>, y: seq<byte>, z: seq<byte>)
    ensures multiset(x + y + z) == multiset(x) + multiset(y) + multiset(z)
  {
  }

  lemma MultisetSplit(x: seq<byte>, k: nat)
    requires k <= |x|
    ensures multiset(x[..k]) + multiset(x[k..]) == multiset(x)
  {
    TakeDrop(x, k);
  }

  lemma EffectConserves(q: Queue, o: Queue, op: Op)
    ensures var e := StepOn(q, o, op);
      multiset(e.q.bytes) + multiset(e.o.bytes) + multiset(e.taken) ==
      multiset(q.bytes) + multiset(o.bytes) +
      multiset(if (op.Add? && !q.frozenEnd) || (op.Prepend? && !q.frozenFront) then op.data else [])
  {
    match op
    case Drain(_, n) => MultisetSplit(q.bytes, Min(n, |q.bytes|));
    case Remove(_, n) => MultisetSplit(q.bytes, Min(n, |q.bytes|));
    case RemoveBuffer(_, n) => MultisetSplit(q.bytes, Min(n, |q.bytes|));
    case _ =>
  }

  lemma StepConserves(s: State, op: Op)
    ensures multiset(Stream(Step(s, op))) == multiset(Stream(s)) + multiset(Entering(s, op))
  {
    hide StepOn;
    var t := Step(s, op);
    var q, o := if op.second then s.b else s.a, if op.second then s.a else s.b;
    var e := StepOn(q, o, op);
    EffectConserves(q, o, op);
    MultisetJoin(s.taken, s.b.bytes, s.a.bytes);
    MultisetJoin(t.taken, t.b.bytes, t.a.bytes);
    var mt, me, mq, mo := multiset(s.taken), multiset(e.taken), multiset(e.q.bytes), multiset(e.o.bytes);
    assert multiset(t.taken) == mt + me;
    assert multiset(Stream(t)) == mt + (mq + mo + me);
    assert multiset(Stream(s)) == mt + (multiset(q.bytes) + multiset(o.bytes));
  }

  /** No run loses or duplicates a byte: what was there and what came in is what
      is there and what was taken out. */
  lemma {:induction false} RunConserves(s: State, ops: seq<Op>)
    ensures multiset(Stream(Run(s, ops))) == multiset(Stream(s)) + multiset(Accepted(s, ops))
    decreases |ops|
  {
    if ops != [] {
      StepConserves(s, ops[0]);
      RunConserves(Step(s, ops[0]), ops[1..]);
    }
  }

  /** A call of a pipe that is fed at the end of `a`, moved on to the end of `b`
      and emptied at the front of `b`. */
  predicate InPipe(op: Op) {
    match op
    case Add(second, _) => !second
    case AddBuffer(second) => second
    case RemoveBuffer(second, _) => !second
    case Drain(second, _) => second
    case Remove(second, _) => second
    case Pullup(_, _) => true
    case Freeze(_, _, _) => true
    case _ => false
  }

  lemma MoveOver(t: seq<byte>, b: seq<byte>, x: seq<byte>, k: nat)
    requires k <= |x|
    ensures t + (b + x[..k]) + x[k..] == t + b + x
  {
    TakeDrop(x, k);
    Assoc(t + b, x[..k], x[k..]);
    Assoc(t, b, x[..k]);
  }

  lemma MoveOut(s: State, op: Op, n: nat)
    requires op == Drain(true, n) || op == Remove(true, n)
    ensures Stream(Step(s, op)) == Stream(s)
  {
    var k := Min(n, |s.b.bytes|);
    TakeDrop(s.b.bytes, k);
    Assoc(s.taken, s.b.bytes[..k], s.b.bytes[k..]);
  }

  lemma StepKeepsOrder(s: State, op: Op)
    requires InPipe(op)
    ensures Stream(Step(s, op)) == Stream(s) + Entering(s, op)
  {
    match op
    case Add(_, data) => Assoc(s.taken + s.b.bytes, s.a.bytes, data);
    case AddBuffer(_) => MoveOver(s.taken, s.b.bytes, s.a.bytes, |s.a.bytes|);
    case RemoveBuffer(_, n) => MoveOver(s.taken, s.b.bytes, s.a.bytes, Min(n, |s.a.bytes|));
    case Drain(_, n) => MoveOut(s, op, n);
    case Remove(_, n) => MoveOut(s, op, n);
    case _ =>
  }

  /** A pipe delivers the bytes in the order they came in: at any time, what was
      taken out, what is in `b` and what is in `a` are the bytes so far, in order. */
  lemma {:induction false} PipeKeepsOrder(s: State, ops: seq<Op>)
    requires forall i | 0 <= i < |ops| :: InPipe(ops[i])
    ensures Stream(Run(s, ops)) == Stream(s) + Accepted(s, ops)
    decreases |ops|
  {
    if ops != [] {
      StepKeepsOrder(s, ops[0]);
      PipeKeepsOrder(Step(s, ops[0]), ops[1..]);
      Assoc(Stream(s), Entering(s, ops[0]), Accepted(Step(s, ops[0]), ops[1..]));
    }
  }
}
