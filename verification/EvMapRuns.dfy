/** Runs of event adds and deletes, with and without the changelist. */
module EvMapRuns {
  import opened Bytes
  import opened EvMap

  datatype Op = AddEvent(fd: int, ev: Event) | DelEvent(fd: int, ev: Event) | Dispatch

  /** The events registered for each fd. */
  type Registry = map<int, seq<Event>>

  function Get(reg: Registry, fd: int): seq<Event> {
    if fd in reg then reg[fd] else []
  }

  /** A delete of an event that is not registered is not a call anyone makes. */
  function Step(reg: Registry, op: Op): Registry {
    match op
    case AddEvent(fd, ev) => if fd < 0 || TooMany(Get(reg, fd), ev) then reg else reg[fd := Get(reg, fd) + [ev]]
    case DelEvent(fd, ev) => if fd < 0 || ev !in Get(reg, fd) then reg else reg[fd := Without(Get(reg, fd), ev)]
    case Dispatch => reg
  }

  function Run(reg: Registry, ops: seq<Op>): Registry
    decreases |ops|
  {
    if ops == [] then reg else Run(Step(reg, ops[0]), ops[1..])
  }

  /** Reading if some event reads, and writing if some event writes. */
  function Wanted(es: seq<Event>): Mask {
    Mask(exists i | 0 <= i < |es| :: es[i].events.read, exists i | 0 <= i < |es| :: es[i].events.write)
  }

  lemma {:induction false} WantedByCount(es: seq<Event>)
    ensures Count(es).0 >= 0 && Count(es).1 >= 0
    ensures Wanted(es) == Mask(Count(es).0 > 0, Count(es).1 > 0)
  {
    if es != [] {
      WantedByCount(es[1..]);
      assert forall i | 1 <= i < |es| :: es[i] == es[1..][i - 1];
    }
  }

  ghost predicate Holds(base: EventBase, reg: Registry)
    reads base
  {
    base.Valid() && base.lost == {} && forall fd {:trigger Get(reg, fd)} :: base.Registered(fd) == Get(reg, fd)
  }

  method Call(base: EventBase, op: Op, ghost reg: Registry)
    requires Holds(base, reg)
    modifies base
    ensures Holds(base, Step(reg, op))
  {
    ghost var next := Step(reg, op);
    match op
    case AddEvent(fd, ev) =>
      assert base.Registered(fd) == Get(reg, fd);
      var r := base.IoAdd(fd, ev);
      forall g
        ensures base.Registered(g) == Get(next, g)
      {
        assert Get(next, g) == if g == fd && r >= 0 && fd >= 0 then Get(reg, fd) + [ev] else Get(reg, g);
      }
    case DelEvent(fd, ev) =>
      assert base.Registered(fd) == Get(reg, fd);
      if fd < 0 || ev in base.Registered(fd) {
        var r := base.IoDel(fd, ev);
        forall g
          ensures base.Registered(g) == Get(next, g)
        {
          assert Get(next, g) == if g == fd && fd >= 0 then Without(Get(reg, fd), ev) else Get(reg, g);
        }
      }
    case Dispatch => base.Dispatch();
  }

  method Calls(base: EventBase, ops: seq<Op>, ghost reg: Registry)
    requires Holds(base, reg)
    modifies base
    ensures Holds(base, Run(reg, ops))
  {
    hide Step;
    ghost var now := reg;
    var i := 0;
    assert ops[0..] == ops;
    while i < |ops|
      invariant 0 <= i <= |ops| && Holds(base, now) && Run(now, ops[i..]) == Run(reg, ops)
    {
      assert ops[i..][1..] == ops[i + 1..];
      Call(base, ops[i], now);
      now := Step(now, ops[i]);
      i := i + 1;
    }
  }

  /** After a dispatch the kernel watches exactly what the registered events want. */
  lemma KernelIsWanted(base: EventBase, reg: Registry, fd: nat)
    requires Holds(base, reg) && base.changes == []
    ensures Watched(base.kernel, fd) == Wanted(Get(reg, fd))
    ensures fd in base.kernel <==> Wanted(Get(reg, fd)).Any()
  {
    WantedByCount(Get(reg, fd));
    var s := SlotOf(base.entries, fd);
    assert base.Registered(fd) == Get(reg, fd);
    if s.Some? {
      assert SlotCounted(s.value);
    }
    assert Told(base.entries, base.changes, fd) == Interest(s);
  }

  /** Any run of adds, deletes and dispatches, followed by a dispatch, leaves the
      kernel with the same interest whether changes are queued and coalesced or
      told at once: for each fd, what its registered events want. */
  method Compare(ops: seq<Op>) returns (queued: EventBase, immediate: EventBase)
    ensures queued.queueing && !immediate.queueing
    ensures queued.kernel == immediate.kernel
    ensures forall fd: nat :: Watched(queued.kernel, fd) == Wanted(Get(Run(map[], ops), fd))
  {
    queued := new EventBase(true);
    immediate := new EventBase(false);
    Calls(queued, ops, map[]);
    Calls(immediate, ops, map[]);
    queued.Dispatch();
    immediate.Dispatch();
    forall fd: nat
      ensures Watched(queued.kernel, fd) == Wanted(Get(Run(map[], ops), fd))
      ensures fd in queued.kernel <==> fd in immediate.kernel
      ensures fd in queued.kernel ==> queued.kernel[fd] == immediate.kernel[fd]
    {
      KernelIsWanted(queued, Run(map[], ops), fd);
      KernelIsWanted(immediate, Run(map[], ops), fd);
    }
    assert queued.kernel.Keys == immediate.kernel.Keys;
  }

  /** An fd that was closed and opened again is watched after the next dispatch if
      its events were deleted and one of them was added again before. */
  method Reopen(base: EventBase, fd: nat, ev: Event)
    requires base.Valid() && base.Registered(fd) == [ev] && ev.events.Any()
    modifies base
    ensures base.Valid() && base.Registered(fd) == [ev]
    ensures Watched(base.kernel, fd) == ev.events && fd !in base.lost
  {
    base.Close(fd);
    var r := base.IoDel(fd, ev);
    assert base.Registered(fd) == [] && [ev][1..] == [];
    r := base.IoAdd(fd, ev);
    base.Dispatch();
    ghost var s := SlotOf(base.entries, fd);
    assert SlotCounted(s.value);
  }
}
