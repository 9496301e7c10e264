/** The queues of an event base and its timers, on values: what keeps every list
    exact, every queue sorted, and every timer early enough. */
module EventTimers {
  import opened Bytes
  import opened EventLists

  /** A queue of events with a common timeout, and the internal event that stands for
      it in the heap. */
  datatype Ctl = Ctl(duration: nat, events: seq<Id>, timer: Id)

  datatype Queues = Queues(inserted: seq<Id>, active: seq<seq<Id>>, heap: seq<Id>, ctls: seq<Ctl>)

  predicate Exists(qs: Queues, l: List) {
    match l
    case InsertedList => true
    case ActiveList(p) => p < |qs.active|
    case Heap => true
    case CommonList(i) => i < |qs.ctls|
  }

  function Get(qs: Queues, l: List): seq<Id>
    requires Exists(qs, l)
  {
    match l
    case InsertedList => qs.inserted
    case ActiveList(p) => qs.active[p]
    case Heap => qs.heap
    case CommonList(i) => qs.ctls[i].events
  }

  function Put(qs: Queues, l: List, q: seq<Id>): (r: Queues)
    requires Exists(qs, l)
    ensures forall m :: Exists(qs, m) <==> Exists(r, m)
    ensures forall m | Exists(qs, m) :: Get(r, m) == if m == l then q else Get(qs, m)
  {
    match l
    case InsertedList => qs.(inserted := q)
    case ActiveList(p) => qs.(active := qs.active[p := q])
    case Heap => qs.(heap := q)
    case CommonList(i) => qs.(ctls := qs.ctls[i := qs.ctls[i].(events := q)])
  }

  /** Internal events have the most urgent priority. */
  predicate EventOk(e: Ev, qs: Queues) {
    && e.pri < |qs.active| && (e.internal ==> e.pri == 0)
    && (e.timeout.common.Some? ==> e.timeout.common.value < |qs.ctls|)
    && (e.interval.common.Some? ==> e.interval.common.value < |qs.ctls|)
  }

  /** Each flag of an event is set exactly while the event is on the list it is about. */
  ghost predicate Kept(qs: Queues, events: seq<Ev>) {
    && (forall l {:trigger Get(qs, l)} | Exists(qs, l) :: Lists(Get(qs, l), events, l))
    && (forall id: nat {:trigger events[id]} | id < |events| :: EventOk(events[id], qs))
  }

  lemma MembersExist(qs: Queues, events: seq<Ev>, l: List)
    requires Kept(qs, events) && Exists(qs, l)
    ensures forall i | 0 <= i < |Get(qs, l)| :: Get(qs, l)[i] < |events| && On(events[Get(qs, l)[i]], l)
  {
    hide On;
    assert Lists(Get(qs, l), events, l);
  }

  lemma KeptUpdate(qs: Queues, events: seq<Ev>, id: Id, e: Ev)
    requires Kept(qs, events) && id < |events| && EventOk(e, qs)
    requires forall l | Exists(qs, l) :: On(e, l) == On(events[id], l)
    ensures Kept(qs, events[id := e])
  {
    hide Lists, On, Get;
    forall l | Exists(qs, l)
      ensures Lists(Get(qs, l), events[id := e], l)
    {
      ListsSame(Get(qs, l), events, l, id, e);
    }
  }

  lemma PutOk(qs: Queues, l: List, q: seq<Id>, events: seq<Ev>)
    requires Exists(qs, l)
    requires forall id: nat {:trigger events[id]} | id < |events| :: EventOk(events[id], qs)
    ensures forall id: nat {:trigger events[id]} | id < |events| :: EventOk(events[id], Put(qs, l, q))
  {
  }

  lemma KeptInsert(qs: Queues, events: seq<Ev>, id: Id, k: Kind, at: nat)
    requires Kept(qs, events) && id < |events| && !Flag(events[id], k)
    requires Exists(qs, ListOf(events[id], k)) && at <= |Get(qs, ListOf(events[id], k))|
    ensures var l := ListOf(events[id], k);
      Kept(Put(qs, l, Insert(Get(qs, l), at, id)), events[id := WithFlag(events[id], k, true)])
  {
    hide Lists, Get, Put, Insert;
    var l := ListOf(events[id], k);
    var e := WithFlag(events[id], k, true);
    var r := Put(qs, l, Insert(Get(qs, l), at, id));
    forall m | Exists(r, m)
      ensures Lists(Get(r, m), events[id := e], m)
    {
      if m == l {
        ListsInsert(Get(qs, l), events, l, id, e, at);
      } else {
        ListsSame(Get(qs, m), events, m, id, e);
      }
    }
    PutOk(qs, l, Insert(Get(qs, l), at, id), events[id := e]);
  }

  predicate TimerOk(e: Ev) {
    e.internal && !e.io && !e.persist && e.timeout.common.None? && (e.active ==> TIMEOUT in e.res)
  }

  function Time(events: seq<Ev>, id: Id): nat {
    if id < |events| then events[id].timeout.usec else 0
  }

  predicate Sorted(q: seq<Id>, events: seq<Ev>) {
    forall a, b {:trigger q[a], q[b]} | 0 <= a < b < |q| :: Time(events, q[a]) <= Time(events, q[b])
  }

  predicate Timers(ctls: seq<Ctl>, events: seq<Ev>) {
    && (forall i {:trigger ctls[i].timer} | 0 <= i < |ctls| :: ctls[i].timer < |events| && TimerOk(events[ctls[i].timer]))
    && (forall i, j {:trigger ctls[i].timer, ctls[j].timer} | 0 <= i < j < |ctls| :: ctls[i].timer != ctls[j].timer)
    && (forall i {:trigger ctls[i].events} | 0 <= i < |ctls| :: Sorted(ctls[i].events, events))
  }

  lemma KeptRemove(qs: Queues, events: seq<Ev>, id: Id, k: Kind)
    requires Kept(qs, events) && id < |events|
    requires Exists(qs, ListOf(events[id], k))
    ensures var l := ListOf(events[id], k);
      Kept(Put(qs, l, Minus(Get(qs, l), id)), events[id := WithFlag(events[id], k, false)])
  {
    hide Lists, Get, Put, Minus;
    var l := ListOf(events[id], k);
    var e := WithFlag(events[id], k, false);
    var r := Put(qs, l, Minus(Get(qs, l), id));
    forall m | Exists(r, m)
      ensures Lists(Get(r, m), events[id := e], m)
    {
      if m == l {
        ListsRemove(Get(qs, l), events, l, id, e);
      } else {
        ListsSame(Get(qs, m), events, m, id, e);
      }
    }
    PutOk(qs, l, Minus(Get(qs, l), id), events[id := e]);
  }

  /** The internal timer of a queue that is not empty is active, or scheduled no later
      than the head of the queue. */
  predicate Armed(c: Ctl, events: seq<Ev>) {
    c.events != [] ==>
      c.timer < |events|
      && (events[c.timer].active || (events[c.timer].timed && Time(events, c.timer) <= Time(events, c.events[0])))
  }

  predicate IsTimer(ctls: seq<Ctl>, id: Id) {
    exists i {:trigger ctls[i].timer} :: 0 <= i < |ctls| && ctls[i].timer == id
  }

  /** Where insert_common_timeout_inorder puts an event that is due at `t`: behind the
      last one that is not due later. */
  function Place(q: seq<Id>, events: seq<Ev>, t: nat): (k: nat)
    ensures k <= |q|
  {
    if q == [] then 0
    else if Time(events, q[|q| - 1]) <= t then |q|
    else Place(q[..|q| - 1], events, t)
  }

  lemma {:induction false} PlaceIs(q: seq<Id>, events: seq<Ev>, t: nat)
    ensures var k := Place(q, events, t);
      (k > 0 ==> Time(events, q[k - 1]) <= t) && forall j | k <= j < |q| :: t < Time(events, q[j])
  {
    if q != [] && t < Time(events, q[|q| - 1]) {
      PlaceIs(q[..|q| - 1], events, t);
    }
  }

  lemma TimeAfter(events: seq<Ev>, id: Id, e: Ev, x: Id)
    requires id < |events|
    ensures Time(events[id := e], x) == if x == id then e.timeout.usec else Time(events, x)
  {
  }

  lemma SortedPlace(q: seq<Id>, events: seq<Ev>, id: Id, e: Ev)
    requires Sorted(q, events) && id < |events| && id !in q
    ensures Sorted(Insert(q, Place(q, events, e.timeout.usec), id), events[id := e])
  {
    hide Place, Time;
    var t := e.timeout.usec;
    var k := Place(q, events, t);
    var r := Insert(q, k, id);
    PlaceIs(q, events, t);
    forall a | 0 <= a < |r|
      ensures Time(events[id := e], r[a]) == if a == k then t else Time(events, q[if a < k then a else a - 1])
    {
      assert r[a] == if a == k then id else q[if a < k then a else a - 1];
      assert a != k ==> r[a] in q;
      TimeAfter(events, id, e, r[a]);
    }
    forall a, b | 0 <= a < b < |r|
      ensures Time(events[id := e], r[a]) <= Time(events[id := e], r[b])
    {
      assert b == k && a < k - 1 ==> Time(events, q[a]) <= Time(events, q[k - 1]);
    }
  }

  lemma SortedSame(q: seq<Id>, events: seq<Ev>, id: Id, e: Ev)
    requires Sorted(q, events) && id < |events| && (id !in q || e.timeout == events[id].timeout)
    ensures Sorted(q, events[id := e])
  {
    forall a, b | 0 <= a < b < |q|
      ensures Time(events[id := e], q[a]) <= Time(events[id := e], q[b])
    {
      assert q[a] in q && q[b] in q;
      assert Time(events, q[a]) <= Time(events, q[b]);
    }
  }

  lemma SortedCons(x: Id, r: seq<Id>, events: seq<Ev>)
    requires Sorted(r, events) && forall y | y in r :: Time(events, x) <= Time(events, y)
    ensures Sorted([x] + r, events)
  {
    var q := [x] + r;
    forall a, b | 0 <= a < b < |q|
      ensures Time(events, q[a]) <= Time(events, q[b])
    {
      assert q[b] == r[b - 1] && r[b - 1] in r;
      if a > 0 {
        assert q[a] == r[a - 1];
      }
    }
  }

  lemma {:induction false} SortedMinus(q: seq<Id>, events: seq<Ev>, id: Id)
    requires Sorted(q, events)
    ensures Sorted(Minus(q, id), events)
    ensures Minus(q, id) != [] ==> Time(events, q[0]) <= Time(events, Minus(q, id)[0])
  {
    if q != [] {
      var r := Minus(q[1..], id);
      assert Sorted(q[1..], events) by {
        forall a, b | 0 <= a < b < |q| - 1
          ensures Time(events, q[1..][a]) <= Time(events, q[1..][b])
        {
          assert q[1..][a] == q[a + 1] && q[1..][b] == q[b + 1];
        }
      }
      SortedMinus(q[1..], events, id);
      forall x | x in r
        ensures Time(events, q[0]) <= Time(events, x)
      {
        assert x in q[1..];
        var b :| 1 <= b < |q| && q[b] == x;
      }
      if q[0] != id {
        SortedCons(q[0], r, events);
      } else if r != [] {
        assert r[0] in r;
      }
    }
  }

  /** All queues are armed but those whose timers are in `xs`. */
  predicate ArmedBut(ctls: seq<Ctl>, events: seq<Ev>, xs: set<Id>) {
    forall i {:trigger ctls[i]} | 0 <= i < |ctls| :: ctls[i].timer in xs || Armed(ctls[i], events)
  }

  lemma SameTime(q: seq<Id>, events: seq<Ev>, id: Id, e: Ev)
    requires id < |events| && e.timeout == events[id].timeout
    ensures q != [] ==> Time(events[id := e], q[0]) == Time(events, q[0])
  {
  }

  lemma ArmedMinus(c: Ctl, events: seq<Ev>, id: Id, e: Ev)
    requires id < |events| && e.timeout == events[id].timeout && Sorted(c.events, events) && Armed(c, events) && c.timer != id
    ensures Armed(c, events[id := e]) && Armed(c.(events := Minus(c.events, id)), events[id := e])
    ensures Sorted(c.events, events[id := e]) && Sorted(Minus(c.events, id), events[id := e])
  {
    SortedMinus(c.events, events, id);
    SortedSame(c.events, events, id, e);
    SortedSame(Minus(c.events, id), events, id, e);
    SameTime(c.events, events, id, e);
    SameTime(Minus(c.events, id), events, id, e);
  }

  function DropTime(ctls: seq<Ctl>, id: Id, e: Ev): seq<Ctl>
    requires e.timeout.common.Some? ==> e.timeout.common.value < |ctls|
  {
    if e.timeout.common.None? then ctls
    else
      var c := e.timeout.common.value;
      ctls[c := ctls[c].(events := Minus(ctls[c].events, id))]
  }

  /** Flags may change, and the event may leave its queue. */
  lemma FlagsKeep(ctls: seq<Ctl>, events: seq<Ev>, id: Id, e: Ev, now: seq<Ctl>, xs: set<Id>)
    requires Timers(ctls, events) && ArmedBut(ctls, events, xs) && id < |events| && e.timeout == events[id].timeout
    requires IsTimer(ctls, id) ==> TimerOk(e) && id in xs
    requires e.timeout.common.Some? ==> e.timeout.common.value < |ctls|
    requires now == ctls || now == DropTime(ctls, id, events[id])
    ensures Timers(now, events[id := e]) && ArmedBut(now, events[id := e], xs)
  {
    hide Armed, Sorted, Minus, TimerOk;
    forall i | 0 <= i < |ctls|
      ensures now[i].timer == ctls[i].timer
      ensures Sorted(now[i].events, events[id := e])
      ensures now[i].timer in xs || Armed(now[i], events[id := e])
    {
      assert Sorted(ctls[i].events, events);
      if ctls[i].timer in xs {
        SortedMinus(ctls[i].events, events, id);
        SortedSame(ctls[i].events, events, id, e);
        SortedSame(Minus(ctls[i].events, id), events, id, e);
      } else {
        ArmedMinus(ctls[i], events, id, e);
      }
    }
    forall i | 0 <= i < |ctls|
      ensures now[i].timer < |events| && TimerOk(events[id := e][now[i].timer])
    {
      assert ctls[i].timer < |events| && TimerOk(events[ctls[i].timer]);
    }
  }

  /** A new time for an event that is on no queue. */
  lemma TimeKeeps(ctls: seq<Ctl>, events: seq<Ev>, id: Id, e: Ev, xs: set<Id>)
    requires Timers(ctls, events) && ArmedBut(ctls, events, xs) && id < |events|
    requires IsTimer(ctls, id) ==> TimerOk(e) && id in xs
    requires forall i {:trigger ctls[i].events} | 0 <= i < |ctls| :: id !in ctls[i].events
    ensures Timers(ctls, events[id := e]) && ArmedBut(ctls, events[id := e], xs)
  {
    hide Sorted, TimerOk;
    forall i | 0 <= i < |ctls|
      ensures Sorted(ctls[i].events, events[id := e])
      ensures ctls[i].timer in xs || Armed(ctls[i], events[id := e])
    {
      assert Sorted(ctls[i].events, events);
      SortedSame(ctls[i].events, events, id, e);
      assert ctls[i].events != [] ==> ctls[i].events[0] in ctls[i].events;
    }
    forall i | 0 <= i < |ctls|
      ensures ctls[i].timer < |events| && TimerOk(events[id := e][ctls[i].timer])
    {
      assert ctls[i].timer < |events| && TimerOk(events[ctls[i].timer]);
    }
  }

  function AddTime(ctls: seq<Ctl>, events: seq<Ev>, id: Id, e: Ev): seq<Ctl>
    requires e.timeout.common.Some? ==> e.timeout.common.value < |ctls|
  {
    if e.timeout.common.None? then ctls
    else
      var c := e.timeout.common.value;
      var q := ctls[c].events;
      ctls[c := ctls[c].(events := Insert(q, Place(q, events, e.timeout.usec), id))]
  }

  lemma AddToQueue(c: Ctl, events: seq<Ev>, id: Id, e: Ev, xs: set<Id>)
    requires id < |events| && id !in c.events && (c.timer == id ==> id in xs) && (c.timer in xs || Armed(c, events))
    ensures var q := Insert(c.events, Place(c.events, events, e.timeout.usec), id);
      q != [] && (q[0] == id || c.timer in xs || Armed(c.(events := q), events[id := e]))
  {
    var k := Place(c.events, events, e.timeout.usec);
    if k > 0 {
      assert Insert(c.events, k, id)[0] == c.events[0] && c.events[0] in c.events;
    }
  }

  /** An event goes to its place in its queue; only if it comes first there does the
      timer of that queue have to be set. */
  lemma AddKeeps(ctls: seq<Ctl>, events: seq<Ev>, id: Id, e: Ev, xs: set<Id>)
    requires Timers(ctls, events) && ArmedBut(ctls, events, xs) && id < |events| && e.timeout == events[id].timeout
    requires IsTimer(ctls, id) ==> TimerOk(e) && id in xs
    requires e.timeout.common.Some? ==> e.timeout.common.value < |ctls|
    requires forall i {:trigger ctls[i].events} | 0 <= i < |ctls| :: id !in ctls[i].events
    ensures var r := AddTime(ctls, events, id, events[id]);
      && Timers(r, events[id := e])
      && forall i | 0 <= i < |r| :: r[i].timer == ctls[i].timer
           && (r[i].timer in xs || Armed(r[i], events[id := e]) || (e.timeout.common == Some(i) && r[i].events[0] == id))
  {
    hide Sorted, Armed, Insert, Place;
    TimeKeeps(ctls, events, id, e, xs);
    var r := AddTime(ctls, events, id, events[id]);
    if e.timeout.common.Some? {
      var c := e.timeout.common.value;
      var q := ctls[c].events;
      assert Sorted(q, events) && id !in q;
      SortedPlace(q, events, id, e);
      AddToQueue(ctls[c], events, id, e, xs);
    }
    assert forall i | 0 <= i < |r| :: Sorted(r[i].events, events[id := e]) by {
      forall i | 0 <= i < |r|
        ensures Sorted(r[i].events, events[id := e])
      {
        assert Sorted(ctls[i].events, events[id := e]);
      }
    }
  }

  const MAX_COMMON_TIMEOUTS: nat := 256

  lemma KeptAppend(qs: Queues, events: seq<Ev>, e: Ev)
    requires Kept(qs, events) && EventOk(e, qs) && !e.inserted && !e.active && !e.timed
    ensures Kept(qs, events + [e])
  {
    forall l | Exists(qs, l)
      ensures Lists(Get(qs, l), events + [e], l)
    {
      var q := Get(qs, l);
      assert Lists(q, events, l);
      forall id: nat | id < |events + [e]| && On((events + [e])[id], l)
        ensures id in q
      {
        assert id < |events| && On(events[id], l);
      }
    }
  }

  predicate QueuesIn(ctls: seq<Ctl>, n: nat) {
    forall i, k {:trigger ctls[i].events[k]} | 0 <= i < |ctls| && 0 <= k < |ctls[i].events| :: ctls[i].events[k] < n
  }

  lemma QueuesExist(qs: Queues, events: seq<Ev>)
    requires Kept(qs, events)
    ensures QueuesIn(qs.ctls, |events|)
  {
    forall i | 0 <= i < |qs.ctls|
      ensures forall k | 0 <= k < |qs.ctls[i].events| :: qs.ctls[i].events[k] < |events|
    {
      assert Lists(Get(qs, CommonList(i)), events, CommonList(i));
    }
  }

  lemma TimersAppend(ctls: seq<Ctl>, events: seq<Ev>, e: Ev)
    requires Timers(ctls, events) && ArmedBut(ctls, events, {})
    requires QueuesIn(ctls, |events|)
    ensures Timers(ctls, events + [e]) && ArmedBut(ctls, events + [e], {})
  {
    forall i | 0 <= i < |ctls|
      ensures Sorted(ctls[i].events, events + [e])
    {
      assert Sorted(ctls[i].events, events);
    }
    forall i | 0 <= i < |ctls|
      ensures Armed(ctls[i], events + [e])
    {
      assert Armed(ctls[i], events);
    }
  }

  lemma {:induction false} TotalAppend(events: seq<Ev>, e: Ev)
    ensures Total(events + [e]) == Total(events) + Weight(e)
  {
    if events == [] {
      assert [e][1..] == [];
    } else {
      TotalAppend(events[1..], e);
      assert (events + [e])[1..] == events[1..] + [e];
    }
  }

  lemma KeptNewQueue(qs: Queues, events: seq<Ev>, c: Ctl)
    requires Kept(qs, events) && c.events == []
    ensures Kept(qs.(ctls := qs.ctls + [c]), events)
  {
    var r := qs.(ctls := qs.ctls + [c]);
    forall l | Exists(r, l)
      ensures Lists(Get(r, l), events, l)
    {
      if Exists(qs, l) {
        assert Lists(Get(qs, l), events, l);
      } else {
        forall id: nat | id < |events|
          ensures !On(events[id], l)
        {
          assert EventOk(events[id], qs);
        }
      }
    }
    forall id: nat | id < |events|
      ensures EventOk(events[id], r)
    {
      assert EventOk(events[id], qs);
    }
  }

  lemma TimersNewQueue(ctls: seq<Ctl>, was: seq<Ev>, events: seq<Ev>, c: Ctl)
    requires Timers(ctls, was) && Timers(ctls, events) && ArmedBut(ctls, events, {})
    requires c.events == [] && c.timer == |was| < |events| && TimerOk(events[c.timer])
    ensures Timers(ctls + [c], events) && ArmedBut(ctls + [c], events, {})
  {
    var r := ctls + [c];
    forall i | 0 <= i < |r|
      ensures Sorted(r[i].events, events) && Armed(r[i], events) && r[i].timer < |events| && TimerOk(events[r[i].timer])
    {
      if i < |ctls| {
        assert Sorted(ctls[i].events, events) && Armed(ctls[i], events) && TimerOk(events[ctls[i].timer]);
      }
    }
    forall i, j | 0 <= i < j < |r|
      ensures r[i].timer != r[j].timer
    {
      assert ctls[i].timer < |was|;
    }
  }

  predicate InHeap(e: Ev) {
    e.timed && e.timeout.common.None?
  }

  lemma HeapMinus(q: seq<Id>, events: seq<Ev>, id: Id)
    requires Lists(q, events, Heap) && id < |events|
    ensures InHeap(events[id]) ==> |Minus(q, id)| < |q|
  {
    MinusNoDup(q, id);
    assert InHeap(events[id]) ==> On(events[id], Heap);
  }

  predicate Matching(events: seq<Ev>) {
    forall id: nat {:trigger events[id]} | id < |events| :: events[id].persist ==> events[id].interval.common == events[id].timeout.common
  }

  predicate Due(e: Ev, now: nat) {
    e.timed && e.timeout.usec <= now
  }

  function Fired(e: Ev): Ev {
    e.(inserted := false, timed := false, active := true, res := {TIMEOUT})
  }

  function HeapFired(e: Ev, now: nat): Ev {
    if e.timeout.common.None? && Due(e, now) then Fired(e) else e
  }

  lemma MatchingHeap(was: seq<Ev>, events: seq<Ev>, now: nat)
    requires Matching(was) && |events| == |was|
    requires forall id: nat {:trigger events[id]} | id < |events| :: events[id] == HeapFired(was[id], now)
    ensures Matching(events)
  {
  }

  /** All queues more urgent than `p` are empty. */
  predicate NoUrgent(qs: seq<seq<Id>>, p: nat) {
    forall q {:trigger qs[q]} | 0 <= q < p && q < |qs| :: qs[q] == []
  }

  lemma {:induction false} EmptySum(qs: seq<seq<Id>>)
    ensures SumLen(qs) == 0 <==> forall q | 0 <= q < |qs| :: qs[q] == []
  {
    if qs != [] {
      EmptySum(qs[1..]);
      if SumLen(qs) == 0 {
        forall q | 0 <= q < |qs|
          ensures qs[q] == []
        {
          assert q > 0 ==> qs[q] == qs[1..][q - 1];
        }
      }
    }
  }

  lemma InQueue(qs: Queues, events: seq<Ev>, p: nat)
    requires Kept(qs, events) && p < |qs.active|
    ensures qs.active[p] != [] ==>
      var id := qs.active[p][0];
      id < |events| && events[id].active && events[id].pri == p && (events[id].internal ==> p == 0)
  {
    assert Lists(Get(qs, ActiveList(p)), events, ActiveList(p));
    if qs.active[p] != [] {
      assert EventOk(events[qs.active[p][0]], qs);
    }
  }

  lemma TimersAreInternal(ctls: seq<Ctl>, events: seq<Ev>, id: Id)
    requires Timers(ctls, events) && id < |events|
    ensures IsTimer(ctls, id) ==> events[id].internal
  {
  }

  /** No queue that was empty has become longer. */
  predicate Shrunk(now: seq<seq<Id>>, was: seq<seq<Id>>) {
    |now| == |was| && forall p {:trigger now[p]} | 0 <= p < |now| && was[p] == [] :: now[p] == []
  }

  lemma QueueCommon(qs: Queues, events: seq<Ev>)
    requires Kept(qs, events)
    ensures forall j: nat {:trigger events[j]} | j < |events| :: EventOk(events[j], qs)
  {
  }

  function QueueFired(e: Ev, c: nat, now: nat): Ev {
    if e.timeout.common == Some(c) && Due(e, now) then Fired(e) else e
  }

  lemma TimerIsOk(ctls: seq<Ctl>, events: seq<Ev>, id: Id)
    requires Timers(ctls, events) && id < |events|
    ensures IsTimer(ctls, id) ==> TimerOk(events[id])
  {
  }

  lemma TimerIsTimer(ctls: seq<Ctl>, c: nat)
    requires c < |ctls|
    ensures IsTimer(ctls, ctls[c].timer)
  {
  }

  lemma TimerNotFired(e: Ev, c: nat, now: nat)
    requires TimerOk(e)
    ensures QueueFired(e, c, now) == e
  {
  }

  lemma MatchingFired(ctls: seq<Ctl>, was: seq<Ev>, events: seq<Ev>, c: nat, now: nat)
    requires c < |ctls| && Matching(was) && |events| == |was| && Timers(ctls, events)
    requires forall j: nat {:trigger events[j]} | j < |events| && j != ctls[c].timer :: events[j] == QueueFired(was[j], c, now)
    ensures Matching(events)
  {
    forall j: nat | j < |events|
      ensures events[j].persist ==> events[j].interval.common == events[j].timeout.common
    {
      TimerIsOk(ctls, events, j);
      TimerIsTimer(ctls, c);
    }
  }

  predicate Repeats(interval: Tv) {
    interval.usec != 0 || interval.common.Some?
  }

  /** The time after which an interval is run again. */
  function NextTime(e: Ev, now: nat): nat {
    var from := if TIMEOUT in e.res then e.timeout.usec else now;
    if from + e.interval.usec < now then now + e.interval.usec else from + e.interval.usec
  }

  function Enqueued(qs: seq<seq<Id>>, id: Id, e: Ev): seq<seq<Id>> {
    if !e.active && e.pri < |qs| then qs[e.pri := qs[e.pri] + [id]] else qs
  }

  function FiredBelow(e: Ev, c: nat, now: nat): Ev {
    if Due(e, now) && (e.timeout.common.Some? ==> e.timeout.common.value < c) then Fired(e) else e
  }

  lemma FiredSteps(e: Ev, c: nat, now: nat)
    ensures FiredBelow(e, 0, now) == HeapFired(e, now)
    ensures QueueFired(FiredBelow(e, c, now), c, now) == FiredBelow(e, c + 1, now)
    ensures (e.timeout.common.Some? ==> e.timeout.common.value < c) ==>
      FiredBelow(e, c, now) == if e.timed && e.timeout.usec <= now
                               then e.(inserted := false, timed := false, active := true, res := {TIMEOUT}) else e
  {
  }

  lemma AllCommon(qs: Queues, events: seq<Ev>)
    requires Kept(qs, events)
    ensures forall j: nat {:trigger events[j]} | j < |events| :: events[j].timeout.common.Some? ==> events[j].timeout.common.value < |qs.ctls|
  {
  }

  /** The timers from `c` on are not scheduled for a time that has come. */
  predicate TimersLate(ctls: seq<Ctl>, events: seq<Ev>, c: nat, now: nat) {
    forall i {:trigger ctls[i].timer} | c <= i < |ctls| :: ctls[i].timer < |events| && !Due(events[ctls[i].timer], now)
  }

  lemma NoneDue(ctls: seq<Ctl>, events: seq<Ev>, was: seq<Ev>, now: nat)
    requires |events| == |was| && Timers(ctls, events)
    requires forall id: nat {:trigger events[id]} | id < |events| :: events[id] == HeapFired(was[id], now)
    ensures TimersLate(ctls, events, 0, now)
  {
    forall i | 0 <= i < |ctls|
      ensures ctls[i].timer < |events| && !Due(events[ctls[i].timer], now)
    {
      assert TimerOk(events[ctls[i].timer]);
    }
  }

  lemma TimerExists(ctls: seq<Ctl>, events: seq<Ev>, c: nat)
    requires c < |ctls| && Timers(ctls, events)
    ensures ctls[c].timer < |events| && TimerOk(events[ctls[c].timer])
  {
  }

  lemma LessLate(ctls: seq<Ctl>, events: seq<Ev>, c: nat, now: nat)
    requires TimersLate(ctls, events, c, now)
    ensures TimersLate(ctls, events, c + 1, now)
  {
  }

  predicate SameTimers(now: seq<Ctl>, was: seq<Ctl>) {
    |now| == |was| && forall i {:trigger now[i]} | 0 <= i < |now| :: now[i].timer == was[i].timer && now[i].duration == was[i].duration
  }

  lemma LaterTimers(ctls: seq<Ctl>, events: seq<Ev>, c: nat, now: nat, ctls2: seq<Ctl>, events2: seq<Ev>)
    requires c < |ctls| && Timers(ctls, events) && TimersLate(ctls, events, c, now) && SameTimers(ctls2, ctls) && |events2| == |events|
    requires forall j: nat {:trigger events2[j]} | j < |events| && j != ctls[c].timer :: events2[j] == QueueFired(events[j], c, now)
    ensures TimersLate(ctls2, events2, c + 1, now)
  {
    forall i | c + 1 <= i < |ctls2|
      ensures ctls2[i].timer < |events2| && !Due(events2[ctls2[i].timer], now)
    {
      assert ctls2[i].timer == ctls[i].timer != ctls[c].timer;
      assert TimerOk(events[ctls[i].timer]);
    }
  }

  /** The queue holds exactly the events with this common timeout. */
  predicate QueueListed(q: seq<Id>, events: seq<Ev>, c: nat) {
    && NoDup(q)
    && (forall i {:trigger q[i]} | 0 <= i < |q| :: q[i] < |events| && events[q[i]].timed && events[q[i]].timeout.common == Some(c))
    && (forall id: nat {:trigger events[id]} | id < |events| && events[id].timed && events[id].timeout.common == Some(c) :: id in q)
  }

  lemma SortedQueue(ctls: seq<Ctl>, events: seq<Ev>, c: nat)
    requires c < |ctls| && Timers(ctls, events)
    ensures Sorted(ctls[c].events, events)
  {
    assert ctls[c].events == ctls[c].events;
  }

  /** If the head of a queue is not due, nothing in it is. */
  lemma LateQueue(q: seq<Id>, events: seq<Ev>, c: nat, now: nat)
    requires Sorted(q, events) && QueueListed(q, events, c)
    requires q != [] ==> now < Time(events, q[0])
    ensures forall j: nat {:trigger events[j]} | j < |events| :: QueueFired(events[j], c, now) == events[j]
  {
    forall j: nat | j < |events| && events[j].timed && events[j].timeout.common == Some(c)
      ensures now < events[j].timeout.usec
    {
      var b :| 0 <= b < |q| && q[b] == j;
      assert b > 0 ==> Time(events, q[0]) <= Time(events, q[b]);
    }
  }

  /** A queue whose timer is neither active nor due has no event that is due. */
  lemma QuietQueue(ctls: seq<Ctl>, events: seq<Ev>, c: nat, now: nat)
    requires c < |ctls| && Timers(ctls, events) && ArmedBut(ctls, events, {}) && QueueListed(ctls[c].events, events, c)
    requires ctls[c].timer < |events| && !events[ctls[c].timer].active && TimersLate(ctls, events, c, now)
    ensures forall j: nat {:trigger events[j]} | j < |events| :: QueueFired(events[j], c, now) == events[j]
  {
    assert Armed(ctls[c], events);
    SortedQueue(ctls, events, c);
    LateQueue(ctls[c].events, events, c, now);
  }

  lemma QueueHolds(qs: Queues, events: seq<Ev>, c: nat)
    requires Kept(qs, events) && c < |qs.ctls|
    ensures QueueListed(qs.ctls[c].events, events, c)
  {
    var q := qs.ctls[c].events;
    assert Lists(Get(qs, CommonList(c)), events, CommonList(c));
    forall id: nat | id < |events| && events[id].timed && events[id].timeout.common == Some(c)
      ensures id in q
    {
      assert On(events[id], CommonList(c));
    }
  }

  function DropTimed(ctls: seq<Ctl>, id: Id, e: Ev): seq<Ctl> {
    if e.timed && (e.timeout.common.Some? ==> e.timeout.common.value < |ctls|) then DropTime(ctls, id, e) else ctls
  }

  lemma NoTimerQueued(ctls: seq<Ctl>, events: seq<Ev>, c: nat)
    requires c < |ctls| && QueueListed(ctls[c].events, events, c) && Timers(ctls, events)
    ensures ctls[c].timer !in ctls[c].events
  {
    assert TimerOk(events[ctls[c].timer]);
  }

  lemma HeadOfQueue(qs: Queues, events: seq<Ev>, c: nat)
    requires Kept(qs, events) && c < |qs.ctls| && Timers(qs.ctls, events) && qs.ctls[c].events != []
    ensures qs.ctls[c].events[0] < |events| && qs.ctls[c].events[0] != qs.ctls[c].timer
  {
    hide Kept, Timers;
    QueueHolds(qs, events, c);
    NoTimerQueued(qs.ctls, events, c);
    assert qs.ctls[c].events[0] in qs.ctls[c].events;
  }

  lemma ActiveHolds(qs: Queues, events: seq<Ev>, id: Id)
    requires Kept(qs, events) && id < |events| && events[id].active
    ensures var p := events[id].pri; p < |qs.active| && NoDup(qs.active[p]) && id in qs.active[p]
  {
    var p := events[id].pri;
    assert EventOk(events[id], qs);
    assert Lists(Get(qs, ActiveList(p)), events, ActiveList(p));
  }

  lemma EmptyArms(ctls: seq<Ctl>, events: seq<Ev>, c: nat)
    requires c < |ctls| && ctls[c].events == [] && ArmedBut(ctls, events, {ctls[c].timer}) && Timers(ctls, events)
    ensures ArmedBut(ctls, events, {})
  {
  }

  function Dequeued(qs: seq<seq<Id>>, id: Id, e: Ev): seq<seq<Id>> {
    if e.active && e.pri < |qs| then qs[e.pri := Minus(qs[e.pri], id)] else qs
  }

  lemma DequeuedShrinks(qs: seq<seq<Id>>, id: Id, e: Ev)
    ensures Shrunk(qs, qs) && Shrunk(Dequeued(qs, id, e), qs)
  {
  }

  /** All queues are armed but those whose timers are in `xs`, and the queue `c` if `id`
      has come first there. */
  predicate ArmedOrFirst(ctls: seq<Ctl>, events: seq<Ev>, xs: set<Id>, c: Option<nat>, id: Id) {
    forall i {:trigger ctls[i]} | 0 <= i < |ctls| ::
      ctls[i].timer in xs || Armed(ctls[i], events) || (c == Some(i) && ctls[i].events != [] && ctls[i].events[0] == id)
  }

  lemma AddArms(ctls: seq<Ctl>, events: seq<Ev>, id: Id, e: Ev, xs: set<Id>)
    requires Timers(ctls, events) && ArmedBut(ctls, events, xs) && id < |events| && e.timeout == events[id].timeout
    requires IsTimer(ctls, id) ==> TimerOk(e) && id in xs
    requires e.timeout.common.Some? ==> e.timeout.common.value < |ctls|
    requires forall i {:trigger ctls[i].events} | 0 <= i < |ctls| :: id !in ctls[i].events
    ensures var r := AddTime(ctls, events, id, events[id]);
      Timers(r, events[id := e]) && ArmedOrFirst(r, events[id := e], xs, e.timeout.common, id)
  {
    hide Timers, Armed, IsTimer, Place;
    AddKeeps(ctls, events, id, e, xs);
  }

  lemma SetIsArmed(ctls: seq<Ctl>, events: seq<Ev>, i: nat)
    requires i < |ctls| && ctls[i].events != [] && ctls[i].events[0] < |events| && ctls[i].timer < |events|
    requires ArmedOrFirst(ctls, events, {ctls[i].timer}, None, ctls[i].timer) && Timers(ctls, events)
    requires events[ctls[i].timer].timed && events[ctls[i].timer].timeout.usec == events[ctls[i].events[0]].timeout.usec
    ensures ArmedBut(ctls, events, {})
  {
  }

  lemma FirstArms(ctls: seq<Ctl>, events: seq<Ev>, c: nat, id: Id)
    requires c < |ctls| && ArmedOrFirst(ctls, events, {}, Some(c), id)
    ensures if ctls[c].events != [] && ctls[c].events[0] == id then ArmedBut(ctls, events, {ctls[c].timer}) else ArmedBut(ctls, events, {})
  {
  }

  lemma NoneFirst(ctls: seq<Ctl>, events: seq<Ev>, id: Id)
    requires ArmedOrFirst(ctls, events, {}, None, id)
    ensures ArmedBut(ctls, events, {})
  {
  }

  predicate TvOk(tv: Option<Tv>, ctls: seq<Ctl>) {
    tv.Some? && tv.value.common.Some? ==> tv.value.common.value < |ctls|
  }

  function Registered(e: Ev, tv: Option<Tv>, absolute: bool): Ev {
    e.(inserted := e.inserted || (e.io && !e.active),
       interval := if tv.Some? && e.persist && !absolute then tv.value else e.interval)
  }

  function Unscheduled(e: Ev): Ev {
    e.(timed := false, active := e.active && TIMEOUT !in e.res)
  }

  lemma NotDequeued(qs: seq<seq<Id>>, id: Id, e: Ev)
    ensures !e.active ==> Dequeued(qs, id, e) == qs
  {
  }

  lemma SameTrans(was: seq<Ctl>, mid: seq<Ctl>)
    requires SameTimers(mid, was)
    ensures forall now :: SameTimers(now, mid) ==> SameTimers(now, was)
  {
  }

  /** Whether a new time takes back an activation that came from the old one. */
  predicate Reactivates(e: Ev, tv: Option<Tv>) {
    tv.Some? && e.active && TIMEOUT in e.res
  }

  /** The event that event_add_internal leaves behind. */
  function Added(e: Ev, tv: Option<Tv>, absolute: bool, now: nat): Ev {
    var f := if e.io && !e.active then e.(inserted := true) else e;
    if tv.None? then f
    else f.(interval := if e.persist && !absolute then tv.value else e.interval,
            active := e.active && TIMEOUT !in e.res,
            timed := true,
            timeout := if absolute then tv.value else Tv(now + tv.value.usec, tv.value.common))
  }

  lemma NotQueued(qs: Queues, events: seq<Ev>, id: Id)
    requires Kept(qs, events) && id < |events| && !events[id].timed
    ensures forall i {:trigger qs.ctls[i].events} | 0 <= i < |qs.ctls| :: id !in qs.ctls[i].events
  {
    forall i | 0 <= i < |qs.ctls|
      ensures id !in qs.ctls[i].events
    {
      assert Lists(Get(qs, CommonList(i)), events, CommonList(i));
    }
  }

  lemma AddTimeSame(ctls: seq<Ctl>, events: seq<Ev>, id: Id, e: Ev)
    requires e.timeout.common.Some? ==> e.timeout.common.value < |ctls|
    ensures SameTimers(AddTime(ctls, events, id, e), ctls) && (e.timeout.common.None? ==> AddTime(ctls, events, id, e) == ctls)
  {
  }

  lemma SameIsSame(ctls: seq<Ctl>)
    ensures SameTimers(ctls, ctls)
  {
  }

  function Deleted(e: Ev): Ev {
    e.(inserted := false, active := false, timed := false)
  }

  /** The active queues after events have fired one after the other. */
  function FiredInto(qs: seq<seq<Id>>, events: seq<Ev>, fired: seq<Id>): seq<seq<Id>> {
    if fired == [] then qs
    else
      var rest := FiredInto(qs, events, fired[..|fired| - 1]);
      var id := fired[|fired| - 1];
      if id < |events| then Enqueued(Dequeued(rest, id, events[id]), id, Deleted(events[id])) else rest
  }

  /** The elements of a queue that have not fired. */
  function Others(q: seq<Id>, fired: seq<Id>): seq<Id> {
    if q == [] then [] else if q[0] in fired then Others(q[1..], fired) else [q[0]] + Others(q[1..], fired)
  }

  /** Those that have fired and have priority `p`, in their order. */
  function OfPriority(fired: seq<Id>, events: seq<Ev>, p: nat): seq<Id> {
    if fired == [] then []
    else if fired[0] < |events| && events[fired[0]].pri == p then [fired[0]] + OfPriority(fired[1..], events, p)
    else OfPriority(fired[1..], events, p)
  }

  lemma {:induction false} OfPrioritySnoc(fired: seq<Id>, id: Id, events: seq<Ev>, p: nat)
    ensures OfPriority(fired + [id], events, p) ==
      OfPriority(fired, events, p) + if id < |events| && events[id].pri == p then [id] else []
  {
    if fired == [] {
      assert [id][1..] == [];
    } else {
      OfPrioritySnoc(fired[1..], id, events, p);
      assert (fired + [id])[1..] == fired[1..] + [id];
    }
  }

  lemma {:induction false} OfPriorityIn(fired: seq<Id>, events: seq<Ev>, p: nat, x: Id)
    requires x !in fired
    ensures x !in OfPriority(fired, events, p)
  {
    if fired != [] {
      OfPriorityIn(fired[1..], events, p, x);
    }
  }

  lemma {:induction false} OthersSnoc(q: seq<Id>, fired: seq<Id>, id: Id)
    ensures Others(q, fired + [id]) == Minus(Others(q, fired), id)
  {
    if q != [] {
      OthersSnoc(q[1..], fired, id);
    }
  }

  lemma {:induction false} MinusJoin(q: seq<Id>, r: seq<Id>, id: Id)
    requires id !in r
    ensures Minus(q + r, id) == Minus(q, id) + r
  {
    if q == [] {
      assert q + r == r;
      MinusNone(r, id);
    } else {
      MinusJoin(q[1..], r, id);
      assert (q + r)[1..] == q[1..] + r;
    }
  }

  lemma {:induction false} OthersIn(q: seq<Id>, fired: seq<Id>, x: Id)
    ensures x in Others(q, fired) <==> x in q && x !in fired
  {
    if q != [] {
      OthersIn(q[1..], fired, x);
    }
  }

  lemma FiredOne(qs: seq<seq<Id>>, events: seq<Ev>, id: Id, p: nat, q: seq<Id>, r: seq<Id>)
    requires p < |qs| && qs[p] == q + r && id !in r && id < |events|
    requires id in q ==> events[id].active && events[id].pri == p
    ensures var now := Enqueued(Dequeued(qs, id, events[id]), id, Deleted(events[id]));
      |now| == |qs| && now[p] == Minus(q, id) + (r + if events[id].pri == p then [id] else [])
  {
    hide Minus;
    MinusJoin(q, r, id);
    if id !in q {
      MinusNone(q, id);
    }
  }

  /** After events have fired, each active queue holds those of its own that have not, and
      behind them those that have, in the order in which they fired. */
  lemma {:induction false} FiredOrder(qs: seq<seq<Id>>, events: seq<Ev>, fired: seq<Id>, p: nat)
    requires NoDup(fired) && p < |qs|
    requires forall i | 0 <= i < |qs[p]| :: qs[p][i] < |events| && events[qs[p][i]].active && events[qs[p][i]].pri == p
    ensures |FiredInto(qs, events, fired)| == |qs|
    ensures FiredInto(qs, events, fired)[p] == Others(qs[p], fired) + OfPriority(fired, events, p)
  {
    hide Minus, Others, OfPriority, Enqueued, Dequeued;
    if fired == [] {
      OthersAll(qs[p]);
    } else {
      var n := |fired| - 1;
      var f, id := fired[..n], fired[n];
      assert fired == f + [id] && id !in f;
      FiredOrder(qs, events, f, p);
      OfPrioritySnoc(f, id, events, p);
      OfPriorityIn(f, events, p, id);
      OthersSnoc(qs[p], f, id);
      OthersIn(qs[p], f, id);
      if id < |events| {
        FiredOne(FiredInto(qs, events, f), events, id, p, Others(qs[p], f), OfPriority(f, events, p));
      } else {
        MinusNone(Others(qs[p], f), id);
      }
    }
  }

  lemma {:induction false} OthersAll(q: seq<Id>)
    ensures Others(q, []) + OfPriority([], [], 0) == q
    ensures forall events: seq<Ev>, p: nat :: OfPriority([], events, p) == []
  {
    if q != [] {
      OthersAll(q[1..]);
      assert Others(q[1..], []) + [] == Others(q[1..], []);
    }
  }

  /** What has fired was due no later than what is still in the heap. */
  predicate Ahead(fired: seq<Id>, was: seq<Ev>, events: seq<Ev>) {
    forall i, j: nat {:trigger fired[i], events[j]} | 0 <= i < |fired| && j < |events| && InHeap(events[j]) ::
      Time(was, fired[i]) <= Time(events, j)
  }

  lemma NoneFired(qs: seq<seq<Id>>, events: seq<Ev>)
    ensures FiredInto(qs, events, []) == qs && Sorted([], events) && Ahead([], events, events)
  {
  }

  lemma NextFired(qs: seq<seq<Id>>, was: seq<Ev>, events: seq<Ev>, fired: seq<Id>, top: Id)
    requires top < |events| == |was| && InHeap(events[top]) && events[top] == was[top]
    requires Sorted(fired, was) && Ahead(fired, was, events)
    requires forall j: nat {:trigger events[j]} | j < |events| && InHeap(events[j]) :: Time(events, top) <= Time(events, j)
    ensures Sorted(fired + [top], was) && Ahead(fired + [top], was, events[top := Fired(events[top])])
    ensures FiredInto(qs, was, fired + [top]) ==
      Enqueued(Dequeued(FiredInto(qs, was, fired), top, was[top]), top, Deleted(was[top]))
  {
    assert (fired + [top])[..|fired|] == fired;
    assert events[top].timeout == was[top].timeout;
    forall i | 0 <= i < |fired|
      ensures Time(was, fired[i]) <= Time(was, top)
    {
      assert events[top] == events[top];
    }
  }

  lemma HeapHolds(qs: Queues, events: seq<Ev>)
    requires Kept(qs, events)
    ensures forall i | 0 <= i < |qs.heap| :: qs.heap[i] < |events| && InHeap(events[qs.heap[i]])
    ensures forall id: nat {:trigger id in qs.heap} | id < |events| && InHeap(events[id]) :: id in qs.heap
  {
    assert Lists(Get(qs, Heap), events, Heap);
    forall id: nat | id < |events| && InHeap(events[id])
      ensures id in qs.heap
    {
      assert On(events[id], Heap);
    }
  }

  lemma DequeuedLen(qs: seq<seq<Id>>, id: Id, e: Ev)
    ensures |Dequeued(qs, id, e)| == |qs|
  {
  }

  lemma EnqueuedLen(qs: seq<seq<Id>>, id: Id, e: Ev)
    ensures |Enqueued(qs, id, e)| == |qs|
  {
  }

  predicate SameLists(e: Ev, was: Ev) {
    && e.internal == was.internal && e.inserted == was.inserted && e.active == was.active && e.timed == was.timed
    && (e.active ==> e.pri == was.pri) && (e.timed ==> e.timeout == was.timeout)
  }

  function Activated(e: Ev, what: What): Ev {
    if e.active then e.(res := e.res + {what}) else e.(active := true, res := {what})
  }

  lemma ArmedMore(ctls: seq<Ctl>, events: seq<Ev>, xs: set<Id>, ys: set<Id>)
    requires ArmedBut(ctls, events, xs) && xs <= ys
    ensures ArmedBut(ctls, events, ys)
  {
  }

  lemma ArmedActive(ctls: seq<Ctl>, events: seq<Ev>, id: Id, xs: set<Id>)
    requires Timers(ctls, events) && ArmedBut(ctls, events, xs + {id}) && id < |events| && events[id].active
    ensures ArmedBut(ctls, events, xs)
  {
  }

  lemma SameIsTimer(now: seq<Ctl>, was: seq<Ctl>, id: Id)
    requires SameTimers(now, was)
    ensures IsTimer(now, id) <==> IsTimer(was, id)
  {
    if i :| 0 <= i < |now| && now[i].timer == id {
      assert was[i].timer == id;
    }
    if i :| 0 <= i < |was| && was[i].timer == id {
      assert now[i] == now[i] && now[i].timer == id;
    }
  }

  lemma DequeuedSame(qs: seq<seq<Id>>, id: Id, e: Ev, f: Ev)
    ensures e.active == f.active && e.pri == f.pri ==> Dequeued(qs, id, e) == Dequeued(qs, id, f)
  {
  }

  lemma EventIsOk(qs: Queues, events: seq<Ev>, id: Id)
    requires Kept(qs, events) && id < |events|
    ensures EventOk(events[id], qs)
  {
  }

  lemma DropSame(ctls: seq<Ctl>, id: Id, e: Ev)
    ensures SameTimers(DropTimed(ctls, id, e), ctls) && (e.timeout.common.None? ==> DropTimed(ctls, id, e) == ctls)
  {
  }

  /** How many events at the front of a queue are due. */
  function Ripe(q: seq<Id>, events: seq<Ev>, now: nat): (n: nat)
    ensures n <= |q|
  {
    if q == [] || now < Time(events, q[0]) then 0 else 1 + Ripe(q[1..], events, now)
  }

  /** The first `n` events are due, and the next one is not. */
  lemma {:induction false} RipeIs(q: seq<Id>, events: seq<Ev>, now: nat, n: nat)
    requires n <= |q| && forall i | 0 <= i < n :: Time(events, q[i]) <= now
    requires n < |q| ==> now < Time(events, q[n])
    ensures Ripe(q, events, now) == n
  {
    if n > 0 {
      assert Time(events, q[0]) <= now;
      forall i | 0 <= i < n - 1
        ensures Time(events, q[1..][i]) <= now
      {
        assert q[1..][i] == q[i + 1];
      }
      RipeIs(q[1..], events, now, n - 1);
    }
  }

  lemma MinusHead(q: seq<Id>)
    requires NoDup(q) && q != []
    ensures Minus(q, q[0]) == q[1..]
  {
    assert q[0] !in q[1..];
    MinusNone(q[1..], q[0]);
  }

  /** Rescheduling an event that is active for I/O keeps the activation exactly if it has
      not timed out as well, or no time is given. */
  lemma ReadyIsKept(e: Ev, tv: Option<Tv>, absolute: bool, now: nat)
    requires e.active && READY in e.res
    ensures Added(e, tv, absolute, now).active <==> tv.None? || TIMEOUT !in e.res
  {
  }

  lemma FiredNext(qs: seq<seq<Id>>, events: seq<Ev>, q: seq<Id>, n: nat)
    requires n < |q| && q[n] < |events|
    ensures FiredInto(qs, events, q[..n + 1]) ==
      Enqueued(Dequeued(FiredInto(qs, events, q[..n]), q[n], events[q[n]]), q[n], Deleted(events[q[n]]))
  {
    assert q[..n + 1][..n] == q[..n];
  }

  lemma DropHead(ctls: seq<Ctl>, events: seq<Ev>, c: nat)
    requires c < |ctls| && QueueListed(ctls[c].events, events, c) && ctls[c].events != []
    ensures var id := ctls[c].events[0];
      DropTimed(ctls, id, events[id])[c].events == ctls[c].events[1..]
  {
    MinusHead(ctls[c].events);
  }

  lemma OneTimer(ctls: seq<Ctl>, events: seq<Ev>, c: nat)
    requires c < |ctls| && Timers(ctls, events)
    ensures forall i {:trigger ctls[i].timer} | 0 <= i < |ctls| && ctls[i].timer == ctls[c].timer :: i == c
  {
  }

  lemma {:induction false} NoWeight(events: seq<Ev>)
    ensures Total(events) == 0 <==> forall id: nat {:trigger events[id]} | id < |events| :: Weight(events[id]) == 0
  {
    if events != [] {
      NoWeight(events[1..]);
      if Total(events) == 0 {
        forall id: nat | id < |events|
          ensures Weight(events[id]) == 0
        {
          assert id > 0 ==> events[id] == events[1..][id - 1];
        }
      } else if Total(events[1..]) != 0 {
        var j: nat :| j < |events| - 1 && Weight(events[1..][j]) != 0;
        assert events[j + 1] == events[1..][j];
      }
    }
  }
}
