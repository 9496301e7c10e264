/** Events, the lists they are on, and the counts of an event base. */
module EventLists {
  import opened Bytes

  type Id = nat

  datatype What = TIMEOUT | READY

  /** A relative or absolute time in microseconds; `common` is the index of the common
      timeout that the upper bits of a struct timeval's tv_usec name. */
  datatype Tv = Tv(usec: nat, common: Option<nat>)

  /** A struct event. `io` stands for EV_READ, EV_WRITE and EV_SIGNAL. */
  datatype Ev = Ev(
    internal: bool, io: bool, persist: bool, pri: nat, interval: Tv,
    inserted: bool, active: bool, timed: bool,
    timeout: Tv, res: set<What>)

  datatype Kind = INSERTED | ACTIVE | TIMED

  function Flag(e: Ev, k: Kind): bool {
    match k case INSERTED => e.inserted case ACTIVE => e.active case TIMED => e.timed
  }

  function WithFlag(e: Ev, k: Kind, on: bool): (r: Ev)
    ensures Flag(r, k) == on && forall j | j != k :: Flag(r, j) == Flag(e, j)
  {
    match k
    case INSERTED => e.(inserted := on)
    case ACTIVE => e.(active := on)
    case TIMED => e.(timed := on)
  }

  /** The lists of an event base. */
  datatype List = InsertedList | ActiveList(pri: nat) | Heap | CommonList(i: nat)

  /** The list that each flag of an event is about. */
  function ListOf(e: Ev, k: Kind): List {
    match k
    case INSERTED => InsertedList
    case ACTIVE => ActiveList(e.pri)
    case TIMED => if e.timeout.common.Some? then CommonList(e.timeout.common.value) else Heap
  }

  function KindOf(l: List): Kind {
    match l case InsertedList => INSERTED case ActiveList(_) => ACTIVE case _ => TIMED
  }

  predicate On(e: Ev, l: List) {
    Flag(e, KindOf(l)) && ListOf(e, KindOf(l)) == l
  }

  predicate NoDup(q: seq<Id>) {
    forall i, j {:trigger q[i], q[j]} | 0 <= i < j < |q| :: q[i] != q[j]
  }

  /** `q` lists exactly the events that should be on `l`, each once. */
  predicate Lists(q: seq<Id>, events: seq<Ev>, l: List) {
    && NoDup(q)
    && (forall i {:trigger q[i]} | 0 <= i < |q| :: q[i] < |events| && On(events[q[i]], l))
    && (forall id: nat {:trigger events[id]} | id < |events| && On(events[id], l) :: id in q)
  }

  lemma ListsSame(q: seq<Id>, events: seq<Ev>, l: List, id: Id, e: Ev)
    requires Lists(q, events, l) && id < |events| && On(e, l) == On(events[id], l)
    ensures Lists(q, events[id := e], l)
  {
    forall j: nat | j < |events| && On(events[id := e][j], l)
      ensures j in q
    {
      assert On(events[j], l);
    }
  }

  function Insert(q: seq<Id>, k: nat, id: Id): seq<Id>
    requires k <= |q|
  {
    q[..k] + [id] + q[k..]
  }

  lemma InsertIn(q: seq<Id>, k: nat, id: Id)
    requires k <= |q|
    ensures forall x :: x in Insert(q, k, id) <==> x in q || x == id
  {
    assert q == q[..k] + q[k..];
  }

  lemma InsertNoDup(q: seq<Id>, k: nat, id: Id)
    requires k <= |q| && NoDup(q) && id !in q
    ensures NoDup(Insert(q, k, id))
  {
    var r := Insert(q, k, id);
    forall i, j | 0 <= i < j < |r|
      ensures r[i] != r[j]
    {
      if i != k && j != k {
        assert r[i] == q[if i < k then i else i - 1] && r[j] == q[if j < k then j else j - 1];
      } else {
        assert r[i] in q || r[j] in q;
      }
    }
  }

  lemma ListsInsert(q: seq<Id>, events: seq<Ev>, l: List, id: Id, e: Ev, k: nat)
    requires Lists(q, events, l) && id < |events| && On(e, l) && !On(events[id], l) && k <= |q|
    ensures Lists(Insert(q, k, id), events[id := e], l)
  {
    hide On;
    var r := Insert(q, k, id);
    assert id !in q;
    InsertNoDup(q, k, id);
    InsertIn(q, k, id);
    forall i | 0 <= i < |r|
      ensures r[i] < |events| && On(events[id := e][r[i]], l)
    {
      assert r[i] in r;
    }
    forall j: nat | j < |events| && On(events[id := e][j], l)
      ensures j in r
    {
      assert j != id ==> On(events[j], l);
    }
  }

  /** A list without an element. */
  function Minus(q: seq<Id>, id: Id): (r: seq<Id>)
    ensures forall x :: x in r <==> x in q && x != id
  {
    if q == [] then [] else if q[0] == id then Minus(q[1..], id) else [q[0]] + Minus(q[1..], id)
  }

  lemma {:induction false} MinusNoDup(q: seq<Id>, id: Id)
    requires NoDup(q)
    ensures NoDup(Minus(q, id)) && |Minus(q, id)| == if id in q then |q| - 1 else |q|
  {
    if q != [] {
      assert NoDup(q[1..]);
      MinusNoDup(q[1..], id);
      if q[0] == id {
        assert id !in q[1..];
      } else {
        assert q[0] !in q[1..];
      }
    }
  }

  /** The others stay in their order. */
  lemma {:induction false} MinusIs(q: seq<Id>, id: Id, i: nat)
    requires NoDup(q) && i < |q| && q[i] == id
    ensures Minus(q, id) == q[..i] + q[i + 1..]
  {
    if i == 0 {
      MinusNone(q[1..], id);
    } else {
      assert NoDup(q[1..]);
      MinusIs(q[1..], id, i - 1);
      assert q[..i] == [q[0]] + q[1..][..i - 1];
    }
  }

  lemma {:induction false} MinusNone(q: seq<Id>, id: Id)
    requires id !in q
    ensures Minus(q, id) == q
  {
    if q != [] {
      MinusNone(q[1..], id);
    }
  }

  lemma ListsRemove(q: seq<Id>, events: seq<Ev>, l: List, id: Id, e: Ev)
    requires Lists(q, events, l) && id < |events| && !On(e, l)
    ensures Lists(Minus(q, id), events[id := e], l)
  {
    var r := Minus(q, id);
    MinusNoDup(q, id);
    forall i | 0 <= i < |r|
      ensures r[i] < |events| && On(events[id := e][r[i]], l)
    {
      assert r[i] in q && r[i] != id;
    }
    forall j: nat | j < |events| && On(events[id := e][j], l)
      ensures j in r
    {
      assert j != id && On(events[j], l);
    }
  }

  // Counts

  function Bit(b: bool): nat {
    if b then 1 else 0
  }

  /** How often an event counts: once for every list it is on, unless it is internal. */
  function Weight(e: Ev): nat {
    if e.internal then 0 else Bit(e.inserted) + Bit(e.active) + Bit(e.timed)
  }

  function Total(events: seq<Ev>): nat {
    if events == [] then 0 else Weight(events[0]) + Total(events[1..])
  }

  lemma {:induction false} TotalUpdate(events: seq<Ev>, id: Id, e: Ev)
    requires id < |events|
    ensures Total(events[id := e]) + Weight(events[id]) == Total(events) + Weight(e)
  {
    if id == 0 {
      assert events[id := e][1..] == events[1..];
    } else {
      TotalUpdate(events[1..], id - 1, e);
      assert events[id := e][1..] == events[1..][id - 1 := e];
    }
  }

  function SumLen(qs: seq<seq<Id>>): nat {
    if qs == [] then 0 else |qs[0]| + SumLen(qs[1..])
  }

  lemma {:induction false} SumLenUpdate(qs: seq<seq<Id>>, p: nat, q: seq<Id>)
    requires p < |qs|
    ensures SumLen(qs[p := q]) + |qs[p]| == SumLen(qs) + |q|
  {
    if p == 0 {
      assert qs[p := q][1..] == qs[1..];
    } else {
      SumLenUpdate(qs[1..], p - 1, q);
      assert qs[p := q][1..] == qs[1..][p - 1 := q];
    }
  }
}
