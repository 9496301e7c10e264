/** The event base: its lists of events, its timers, and what runs when. */
module EventBases {
  import opened Bytes
  import opened EventLists
  import opened EventTimers

  /** What the callback of an event does. `refused` says whether the backend would
      refuse to register the event. */
  datatype Action =
    | AddEvent(id: Id, tv: Option<Tv>, refused: bool)
    | DelEvent(id: Id)
    | Activate(id: Id, what: What)
    | SetPriority(id: Id, pri: int)
    | Break

  /** What happens when a callback starts: whether the backend would refuse a persistent
      event that is scheduled again, and what the callback does. */
  datatype Script = Script(refused: bool, actions: seq<Action>)

  datatype Round = Round(time: nat, ready: seq<Id>, scripts: seq<Script>)

  /** A base as it is seen between two steps. */
  datatype World = World(events: seq<Ev>, active: seq<seq<Id>>, ctls: seq<Ctl>, continued: bool, broken: bool)

  /** Every active queue and every queue with a common timeout holds exactly what it
      should, in order and with its timer set early enough. */
  predicate Right(w: World) {
    && (forall p {:trigger w.active[p]} | 0 <= p < |w.active| :: Lists(w.active[p], w.events, ActiveList(p)))
    && (forall c {:trigger w.ctls[c].events} | 0 <= c < |w.ctls| :: Lists(w.ctls[c].events, w.events, CommonList(c)))
    && (forall id: nat {:trigger w.events[id]} | id < |w.events| && w.events[id].internal :: w.events[id].pri == 0)
    && Timers(w.ctls, w.events) && ArmedBut(w.ctls, w.events, {}) && Matching(w.events)
  }

  lemma KeptRight(qs: Queues, w: World)
    requires Kept(qs, w.events) && qs.active == w.active && qs.ctls == w.ctls
    requires Timers(w.ctls, w.events) && ArmedBut(w.ctls, w.events, {}) && Matching(w.events)
    ensures Right(w)
  {
    hide Lists, Timers, ArmedBut, Matching;
    forall p | 0 <= p < |w.active|
      ensures Lists(w.active[p], w.events, ActiveList(p))
    {
      assert Exists(qs, ActiveList(p)) && Get(qs, ActiveList(p)) == w.active[p];
    }
    forall c | 0 <= c < |w.ctls|
      ensures Lists(w.ctls[c].events, w.events, CommonList(c))
    {
      assert Exists(qs, CommonList(c)) && Get(qs, CommonList(c)) == w.ctls[c].events;
    }
  }

  /** Registering an event fails. */
  predicate Refuses(e: Ev, refused: bool) {
    refused && e.io && !e.inserted && !e.active
  }

  /** The timer that has to be set because `id` has come first in its queue. */
  function Leads(ctls: seq<Ctl>, tv: Option<Tv>, id: Id): Option<Id> {
    if tv.Some? && tv.value.common.Some? && tv.value.common.value < |ctls| then
      var c := ctls[tv.value.common.value];
      if c.events != [] && c.events[0] == id then Some(c.timer) else None
    else None
  }

  /** What adding an event does when it is not refused: only this event changes, and the
      timer of its queue if the event comes first there. */
  predicate AddedTo(s: World, id: Id, tv: Option<Tv>, absolute: bool, now: nat, t: World) {
    && id < |s.events| == |t.events| && SameTimers(t.ctls, s.ctls) && t.continued == s.continued && t.broken == s.broken
    && t.events[id] == Added(s.events[id], tv, absolute, now)
    && var timer := Leads(t.ctls, tv, id);
       var q := if Reactivates(s.events[id], tv) then Dequeued(s.active, id, s.events[id]) else s.active;
    && (forall j: nat {:trigger t.events[j]} | j < |t.events| && j != id && Some(j) != timer :: t.events[j] == s.events[j])
    && t.active == if timer.Some? && timer.value < |s.events| then Dequeued(q, timer.value, s.events[timer.value]) else q
  }

  /** The event first, and then the timer. */
  lemma AddedIs(s: World, id: Id, tv: Option<Tv>, absolute: bool, now: nat, mid: World, t: World)
    requires id < |s.events| && SameTimers(mid.ctls, s.ctls)
    requires mid == s.(events := s.events[id := Added(s.events[id], tv, absolute, now)], ctls := mid.ctls,
                       active := if Reactivates(s.events[id], tv) then Dequeued(s.active, id, s.events[id]) else s.active)
    requires match Leads(mid.ctls, tv, id)
      case None => t == mid
      case Some(x) =>
        && x < |s.events| == |t.events| && x != id && t == mid.(events := t.events, active := Dequeued(mid.active, x, mid.events[x]))
        && forall j: nat {:trigger t.events[j]} | j < |t.events| && j != x :: t.events[j] == mid.events[j]
    ensures AddedTo(s, id, tv, absolute, now, t)
  {
    hide Dequeued, Added, Leads, Reactivates;
  }

  /** What event_add_internal makes of an event, field by field: registered for I/O unless
      it is active; and with a time, scheduled for then, or for so much later than now, no
      longer active if it had timed out, and to be repeated if it persists. */
  predicate IsAdded(e: Ev, f: Ev, tv: Option<Tv>, absolute: bool, now: nat) {
    && (f.inserted <==> e.inserted || (e.io && !e.active))
    && (tv.None? ==> f.timed == e.timed && f.timeout == e.timeout && f.interval == e.interval && f.active == e.active)
    && (tv.Some? ==>
          && f.timed && f.timeout.common == tv.value.common
          && f.timeout.usec == (if absolute then tv.value.usec else now + tv.value.usec)
          && f.interval == (if e.persist && !absolute then tv.value else e.interval)
          && (f.active <==> e.active && TIMEOUT !in e.res))
    && f.res == e.res && f.pri == e.pri && f.io == e.io && f.persist == e.persist && f.internal == e.internal
  }

  lemma IsAddedTime(e: Ev, f: Ev, tv: Option<Tv>, absolute: bool, now: nat)
    requires IsAdded(e, f, tv, absolute, now)
    ensures tv.Some? ==> f.timed && f.timeout == if absolute then tv.value else Tv(now + tv.value.usec, tv.value.common)
  {
  }

  lemma LeadsNone(ctls: seq<Ctl>, id: Id)
    ensures Leads(ctls, None, id) == None
  {
  }

  lemma AddedFields(s: World, id: Id, tv: Option<Tv>, absolute: bool, now: nat, t: World)
    requires AddedTo(s, id, tv, absolute, now, t)
    ensures |t.events| == |s.events| && IsAdded(s.events[id], t.events[id], tv, absolute, now)
    ensures forall j: nat {:trigger t.events[j]} | j < |t.events| && j != id && !IsTimer(s.ctls, j) :: t.events[j] == s.events[j]
  {
    hide Dequeued;
    var timer := Leads(t.ctls, tv, id);
    if timer.Some? {
      TimerIsTimer(t.ctls, tv.value.common.value);
      SameIsTimer(t.ctls, s.ctls, timer.value);
    }
  }

  function DeletedFrom(s: World, id: Id): World
    requires id < |s.events|
  {
    var e := s.events[id];
    s.(events := s.events[id := Deleted(e)], active := Dequeued(s.active, id, e), ctls := DropTimed(s.ctls, id, e))
  }

  function ActivatedIn(s: World, id: Id, what: What, running: int): World
    requires id < |s.events|
  {
    var e := s.events[id];
    s.(events := s.events[id := Activated(e, what)], active := Enqueued(s.active, id, e),
       continued := s.continued || (!e.active && e.pri < running))
  }

  predicate Users(s: World, id: Id) {
    id < |s.events| && !s.events[id].internal
  }

  /** What an action makes of `s` while the priority `running` is served. */
  predicate Did(a: Action, s: World, running: int, now: nat, t: World) {
    match a
    case AddEvent(id, tv, refused) =>
      if !Users(s, id) || !TvOk(tv, s.ctls) || Refuses(s.events[id], refused) then t == s
      else AddedTo(s, id, tv, false, now, t)
    case DelEvent(id) => t == if Users(s, id) then DeletedFrom(s, id) else s
    case Activate(id, what) => t == if Users(s, id) then ActivatedIn(s, id, what, running) else s
    case SetPriority(id, pri) =>
      t == if Users(s, id) && !s.events[id].active && 0 <= pri < |s.active|
           then s.(events := s.events[id := s.events[id].(pri := pri)]) else s
    case Break => t == s.(broken := true)
  }

  /** An event has left its queue for its callback to run. */
  function Taken(s: World, id: Id): World
    requires id < |s.events|
  {
    var e := s.events[id];
    if e.persist then s.(events := s.events[id := e.(active := false)], active := Dequeued(s.active, id, e))
    else DeletedFrom(s, id)
  }

  /** The callback of the timer of queue `c`: the events at the front that are due
      become active in their order, and no other. */
  predicate QueueCalled(s: World, c: nat, now: nat, t: World)
    requires c < |s.ctls|
  {
    var q := s.ctls[c].events;
    var n := Ripe(q, s.events, now);
    && |t.events| == |s.events| && SameTimers(t.ctls, s.ctls) && t.continued == s.continued && t.broken == s.broken
    && (forall j: nat {:trigger t.events[j]} | j < |t.events| && j != s.ctls[c].timer :: t.events[j] == QueueFired(s.events[j], c, now))
    && t.ctls[c].events == q[n..] && t.active == FiredInto(s.active, s.events, q[..n])
  }

  /** The events of the queue first, and then its timer. */
  lemma CalledIs(s: World, c: nat, n: nat, now: nat, mid: World, t: World)
    requires c < |s.ctls| && n == Ripe(s.ctls[c].events, s.events, now)
    requires |mid.events| == |s.events| && SameTimers(mid.ctls, s.ctls)
    requires forall j: nat {:trigger mid.events[j]} | j < |mid.events| :: mid.events[j] == QueueFired(s.events[j], c, now)
    requires mid.ctls[c].events == s.ctls[c].events[n..] && mid.active == FiredInto(s.active, s.events, s.ctls[c].events[..n])
    requires t == mid.(events := t.events) && |t.events| == |mid.events| && s.broken == mid.broken
    requires forall j: nat {:trigger t.events[j]} | j < |t.events| && j != s.ctls[c].timer :: t.events[j] == mid.events[j]
    ensures QueueCalled(s.(continued := mid.continued), c, now, t)
  {
    hide FiredInto, QueueFired, Ripe;
  }

  /** What happens before the user's callback runs: an event is taken from its queue, and
      a persistent one is scheduled again; for the timer of a queue there is no more. */
  predicate Took(s: World, id: Id, refused: bool, now: nat, t: World)
    requires id < |s.events|
  {
    var e, u := s.events[id], Taken(s, id);
    if IsTimer(s.ctls, id) then
      forall c {:trigger u.ctls[c].timer} | 0 <= c < |u.ctls| && u.ctls[c].timer == id :: QueueCalled(u, c, now, t)
    else if e.persist && Repeats(e.interval) && !Refuses(u.events[id], refused) then
      AddedTo(u, id, Some(Tv(NextTime(e, now), e.interval.common)), true, now, t)
    else t == u
  }

  /** A callback that was started: its event, its priority, the base before the event was
      taken from its queue, and then before and after each action of the callback. */
  datatype Start = Start(id: Id, pri: nat, was: World, steps: seq<World>)

  function Last(l: Start): World {
    if l.steps == [] then l.was else l.steps[|l.steps| - 1]
  }

  /** The callback is that of the head of a queue while no more urgent event is active,
      and does what `script` says. */
  predicate StartOk(l: Start, script: Script, now: nat) {
    && l.pri < |l.was.active| && l.was.active[l.pri] != [] && l.was.active[l.pri][0] == l.id < |l.was.events|
    && NoUrgent(l.was.active, l.pri) && !l.was.continued
    && |l.steps| == 1 + (if IsTimer(l.was.ctls, l.id) then 0 else |script.actions|)
    && Took(l.was, l.id, script.refused, now, l.steps[0])
    && (forall i {:trigger script.actions[i]} | 0 <= i < |l.steps| - 1 :: Did(script.actions[i], l.steps[i], l.pri, now, l.steps[i + 1]))
    && Right(l.was) && Right(Last(l))
  }

  predicate Scripted(log: seq<Start>, scripts: seq<Script>, first: nat, now: nat) {
    && first + |log| <= |scripts|
    && forall i {:trigger log[i]} | 0 <= i < |log| :: StartOk(log[i], scripts[first + i], now)
  }

  /** A callback starts where the one before it has ended, unless that one broke the
      loop. */
  predicate Follows(l: Start, next: Start) {
    next.was == Last(l) && !next.was.broken
  }

  predicate Linked(log: seq<Start>) {
    forall i, j {:trigger log[i], log[j]} | 0 <= i < j < |log| && j <= i + 1 :: Follows(log[i], log[j])
  }

  function End(was: World, log: seq<Start>): World {
    if log == [] then was else Last(log[|log| - 1])
  }

  /** Callbacks have run one after the other, the scripts from `first` on saying what
      they did. */
  predicate Ran(was: World, log: seq<Start>, scripts: seq<Script>, first: nat, now: nat, end: World) {
    Scripted(log, scripts, first, now) && Linked(log) && (log != [] ==> log[0].was == was) && end == End(was, log)
  }

  predicate Internal(l: Start) {
    l.id < |l.was.events| && l.was.events[l.id].internal
  }

  /** How many of the events were not internal. */
  function CountUsers(log: seq<Start>): nat {
    if log == [] then 0 else CountUsers(log[..|log| - 1]) + if Internal(log[|log| - 1]) then 0 else 1
  }

  lemma AddedMatches(s: World, id: Id, tv: Option<Tv>, absolute: bool, now: nat, t: World)
    requires AddedTo(s, id, tv, absolute, now, t) && Matching(s.events) && Timers(t.ctls, t.events)
    requires absolute ==> tv.Some? && tv.value.common == s.events[id].interval.common
    ensures Matching(t.events)
  {
    hide Dequeued;
    var timer := Leads(t.ctls, tv, id);
    forall j: nat | j < |t.events|
      ensures t.events[j].persist ==> t.events[j].interval.common == t.events[j].timeout.common
    {
      if timer == Some(j) {
        TimerIsTimer(t.ctls, tv.value.common.value);
        TimerIsOk(t.ctls, t.events, j);
      }
    }
  }

  lemma AddedLen(s: World, id: Id, tv: Option<Tv>, absolute: bool, now: nat, t: World)
    requires AddedTo(s, id, tv, absolute, now, t)
    ensures |t.active| == |s.active| && Shrunk(t.active, s.active)
  {
    DequeuedShrinks(s.active, id, s.events[id]);
    var q := if Reactivates(s.events[id], tv) then Dequeued(s.active, id, s.events[id]) else s.active;
    var timer := Leads(t.ctls, tv, id);
    if timer.Some? && timer.value < |s.events| {
      DequeuedShrinks(q, timer.value, s.events[timer.value]);
    }
  }

  lemma DidLen(a: Action, s: World, running: int, now: nat, t: World)
    requires Did(a, s, running, now, t)
    ensures |t.active| == |s.active|
  {
    hide AddedTo;
    if a.AddEvent? && t != s {
      AddedLen(s, a.id, a.tv, false, now, t);
    }
  }

  lemma AddedFlags(s: World, id: Id, tv: Option<Tv>, absolute: bool, now: nat, t: World)
    requires AddedTo(s, id, tv, absolute, now, t)
    ensures t.continued == s.continued && t.broken == s.broken
  {
  }

  /** No action makes an event active that is more urgent than the running priority
      without asking the loop to go on, and at priority 0 none asks. */
  lemma DidUrgent(a: Action, s: World, running: nat, now: nat, t: World)
    requires Did(a, s, running, now, t) && (s.continued || NoUrgent(s.active, running))
    ensures t.continued || NoUrgent(t.active, running)
    ensures running == 0 ==> t.continued == s.continued
  {
    hide AddedTo;
    if a.AddEvent? && t != s {
      AddedLen(s, a.id, a.tv, false, now, t);
      AddedFlags(s, a.id, a.tv, false, now, t);
    }
  }

  lemma CalledFlags(s: World, c: nat, now: nat, t: World)
    requires c < |s.ctls| && QueueCalled(s, c, now, t)
    ensures t.continued == s.continued && t.broken == s.broken
  {
  }

  lemma TookUrgent(s: World, id: Id, refused: bool, now: nat, t: World, p: nat)
    requires id < |s.events| && Took(s, id, refused, now, t) && NoUrgent(s.active, p)
    requires IsTimer(s.ctls, id) ==> p == 0
    ensures NoUrgent(t.active, p) && t.continued == s.continued
  {
    hide AddedTo, QueueCalled, Dequeued;
    var e, u := s.events[id], Taken(s, id);
    DequeuedShrinks(s.active, id, e);
    DropSame(s.ctls, id, e);
    if IsTimer(s.ctls, id) {
      var c :| 0 <= c < |s.ctls| && s.ctls[c].timer == id;
      assert u.ctls[c] == u.ctls[c] && u.ctls[c].timer == id;
      CalledFlags(u, c, now, t);
    } else if e.persist && Repeats(e.interval) && !Refuses(u.events[id], refused) {
      AddedLen(u, id, Some(Tv(NextTime(e, now), e.interval.common)), true, now, t);
      AddedFlags(u, id, Some(Tv(NextTime(e, now), e.interval.common)), true, now, t);
    }
  }

  /** Timers are served at priority 0 only. */
  lemma TimersFirst(w: World, p: nat)
    requires Right(w) && p < |w.active| && w.active[p] != [] && w.active[p][0] < |w.events|
    ensures w.events[w.active[p][0]].internal ==> p == 0
    ensures IsTimer(w.ctls, w.active[p][0]) ==> w.events[w.active[p][0]].internal
  {
    TimerIsOk(w.ctls, w.events, w.active[p][0]);
  }

  /** After a callback nothing more urgent is active unless the loop is to go on. */
  lemma StartUrgent(l: Start, script: Script, now: nat)
    requires StartOk(l, script, now)
    ensures Last(l).continued || NoUrgent(Last(l).active, l.pri)
    ensures Internal(l) ==> !Last(l).continued
  {
    hide Took, Did, Right;
    TimersFirst(l.was, l.pri);
    TookUrgent(l.was, l.id, script.refused, now, l.steps[0], l.pri);
    for i := 0 to |l.steps| - 1
      invariant l.steps[i].continued || NoUrgent(l.steps[i].active, l.pri)
      invariant l.pri == 0 ==> !l.steps[i].continued
    {
      assert Did(script.actions[i], l.steps[i], l.pri, now, l.steps[i + 1]);
      DidUrgent(script.actions[i], l.steps[i], l.pri, now, l.steps[i + 1]);
    }
  }

  /** What is left of an event of a user when its callback runs, field by field. One that
      does not persist is on no list. One that does is not active, and registered as it was
      and timed as it was, unless it has an interval: then it is timed for an interval after
      its time if it had timed out and that has not gone by, and otherwise for an interval
      after now, and registered for I/O. */
  predicate Leaves(e: Ev, f: Ev, refused: bool, now: nat) {
    && !f.active
    && (!e.persist ==> !f.inserted && !f.timed && f.timeout == e.timeout)
    && (e.persist && e.inserted ==> f.inserted)
    && (e.persist && e.interval == Tv(0, None) ==>
          f.inserted == e.inserted && f.timed == e.timed && f.timeout == e.timeout)
    && (e.persist && e.interval != Tv(0, None) && refused && e.io && !e.inserted ==>
          !f.inserted && f.timed == e.timed && f.timeout == e.timeout)
    && (e.persist && e.interval != Tv(0, None) && (!refused || !e.io || e.inserted) ==>
          && f.timed && (f.inserted <==> e.inserted || e.io) && f.timeout.common == e.interval.common
          && f.timeout.usec ==
               if TIMEOUT in e.res && e.timeout.usec + e.interval.usec >= now then e.timeout.usec + e.interval.usec
               else now + e.interval.usec)
    && f.res == e.res && f.pri == e.pri && f.interval == e.interval
    && f.io == e.io && f.persist == e.persist && f.internal == e.internal
  }

  /** What the callback of the timer of queue `c` does to an event, field by field. */
  predicate Calls(e: Ev, f: Ev, c: nat, now: nat) {
    if e.timed && e.timeout.common == Some(c) && e.timeout.usec <= now then
      f == e.(inserted := false, timed := false, active := true, res := {TIMEOUT})
    else f == e
  }

  /** How a callback begins: its own event, and all others. */
  predicate Begins(l: Start, refused: bool, now: nat) {
    && l.id < |l.was.events| && |l.steps| > 0 && |l.steps[0].events| == |l.was.events|
    && l.pri < |l.was.active| == |l.steps[0].active|
    && if IsTimer(l.was.ctls, l.id) then
         forall c, j: nat {:trigger l.was.ctls[c], l.steps[0].events[j]} |
           0 <= c < |l.was.ctls| && l.was.ctls[c].timer == l.id && j < |l.was.events| && j != l.id ::
           Calls(l.was.events[j], l.steps[0].events[j], c, now)
       else
         && Leaves(l.was.events[l.id], l.steps[0].events[l.id], refused, now)
         && l.id !in l.steps[0].active[l.pri]
         && forall j: nat {:trigger l.steps[0].events[j]} | j < |l.was.events| && j != l.id && !IsTimer(l.was.ctls, j) ::
              l.steps[0].events[j] == l.was.events[j]
  }

  lemma {:induction false} FiredLen(qs: seq<seq<Id>>, events: seq<Ev>, fired: seq<Id>)
    ensures |FiredInto(qs, events, fired)| == |qs|
  {
    if fired != [] {
      FiredLen(qs, events, fired[..|fired| - 1]);
    }
  }

  /** The head of a queue is active with its priority. */
  lemma HeadIsActive(w: World, p: nat)
    requires Right(w) && p < |w.active| && w.active[p] != []
    ensures w.active[p][0] < |w.events| && w.events[w.active[p][0]].active && w.events[w.active[p][0]].pri == p
  {
    assert Lists(w.active[p], w.events, ActiveList(p));
  }

  /** Adding an event puts none into an active queue. */
  lemma AddedLess(s: World, id: Id, tv: Option<Tv>, absolute: bool, now: nat, t: World, p: nat, x: Id)
    requires AddedTo(s, id, tv, absolute, now, t) && p < |s.active| && x !in s.active[p]
    ensures p < |t.active| && x !in t.active[p]
  {
    hide Added, Minus;
  }

  lemma TimerBegins(l: Start, script: Script, now: nat)
    requires StartOk(l, script, now) && IsTimer(l.was.ctls, l.id)
    ensures Begins(l, script.refused, now)
  {
    hide FiredInto, Ripe, Right, NoUrgent, Did;
    var u := Taken(l.was, l.id);
    DropSame(l.was.ctls, l.id, l.was.events[l.id]);
    var b :| 0 <= b < |l.was.ctls| && l.was.ctls[b].timer == l.id;
    assert u.ctls[b].timer == l.id;
    FiredLen(u.active, u.events, u.ctls[b].events[..Ripe(u.ctls[b].events, u.events, now)]);
    forall c, j: nat | 0 <= c < |l.was.ctls| && l.was.ctls[c].timer == l.id && j < |l.was.events| && j != l.id
      ensures Calls(l.was.events[j], l.steps[0].events[j], c, now)
    {
      assert u.ctls[c].timer == l.id;
      assert u.events[j] == l.was.events[j];
    }
  }

  lemma UserBegins(l: Start, script: Script, now: nat)
    requires StartOk(l, script, now) && !IsTimer(l.was.ctls, l.id)
    ensures Begins(l, script.refused, now)
  {
    hide Right, NoUrgent, Did, AddedTo, IsTimer, Minus;
    HeadIsActive(l.was, l.pri);
    var e, u := l.was.events[l.id], Taken(l.was, l.id);
    if e.persist && Repeats(e.interval) && !Refuses(u.events[l.id], script.refused) {
      AddedFields(u, l.id, Some(Tv(NextTime(e, now), e.interval.common)), true, now, l.steps[0]);
      AddedLess(u, l.id, Some(Tv(NextTime(e, now), e.interval.common)), true, now, l.steps[0], l.pri, l.id);
      AddedLen(u, l.id, Some(Tv(NextTime(e, now), e.interval.common)), true, now, l.steps[0]);
    }
  }

  lemma StartBegins(l: Start, script: Script, now: nat)
    requires StartOk(l, script, now)
    ensures Begins(l, script.refused, now)
  {
    hide StartOk, Begins, IsTimer;
    if IsTimer(l.was.ctls, l.id) {
      TimerBegins(l, script, now);
    } else {
      UserBegins(l, script, now);
    }
  }

  lemma HeadUrgent(l: Start, script: Script, now: nat, p: nat)
    requires StartOk(l, script, now) && (l.was.continued || NoUrgent(l.was.active, p))
    ensures p <= l.pri
  {
  }

  /** In one round the priorities of callbacks never go up in urgency. */
  lemma {:induction false} PrioritiesRise(was: World, log: seq<Start>, scripts: seq<Script>, first: nat, now: nat, end: World, i: nat, j: nat)
    requires Ran(was, log, scripts, first, now, end) && i <= j < |log|
    ensures log[i].pri <= log[j].pri
    decreases j
  {
    hide StartOk, NoUrgent;
    if i < j {
      PrioritiesRise(was, log, scripts, first, now, end, i, j - 1);
      assert log[j].was == Last(log[j - 1]);
      StartUrgent(log[j - 1], scripts[first + j - 1], now);
      HeadUrgent(log[j], scripts[first + j], now, log[j - 1].pri);
    }
  }

  lemma ScriptedMore(log: seq<Start>, more: seq<Start>, scripts: seq<Script>, first: nat, now: nat)
    requires Scripted(log, scripts, first, now) && Scripted(more, scripts, first + |log|, now)
    ensures Scripted(log + more, scripts, first, now)
  {
    hide StartOk;
    forall i | |log| <= i < |log + more|
      ensures StartOk((log + more)[i], scripts[first + i], now)
    {
      assert StartOk(more[i - |log|], scripts[first + |log| + (i - |log|)], now);
    }
  }

  lemma LinkedMore(log: seq<Start>, more: seq<Start>)
    requires Linked(log) && Linked(more)
    requires log != [] && more != [] ==> Follows(log[|log| - 1], more[0])
    ensures Linked(log + more)
  {
    hide Follows;
    var all := log + more;
    forall i, j {:trigger all[i], all[j]} | 0 <= i < j < |all| && j <= i + 1
      ensures Follows(all[i], all[j])
    {
      if i >= |log| {
        assert all[i] == more[i - |log|] && all[j] == more[j - |log|];
      } else if j < |log| {
        assert all[i] == log[i] && all[j] == log[j];
      }
    }
  }

  lemma RanMore(was: World, log: seq<Start>, more: seq<Start>, scripts: seq<Script>, first: nat, now: nat, mid: World, end: World)
    requires Ran(was, log, scripts, first, now, mid) && Ran(mid, more, scripts, first + |log|, now, end)
    requires log != [] && more != [] ==> !mid.broken
    ensures Ran(was, log + more, scripts, first, now, end) && (more == [] ==> end == mid)
  {
    hide Last, Scripted, Linked;
    if more == [] {
      assert log + more == log;
    } else {
      ScriptedMore(log, more, scripts, first, now);
      LinkedMore(log, more);
    }
  }

  lemma {:induction false} CountMore(log: seq<Start>, more: seq<Start>)
    ensures CountUsers(log + more) == CountUsers(log) + CountUsers(more)
  {
    if more == [] {
      assert log + more == log;
    } else {
      CountMore(log, more[..|more| - 1]);
      assert (log + more)[..|log + more| - 1] == log + more[..|more| - 1];
    }
  }

  lemma {:induction false} NoUsers(log: seq<Start>)
    requires CountUsers(log) == 0
    ensures forall i | 0 <= i < |log| :: Internal(log[i])
  {
    if log != [] {
      NoUsers(log[..|log| - 1]);
      forall i | 0 <= i < |log|
        ensures Internal(log[i])
      {
        assert i < |log| - 1 ==> log[i] == log[..|log| - 1][i];
      }
    }
  }

  /** After an event of a user no other priority is served. */
  predicate OnePriority(log: seq<Start>) {
    forall i, j {:trigger log[i], log[j]} | 0 <= i < j < |log| && !Internal(log[i]) :: log[j].pri == log[i].pri
  }

  predicate AllEmpty(active: seq<seq<Id>>) {
    forall p {:trigger active[p]} | 0 <= p < |active| :: active[p] == []
  }

  /** Every callback of a log begins as it should. */
  predicate AllBegin(log: seq<Start>, scripts: seq<Script>, first: nat, now: nat) {
    first + |log| <= |scripts| && forall i {:trigger log[i]} | 0 <= i < |log| :: Begins(log[i], scripts[first + i].refused, now)
  }

  lemma BeginsSnoc(log: seq<Start>, scripts: seq<Script>, first: nat, now: nat, l: Start)
    requires AllBegin(log, scripts, first, now) && first + |log| < |scripts| && StartOk(l, scripts[first + |log|], now)
    ensures AllBegin(log + [l], scripts, first, now)
  {
    hide StartOk, Begins;
    StartBegins(l, scripts[first + |log|], now);
  }

  lemma RanBegins(was: World, log: seq<Start>, scripts: seq<Script>, first: nat, now: nat, end: World)
    requires Ran(was, log, scripts, first, now, end)
    ensures AllBegin(log, scripts, first, now)
  {
    hide StartOk, Begins;
    forall i | 0 <= i < |log|
      ensures Begins(log[i], scripts[first + i].refused, now)
    {
      StartBegins(log[i], scripts[first + i], now);
    }
  }

  /** Why no more callbacks ran: the loop was broken or the scripts gave out; nothing is
      active; or events of users have run and their queue is empty, or the loop is to
      go on. */
  predicate Ended(log: seq<Start>, c: int, out: bool, end: World) {
    && (c < 0 ==> end.broken || out)
    && (c >= 0 ==> c == CountUsers(log) && (log != [] ==> !end.broken))
    && (c == 0 ==> AllEmpty(end.active))
    && (c > 0 ==>
          log != [] && log[|log| - 1].pri < |end.active| && (end.continued || end.active[log[|log| - 1].pri] == []))
  }

  /** One round of the loop: events became ready, timers fired, callbacks ran. */
  datatype Trace = Trace(start: World, ready: World, fired: seq<Id>, due: World, log: seq<Start>, count: int, end: World)

  function Readied(s: World, ready: seq<Id>): World {
    if ready == [] then s
    else
      var w := Readied(s, ready[..|ready| - 1]);
      var id := ready[|ready| - 1];
      if id < |w.events| && w.events[id].io && w.events[id].inserted then ActivatedIn(w, id, READY, -1) else w
  }

  /** Exactly what is due in the heap has fired, in the order of the times. */
  ghost predicate HeapFiredTo(s: World, fired: seq<Id>, now: nat, t: World) {
    && |t.events| == |s.events| && SameTimers(t.ctls, s.ctls) && t.continued == s.continued && t.broken == s.broken
    && (forall id: nat {:trigger t.events[id]} | id < |t.events| :: t.events[id] == HeapFired(s.events[id], now))
    && NoDup(fired) && Sorted(fired, s.events)
    && (forall id: nat {:trigger id in fired} :: id in fired <==> id < |s.events| && InHeap(s.events[id]) && Due(s.events[id], now))
    && t.active == FiredInto(s.active, s.events, fired)
  }

  ghost predicate RoundOk(t: Trace, round: Round) {
    && t.ready == Readied(t.start, round.ready)
    && HeapFiredTo(t.ready, t.fired, round.time, t.due)
    && Ran(t.due, t.log, round.scripts, 0, round.time, t.end) && OnePriority(t.log)
    && Ended(t.log, t.count, |t.log| == |round.scripts|, t.end)
  }

  lemma RoundBegins(t: Trace, round: Round)
    requires RoundOk(t, round)
    ensures AllBegin(t.log, round.scripts, 0, round.time)
  {
    RanBegins(t.due, t.log, round.scripts, 0, round.time, t.end);
  }

  function Calm(w: World): World {
    w.(continued := false)
  }

  /** Rounds have followed one another from `was` to `end`, none behind a break. */
  ghost predicate Rounds(was: World, traces: seq<Trace>, rounds: seq<Round>, end: World) {
    && |traces| <= |rounds|
    && (forall i {:trigger traces[i]} | 0 <= i < |traces| :: RoundOk(traces[i], rounds[i]) && !traces[i].start.broken)
    && (forall i, j {:trigger traces[i], traces[j]} | 0 <= i < j < |traces| && j <= i + 1 :: traces[j].start == Calm(traces[i].end))
    && (traces != [] ==> traces[0].start == Calm(was))
    && Calm(end) == Calm(if traces == [] then was else traces[|traces| - 1].end)
  }

  lemma RoundsNone(was: World, rounds: seq<Round>)
    ensures Rounds(was, [], rounds, was)
  {
  }

  lemma RoundsSnoc(was: World, traces: seq<Trace>, rounds: seq<Round>, mid: World, t: Trace)
    requires Rounds(was, traces, rounds, mid) && |traces| < |rounds| && RoundOk(t, rounds[|traces|])
    requires !t.start.broken && t.start == Calm(mid)
    ensures Rounds(was, traces + [t], rounds, t.end)
  {
    hide RoundOk;
  }

  lemma RoundsCalm(was: World, traces: seq<Trace>, rounds: seq<Round>, end: World, now: World)
    requires Rounds(was, traces, rounds, end) && Calm(now) == Calm(end)
    ensures Rounds(was, traces, rounds, now)
  {
    hide RoundOk;
  }

  lemma RanNone(was: World, scripts: seq<Script>, first: nat, now: nat)
    requires first <= |scripts|
    ensures Ran(was, [], scripts, first, now, was) && CountUsers([]) == 0 && OnePriority([])
    ensures AllBegin([], scripts, first, now)
  {
  }

  lemma RanSnoc(was: World, log: seq<Start>, scripts: seq<Script>, first: nat, now: nat, mid: World, l: Start)
    requires Ran(was, log, scripts, first, now, mid) && first + |log| < |scripts| && (log != [] ==> !mid.broken)
    requires StartOk(l, scripts[first + |log|], now) && l.was == mid
    ensures Ran(was, log + [l], scripts, first, now, Last(l))
  {
    hide StartOk;
    assert Ran(mid, [l], scripts, first + |log|, now, Last(l));
    RanMore(was, log, [l], scripts, first, now, mid, Last(l));
  }

  lemma TakenLen(s: World, id: Id)
    requires id < |s.events|
    ensures |Taken(s, id).active| == |s.active| && |Taken(s, id).events| == |s.events|
  {
  }

  lemma {:induction false} ReadiedCalm(s: World, ready: seq<Id>)
    ensures Readied(s, ready).continued == s.continued && Readied(s, ready).broken == s.broken
  {
    if ready != [] {
      ReadiedCalm(s, ready[..|ready| - 1]);
    }
  }

  /** What becomes active: every event that is ready and registered for I/O. */
  lemma {:induction false} ReadiedFields(s: World, ready: seq<Id>, id: Id)
    requires id < |s.events|
    ensures |Readied(s, ready).events| == |s.events|
    ensures var e := s.events[id];
      Readied(s, ready).events[id] ==
        if id in ready && e.io && e.inserted then e.(active := true, res := if e.active then e.res + {READY} else {READY}) else e
  {
    hide Enqueued;
    if ready != [] {
      var n := |ready| - 1;
      ReadiedFields(s, ready[..n], id);
      assert ready == ready[..n] + [ready[n]];
      assert {READY} + {READY} == {READY} && forall r: set<What> :: r + {READY} + {READY} == r + {READY};
    }
  }

  predicate AtPriority(log: seq<Start>, p: nat) {
    forall i {:trigger log[i]} | 0 <= i < |log| :: log[i].pri == p
  }

  lemma EmptyAt(p: nat)
    ensures AtPriority([], p)
  {
  }

  lemma CountSnoc(log: seq<Start>, l: Start)
    ensures forall p :: AtPriority(log, p) && l.pri == p ==> AtPriority(log + [l], p)
    ensures CountUsers(log + [l]) == CountUsers(log) + if Internal(l) then 0 else 1
  {
    assert (log + [l])[..|log|] == log;
  }

  lemma PriorityMore(log: seq<Start>, more: seq<Start>, p: nat)
    requires CountUsers(log) == 0 && AtPriority(more, p)
    ensures OnePriority(log + more) && CountUsers(log + more) == CountUsers(more)
  {
    CountMore(log, more);
    NoUsers(log);
    forall i, j | 0 <= i < j < |log + more| && !Internal((log + more)[i])
      ensures (log + more)[j].pri == (log + more)[i].pri
    {
      assert i >= |log| && (log + more)[i] == more[i - |log|] && (log + more)[j] == more[j - |log|];
    }
  }

  class EventBase {
    var events: seq<Ev>
    var eventqueue: seq<Id>
    var activequeues: seq<seq<Id>>
    var timeheap: seq<Id>
    var ctls: seq<Ctl>
    var eventCount: nat
    var eventCountActive: nat
    var runningPriority: int
    var eventContinue: bool
    var eventBreak: bool
    var now: nat

    function Qs(): Queues
      reads this
    {
      Queues(eventqueue, activequeues, timeheap, ctls)
    }

    function Seen(): World
      reads this
    {
      World(events, activequeues, ctls, eventContinue, eventBreak)
    }

    /** Flags, lists and counts agree. */
    ghost predicate Bookkept()
      reads this
    {
      && Kept(Qs(), events)
      && eventCount == Total(events) && eventCountActive == SumLen(activequeues)
    }

    ghost predicate Valid()
      reads this
    {
      Bookkept() && Timers(ctls, events) && ArmedBut(ctls, events, {})
    }

    constructor (priorities: nat)
      requires priorities > 0
      ensures Sane() && runningPriority == -1 && |activequeues| == priorities && events == [] && ctls == []
    {
      events, eventqueue, timeheap, ctls := [], [], [], [];
      activequeues := seq(priorities, _ => []);
      eventCount, eventCountActive := 0, 0;
      runningPriority, eventContinue, eventBreak, now := -1, false, false, 0;
      new;
      EmptySum(activequeues);
    }

    /** event_assign, with event_priority_set for an internal event. */
    method NewEvent(io: bool, persist: bool, internal: bool) returns (id: Id)
      requires Sane() && |activequeues| > 0
      modifies this`events
      ensures Sane() && id == |old(events)|
      ensures events == old(events) + [Ev(internal, io, persist, if internal then 0 else |activequeues| / 2, Tv(0, None),
                                          false, false, false, Tv(0, None), {})]
    {
      hide SumLen;
      id := |events|;
      var e := Ev(internal, io, persist, if internal then 0 else |activequeues| / 2, Tv(0, None), false, false, false, Tv(0, None), {});
      KeptAppend(Qs(), events, e);
      QueuesExist(Qs(), events);
      TimersAppend(ctls, events, e);
      TotalAppend(events, e);
      events := events + [e];
    }

    /** event_base_init_common_timeout: the queue for a duration, a new one if there is
        none yet and the limit on queues allows it. */
    method InitCommonTimeout(duration: nat) returns (r: Option<nat>)
      requires Sane() && |activequeues| > 0
      modifies this`events, this`ctls
      ensures Sane()
      ensures r.Some? ==> r.value < |ctls| && ctls[r.value].duration == duration
      ensures |old(ctls)| < |ctls| ==> r == Some(|old(ctls)|) && ctls == old(ctls) + [Ctl(duration, [], |old(events)|)]
      ensures r.None? ==> |ctls| == 256 && forall i | 0 <= i < |ctls| :: ctls[i].duration != duration
      ensures (exists i :: 0 <= i < |old(ctls)| && old(ctls)[i].duration == duration) || r.None? ==> events == old(events) && ctls == old(ctls)
      ensures old(ctls) <= ctls && old(events) <= events
    {
      for i := 0 to |ctls|
        invariant forall j | 0 <= j < i :: ctls[j].duration != duration
        invariant unchanged(this)
      {
        if ctls[i].duration == duration {
          return Some(i);
        }
      }
      if |ctls| == MAX_COMMON_TIMEOUTS {
        return None;
      }
      var timer := NewEvent(false, false, true);
      KeptNewQueue(Qs(), events, Ctl(duration, [], timer));
      TimersNewQueue(ctls, old(events), events, Ctl(duration, [], timer));
      ctls := ctls + [Ctl(duration, [], timer)];
      return Some(|ctls| - 1);
    }

    /** event_queue_insert for EVLIST_INSERTED. */
    method InsertInserted(id: Id)
      requires Bookkept() && id < |events| && !events[id].inserted
      modifies this`events, this`eventqueue, this`eventCount
      ensures Bookkept() && events == old(events)[id := old(events)[id].(inserted := true)]
      ensures eventqueue == old(eventqueue) + [id]
    {
      hide Lists, On, SumLen, Total;
      ghost var qs := Qs();
      ghost var e := events[id].(inserted := true);
      KeptInsert(qs, events, id, INSERTED, |eventqueue|);
      TotalUpdate(events, id, e);
      assert Insert(eventqueue, |eventqueue|, id) == eventqueue + [id];
      if !events[id].internal {
        eventCount := eventCount + 1;
      }
      events := events[id := events[id].(inserted := true)];
      eventqueue := eventqueue + [id];
      assert Qs() == Put(qs, InsertedList, eventqueue);
    }

    /** event_queue_insert for EVLIST_ACTIVE. */
    method InsertActive(id: Id)
      requires Bookkept() && id < |events| && !events[id].active
      modifies this`events, this`activequeues, this`eventCount, this`eventCountActive
      ensures Bookkept() && events == old(events)[id := old(events)[id].(active := true)]
      ensures events[id].pri < |old(activequeues)|
        && activequeues == old(activequeues)[events[id].pri := old(activequeues)[events[id].pri] + [id]]
    {
      hide Lists, On, SumLen, Total;
      ghost var qs := Qs();
      ghost var e := events[id].(active := true);
      var p := events[id].pri;
      assert EventOk(events[id], qs);
      KeptInsert(qs, events, id, ACTIVE, |activequeues[p]|);
      TotalUpdate(events, id, e);
      SumLenUpdate(activequeues, p, activequeues[p] + [id]);
      assert Insert(activequeues[p], |activequeues[p]|, id) == activequeues[p] + [id];
      if !events[id].internal {
        eventCount := eventCount + 1;
      }
      events := events[id := events[id].(active := true)];
      eventCountActive := eventCountActive + 1;
      activequeues := activequeues[p := activequeues[p] + [id]];
      assert Qs() == Put(qs, ActiveList(p), activequeues[p]);
    }

    /** event_queue_insert for EVLIST_TIMEOUT. */
    method InsertTimeout(id: Id)
      requires Bookkept() && id < |events| && !events[id].timed
      modifies this`events, this`timeheap, this`ctls, this`eventCount
      ensures Bookkept() && events == old(events)[id := old(events)[id].(timed := true)]
      ensures EventOk(old(events)[id], old(Qs())) && ctls == AddTime(old(ctls), old(events), id, old(events)[id])
    {
      hide Lists, On, SumLen, Total;
      ghost var qs := Qs();
      ghost var e := events[id].(timed := true);
      assert EventOk(events[id], qs);
      TotalUpdate(events, id, e);
      if !events[id].internal {
        eventCount := eventCount + 1;
      }
      match events[id].timeout.common {
        case Some(c) =>
          MembersExist(qs, events, CommonList(c));
          assert Get(qs, CommonList(c)) == ctls[c].events;
          var k := PlaceInOrder(ctls[c].events, events[id].timeout.usec);
          KeptInsert(qs, events, id, TIMED, k);
          ctls := ctls[c := ctls[c].(events := Insert(ctls[c].events, k, id))];
          assert Qs() == Put(qs, CommonList(c), ctls[c].events);
        case None =>
          KeptInsert(qs, events, id, TIMED, |timeheap|);
          assert Insert(timeheap, |timeheap|, id) == timeheap + [id];
          timeheap := timeheap + [id];
          assert Qs() == Put(qs, Heap, timeheap);
      }
      events := events[id := events[id].(timed := true)];
    }

    /** The search of insert_common_timeout_inorder, from the end of the queue. */
    method PlaceInOrder(q: seq<Id>, t: nat) returns (k: nat)
      requires forall i | 0 <= i < |q| :: q[i] < |events|
      ensures k == Place(q, events, t)
    {
      k := |q|;
      assert q[..|q|] == q;
      while k > 0 && t < events[q[k - 1]].timeout.usec
        invariant k <= |q| && Place(q[..k], events, t) == Place(q, events, t)
      {
        assert q[..k][..k - 1] == q[..k - 1];
        k := k - 1;
      }
    }

    /** event_queue_remove for EVLIST_INSERTED. */
    method RemoveInserted(id: Id)
      requires Bookkept() && id < |events| && events[id].inserted
      modifies this`events, this`eventqueue, this`eventCount
      ensures Bookkept() && events == old(events)[id := old(events)[id].(inserted := false)]
      ensures eventqueue == Minus(old(eventqueue), id)
    {
      hide Lists, On, SumLen, Total, Minus;
      ghost var qs := Qs();
      ghost var e := events[id].(inserted := false);
      KeptRemove(qs, events, id, INSERTED);
      TotalUpdate(events, id, e);
      if !events[id].internal {
        eventCount := eventCount - 1;
      }
      events := events[id := events[id].(inserted := false)];
      eventqueue := Minus(eventqueue, id);
      assert Qs() == Put(qs, InsertedList, eventqueue);
    }

    /** event_queue_remove for EVLIST_ACTIVE. */
    method RemoveActive(id: Id)
      requires Bookkept() && id < |events| && events[id].active
      modifies this`events, this`activequeues, this`eventCount, this`eventCountActive
      ensures Bookkept() && events == old(events)[id := old(events)[id].(active := false)]
      ensures events[id].pri < |old(activequeues)|
        && activequeues == old(activequeues)[events[id].pri := Minus(old(activequeues)[events[id].pri], id)]
    {
      hide SumLen, Total, Minus, Kept, Lists, On, NoDup;
      ghost var qs := Qs();
      ghost var e := events[id].(active := false);
      var p := events[id].pri;
      ActiveHolds(qs, events, id);
      MinusNoDup(activequeues[p], id);
      KeptRemove(qs, events, id, ACTIVE);
      TotalUpdate(events, id, e);
      SumLenUpdate(activequeues, p, Minus(activequeues[p], id));
      if !events[id].internal {
        eventCount := eventCount - 1;
      }
      events := events[id := events[id].(active := false)];
      eventCountActive := eventCountActive - 1;
      activequeues := activequeues[p := Minus(activequeues[p], id)];
      assert Qs() == Put(qs, ActiveList(p), activequeues[p]);
    }

    /** event_queue_remove for EVLIST_TIMEOUT. */
    method RemoveTimeout(id: Id)
      requires Bookkept() && id < |events| && events[id].timed
      modifies this`events, this`timeheap, this`ctls, this`eventCount
      ensures Bookkept() && events == old(events)[id := old(events)[id].(timed := false)]
      ensures EventOk(old(events)[id], old(Qs())) && ctls == DropTime(old(ctls), id, old(events)[id])
      ensures InHeap(old(events)[id]) ==> |timeheap| < |old(timeheap)|
    {
      hide Lists, On, SumLen, Total, Minus;
      ghost var qs := Qs();
      ghost var e := events[id].(timed := false);
      assert EventOk(events[id], qs);
      KeptRemove(qs, events, id, TIMED);
      TotalUpdate(events, id, e);
      if !events[id].internal {
        eventCount := eventCount - 1;
      }
      match events[id].timeout.common {
        case Some(c) =>
          ctls := ctls[c := ctls[c].(events := Minus(ctls[c].events, id))];
          assert Qs() == Put(qs, CommonList(c), ctls[c].events);
        case None =>
          assert Lists(Get(qs, Heap), events, Heap);
          HeapMinus(timeheap, events, id);
          timeheap := Minus(timeheap, id);
          assert Qs() == Put(qs, Heap, timeheap);
      }
      events := events[id := events[id].(timed := false)];
    }

    // event_queue_remove where the flag is set; `id` itself may be a timer.

    method DropTimeout(id: Id, ghost xs: set<Id>)
      requires Bookkept() && id < |events| && Timers(ctls, events) && ArmedBut(ctls, events, xs) && (IsTimer(ctls, id) ==> id in xs)
      modifies this`events, this`timeheap, this`ctls, this`eventCount
      ensures Bookkept() && Timers(ctls, events) && ArmedBut(ctls, events, xs)
      ensures events == old(events)[id := old(events)[id].(timed := false)]
      ensures ctls == DropTimed(old(ctls), id, old(events)[id])
      ensures InHeap(old(events)[id]) ==> |timeheap| < |old(timeheap)|
    {
      hide Kept, Timers, ArmedBut, DropTime, Minus;
      ghost var evs, cs := events, ctls;
      EventIsOk(Qs(), events, id);
      TimerIsOk(ctls, events, id);
      if events[id].timed {
        RemoveTimeout(id);
        FlagsKeep(cs, evs, id, events[id], ctls, xs);
      }
    }

    method DropActive(id: Id, ghost xs: set<Id>)
      requires Bookkept() && id < |events| && Timers(ctls, events) && ArmedBut(ctls, events, xs) && (IsTimer(ctls, id) ==> id in xs)
      modifies this`events, this`activequeues, this`eventCount, this`eventCountActive
      ensures Bookkept() && Timers(ctls, events) && ArmedBut(ctls, events, xs)
      ensures events == old(events)[id := old(events)[id].(active := false)]
      ensures activequeues == Dequeued(old(activequeues), id, old(events)[id])
    {
      hide Kept, Timers, ArmedBut, DropTime, Minus;
      ghost var evs, cs := events, ctls;
      EventIsOk(Qs(), events, id);
      TimerIsOk(ctls, events, id);
      if events[id].active {
        RemoveActive(id);
        FlagsKeep(cs, evs, id, events[id], ctls, xs);
      }
    }

    method DropInserted(id: Id, ghost xs: set<Id>)
      requires Bookkept() && id < |events| && Timers(ctls, events) && ArmedBut(ctls, events, xs) && (IsTimer(ctls, id) ==> id in xs)
      modifies this`events, this`eventqueue, this`eventCount
      ensures Bookkept() && Timers(ctls, events) && ArmedBut(ctls, events, xs)
      ensures events == old(events)[id := old(events)[id].(inserted := false)]
    {
      hide Kept, Timers, ArmedBut, DropTime, Minus;
      ghost var evs, cs := events, ctls;
      EventIsOk(Qs(), events, id);
      TimerIsOk(ctls, events, id);
      if events[id].inserted {
        RemoveInserted(id);
        FlagsKeep(cs, evs, id, events[id], ctls, xs);
      }
    }

    /** event_del_internal. Where `id` is the timer of a queue, that queue is left
        unarmed. */
    method DelInternal(id: Id, ghost xs: set<Id>)
      requires Bookkept() && id < |events| && Timers(ctls, events) && ArmedBut(ctls, events, xs) && (IsTimer(ctls, id) ==> id in xs)
      modifies this`events, this`eventqueue, this`activequeues, this`timeheap, this`ctls, this`eventCount, this`eventCountActive
      ensures Bookkept() && Timers(ctls, events) && ArmedBut(ctls, events, xs)
      ensures events == old(events)[id := Deleted(old(events)[id])]
      ensures events == old(events)[id := old(events)[id].(inserted := false, active := false, timed := false)]
      ensures activequeues == Dequeued(old(activequeues), id, old(events)[id])
      ensures ctls == DropTimed(old(ctls), id, old(events)[id]) && SameTimers(ctls, old(ctls))
      ensures InHeap(old(events)[id]) ==> |timeheap| < |old(timeheap)|
    {
      hide Kept, Timers, ArmedBut, DropTimed, Dequeued, Total, SumLen;
      DropTimeout(id, xs);
      DropSame(old(ctls), id, old(events)[id]);
      SameIsTimer(ctls, old(ctls), id);
      DequeuedSame(activequeues, id, old(events)[id], events[id]);
      DropActive(id, xs);
      DropInserted(id, xs);
    }

    /** Fields of an event change that no list depends on. */
    method Assign(id: Id, e: Ev)
      requires Bookkept() && id < |events| && EventOk(e, Qs()) && SameLists(e, events[id])
      modifies this`events
      ensures Bookkept() && events == old(events)[id := e]
    {
      hide SumLen, Total, Lists;
      KeptUpdate(Qs(), events, id, e);
      TotalUpdate(events, id, e);
      events := events[id := e];
    }

    /** event_active_nolock. An active timer needs no other arming. */
    method ActiveNolock(id: Id, what: What, ghost xs: set<Id>)
      requires Bookkept() && id < |events| && Timers(ctls, events) && ArmedBut(ctls, events, xs + {id})
      requires IsTimer(ctls, id) ==> what == TIMEOUT
      modifies this`events, this`activequeues, this`eventCount, this`eventCountActive, this`eventContinue
      ensures Bookkept() && Timers(ctls, events) && ArmedBut(ctls, events, xs)
      ensures events == old(events)[id := Activated(old(events)[id], what)]
      ensures activequeues == Enqueued(old(activequeues), id, old(events)[id])
      ensures var e := old(events)[id];
        && e.pri < |old(activequeues)|
        && events == old(events)[id := e.(active := true, res := if e.active then e.res + {what} else {what})]
        && activequeues == if e.active then old(activequeues)
                           else old(activequeues)[e.pri := old(activequeues)[e.pri] + [id]]
      ensures eventContinue == (old(eventContinue) || (!old(events)[id].active && old(events)[id].pri < runningPriority))
    {
      hide Kept, Timers, ArmedBut, Total, SumLen, IsTimer;
      ghost var evs := events;
      var e := events[id];
      EventIsOk(Qs(), events, id);
      TimerIsOk(ctls, events, id);
      FlagsKeep(ctls, events, id, Activated(e, what), ctls, xs + {id});
      ArmedActive(ctls, events[id := Activated(e, what)], id, xs);
      if e.active {
        Assign(id, e.(res := e.res + {what}));
        return;
      }
      Assign(id, e.(res := {what}));
      if e.pri < runningPriority {
        eventContinue := true;
      }
      InsertActive(id);
      assert events == evs[id := Activated(e, what)];
    }

    /** min_heap_top: an event in the heap that no other is due before. */
    method MinHeapTop() returns (id: Id)
      requires timeheap != [] && forall i | 0 <= i < |timeheap| :: timeheap[i] < |events|
      ensures id in timeheap && forall j | j in timeheap :: Time(events, id) <= Time(events, j)
    {
      id := timeheap[0];
      for i := 1 to |timeheap|
        invariant id in timeheap && forall j | 0 <= j < i :: Time(events, id) <= Time(events, timeheap[j])
      {
        if events[timeheap[i]].timeout.usec < events[id].timeout.usec {
          id := timeheap[i];
        }
      }
    }

    /** An event whose time has come leaves all lists and becomes active. */
    method Fire(id: Id, ghost xs: set<Id>)
      requires Bookkept() && id < |events| && Timers(ctls, events) && ArmedBut(ctls, events, xs) && events[id].timed
      modifies this`events, this`eventqueue, this`activequeues, this`timeheap, this`ctls, this`eventCount, this`eventCountActive, this`eventContinue
      ensures Bookkept() && Timers(ctls, events) && ArmedBut(ctls, events, xs)
      ensures events == old(events)[id := Fired(old(events)[id])]
      ensures ctls == DropTimed(old(ctls), id, old(events)[id]) && SameTimers(ctls, old(ctls))
      ensures InHeap(old(events)[id]) ==> |timeheap| < |old(timeheap)|
      ensures activequeues == Enqueued(Dequeued(old(activequeues), id, old(events)[id]), id, Deleted(old(events)[id]))
      ensures eventContinue == (old(eventContinue) || old(events)[id].pri < runningPriority)
    {
      hide Kept, Timers, ArmedBut, Dequeued, Enqueued, DropTimed, Total, SumLen;
      ghost var evs := events;
      ArmedMore(ctls, events, xs, xs + {id});
      DelInternal(id, xs + {id});
      ActiveNolock(id, TIMEOUT, xs);
      assert events == evs[id := Fired(evs[id])];
    }

    /** timeout_process: exactly the events in the heap that are due become active,
        among them the timers of queues, in the order of their times. */
    method TimeoutProcess() returns (fired: seq<Id>)
      requires Valid()
      modifies this`events, this`eventqueue, this`activequeues, this`timeheap, this`ctls, this`eventCount, this`eventCountActive, this`eventContinue
      ensures Valid() && SameTimers(ctls, old(ctls)) && |events| == |old(events)| && |activequeues| == |old(activequeues)|
      ensures forall id: nat {:trigger events[id]} | id < |events| :: events[id] == HeapFired(old(events)[id], now)
      ensures forall id: nat {:trigger events[id]} | id < |events| ::
        var e := old(events)[id];
        events[id] == if e.timed && e.timeout.common == None && e.timeout.usec <= now
                      then e.(inserted := false, timed := false, active := true, res := {TIMEOUT}) else e
      ensures activequeues == FiredInto(old(activequeues), old(events), fired) && Sorted(fired, old(events))
      ensures NoDup(fired) && forall id: nat {:trigger id in fired} :: id in fired <==> id < |old(events)| && InHeap(old(events)[id]) && Due(old(events)[id], now)
      ensures runningPriority <= 0 ==> eventContinue == old(eventContinue)
    {
      hide Kept, Timers, ArmedBut, Dequeued, Enqueued, Sorted, FiredInto, Ahead, Total, SumLen;
      fired := [];
      NoneFired(activequeues, events);
      while timeheap != []
        invariant Valid() && SameTimers(ctls, old(ctls)) && |events| == |old(events)| && |activequeues| == |old(activequeues)|
        invariant forall id: nat {:trigger events[id]} | id < |events| ::
            (events[id] == old(events)[id] || (events[id] == HeapFired(old(events)[id], now) && !InHeap(events[id])))
        invariant NoDup(fired) && forall id: nat {:trigger id in fired} :: id in fired <==> id < |events| && events[id] != old(events)[id]
        invariant activequeues == FiredInto(old(activequeues), old(events), fired)
        invariant Sorted(fired, old(events)) && Ahead(fired, old(events), events)
        invariant runningPriority <= 0 ==> eventContinue == old(eventContinue)
        decreases |timeheap|
      {
        HeapHolds(Qs(), events);
        var top := MinHeapTop();
        if events[top].timeout.usec > now {
          break;
        }
        DequeuedLen(activequeues, top, events[top]);
        EnqueuedLen(Dequeued(activequeues, top, events[top]), top, Deleted(events[top]));
        NextFired(old(activequeues), old(events), events, fired, top);
        Fire(top, {});
        assert top !in fired;
        fired := fired + [top];
      }
      HeapHolds(Qs(), events);
      forall id: nat | id < |events|
        ensures events[id] == HeapFired(old(events)[id], now)
      {
        if InHeap(events[id]) {
          assert id in timeheap;
        }
      }
      forall id: nat
        ensures id in fired <==> id < |old(events)| && InHeap(old(events)[id]) && Due(old(events)[id], now)
      {
        if id < |events| {
          assert events[id] == HeapFired(old(events)[id], now);
        }
      }
    }

    method AddInserted(id: Id, ghost xs: set<Id>)
      requires Bookkept() && id < |events| && Timers(ctls, events) && ArmedBut(ctls, events, xs)
      requires events[id].io && !events[id].inserted
      modifies this`events, this`eventqueue, this`eventCount
      ensures Bookkept() && Timers(ctls, events) && ArmedBut(ctls, events, xs)
      ensures events == old(events)[id := old(events)[id].(inserted := true)]
    {
      hide Kept, Timers, ArmedBut, Total, SumLen;
      EventIsOk(Qs(), events, id);
      TimerIsOk(ctls, events, id);
      FlagsKeep(ctls, events, id, events[id].(inserted := true), ctls, xs);
      InsertInserted(id);
    }

    method SetInterval(id: Id, tv: Tv, ghost xs: set<Id>)
      requires Bookkept() && id < |events| && Timers(ctls, events) && ArmedBut(ctls, events, xs)
      requires TvOk(Some(tv), ctls) && !IsTimer(ctls, id)
      modifies this`events
      ensures Bookkept() && Timers(ctls, events) && ArmedBut(ctls, events, xs)
      ensures events == old(events)[id := old(events)[id].(interval := tv)]
    {
      hide Kept, Timers, ArmedBut, Total, SumLen;
      EventIsOk(Qs(), events, id);
      FlagsKeep(ctls, events, id, events[id].(interval := tv), ctls, xs);
      Assign(id, events[id].(interval := tv));
    }

    /** A new time for an event that has none. */
    method SetTimeout(id: Id, tv: Tv, ghost xs: set<Id>)
      requires Bookkept() && id < |events| && Timers(ctls, events) && ArmedBut(ctls, events, xs)
      requires !events[id].timed && TvOk(Some(tv), ctls) && (IsTimer(ctls, id) ==> id in xs && tv.common.None?)
      modifies this`events, this`timeheap, this`ctls, this`eventCount
      ensures Bookkept() && Timers(ctls, events) && SameTimers(ctls, old(ctls))
      ensures events == old(events)[id := old(events)[id].(timeout := tv, timed := true)]
      ensures ArmedOrFirst(ctls, events, xs, tv.common, id)
      ensures tv.common.None? ==> ctls == old(ctls)
    {
      hide Kept, Timers, ArmedBut, ArmedOrFirst, AddTime, Total, SumLen, IsTimer;
      EventIsOk(Qs(), events, id);
      TimerIsOk(ctls, events, id);
      NotQueued(Qs(), events, id);
      TimeKeeps(ctls, events, id, events[id].(timeout := tv), xs);
      Assign(id, events[id].(timeout := tv));
      TimerIsOk(ctls, events, id);
      AddArms(ctls, events, id, events[id].(timed := true), xs);
      AddTimeSame(ctls, events, id, events[id]);
      InsertTimeout(id);
    }

    /** The first part of event_add_internal: registration for I/O, and the interval of a
        persistent event. */
    method Register(id: Id, tv: Option<Tv>, absolute: bool, ghost xs: set<Id>)
      requires Bookkept() && id < |events| && Timers(ctls, events) && ArmedBut(ctls, events, xs) && TvOk(tv, ctls)
      requires IsTimer(ctls, id) ==> absolute
      modifies this`events, this`eventqueue, this`eventCount
      ensures Bookkept() && Timers(ctls, events) && ArmedBut(ctls, events, xs)
      ensures events == old(events)[id := Registered(old(events)[id], tv, absolute)]
    {
      hide Kept, Timers, ArmedBut, Total, SumLen;
      if events[id].io && !events[id].inserted && !events[id].active {
        AddInserted(id, xs);
      }
      if tv.Some? && events[id].persist && !absolute {
        SetInterval(id, tv.value, xs);
      }
    }

    /** A timeout, and an activation because of one, are taken back. */
    method Unschedule(id: Id, ghost xs: set<Id>)
      requires Bookkept() && id < |events| && Timers(ctls, events) && ArmedBut(ctls, events, xs) && (IsTimer(ctls, id) ==> id in xs)
      modifies this`events, this`activequeues, this`timeheap, this`ctls, this`eventCount, this`eventCountActive
      ensures Bookkept() && Timers(ctls, events) && ArmedBut(ctls, events, xs) && SameTimers(ctls, old(ctls))
      ensures events == old(events)[id := Unscheduled(old(events)[id])]
      ensures activequeues == if TIMEOUT in events[id].res then Dequeued(old(activequeues), id, old(events)[id]) else old(activequeues)
      ensures old(events)[id].timeout.common.None? ==> ctls == old(ctls)
    {
      hide Kept, Timers, ArmedBut, Dequeued, DropTimed, Total, SumLen;
      DropSame(ctls, id, events[id]);
      DropTimeout(id, xs);
      SameIsTimer(ctls, old(ctls), id);
      DequeuedSame(activequeues, id, events[id], old(events)[id]);
      if events[id].active && TIMEOUT in events[id].res {
        DropActive(id, xs);
      }
      NotDequeued(old(activequeues), id, old(events)[id]);
    }

    /** event_add_internal, except that the timer of a queue whose first event is new is
        still to be scheduled. */
    method AddCore(id: Id, tv: Option<Tv>, absolute: bool, ghost xs: set<Id>)
      requires Bookkept() && id < |events| && Timers(ctls, events) && ArmedBut(ctls, events, xs) && TvOk(tv, ctls)
      requires IsTimer(ctls, id) ==> id in xs && tv.Some? && tv.value.common.None? && absolute
      modifies this`events, this`eventqueue, this`activequeues, this`timeheap, this`ctls, this`eventCount, this`eventCountActive
      ensures Bookkept() && Timers(ctls, events) && SameTimers(ctls, old(ctls))
      ensures events == old(events)[id := Added(old(events)[id], tv, absolute, now)]
      ensures tv.None? ==> ArmedBut(ctls, events, xs)
      ensures tv.Some? ==> ArmedOrFirst(ctls, events, xs, tv.value.common, id)
      ensures TvOk(tv, []) && old(events)[id].timeout.common.None? ==> ctls == old(ctls)
      ensures activequeues == if Reactivates(old(events)[id], tv) then Dequeued(old(activequeues), id, old(events)[id]) else old(activequeues)
    {
      hide Kept, Timers, ArmedBut, Dequeued, Total, SumLen, ArmedOrFirst, IsTimer;
      ghost var evs := events;
      SameIsSame(ctls);
      Register(id, tv, absolute, xs);
      if tv.Some? {
        DequeuedSame(activequeues, id, events[id], evs[id]);
        NotDequeued(activequeues, id, evs[id]);
        Unschedule(id, xs);
        SameIsTimer(ctls, old(ctls), id);
        SameTrans(old(ctls), ctls);
        SetTimeout(id, if absolute then tv.value else Tv(now + tv.value.usec, tv.value.common), xs);
      }
      assert events[id] == Added(evs[id], tv, absolute, now);
    }

    /** common_timeout_schedule: the timer of a queue is set to the time of its head. */
    method Schedule(i: nat)
      requires i < |ctls| && ctls[i].events != [] && ctls[i].events[0] < |events|
      requires Bookkept() && Timers(ctls, events) && ArmedBut(ctls, events, {ctls[i].timer}) && ctls[i].timer != ctls[i].events[0]
      modifies this`events, this`eventqueue, this`activequeues, this`timeheap, this`ctls, this`eventCount, this`eventCountActive
      ensures Valid() && SameTimers(ctls, old(ctls)) && |events| == |old(events)|
      ensures ctls[i].timer < |events| && events[ctls[i].timer].timed
        && events[ctls[i].timer].timeout == Tv(old(events[ctls[i].events[0]]).timeout.usec, None)
      ensures forall j: nat {:trigger events[j]} | j < |events| && j != ctls[i].timer :: events[j] == old(events)[j]
      ensures ctls == old(ctls) && activequeues == Dequeued(old(activequeues), ctls[i].timer, old(events)[ctls[i].timer])
    {
      hide Kept, ArmedBut, Dequeued, Total, SumLen, ArmedOrFirst;
      ghost var cs := ctls;
      var timer := ctls[i].timer;
      assert IsTimer(ctls, timer);
      assert TimerOk(events[timer]);
      NotDequeued(activequeues, timer, events[timer]);
      AddCore(timer, Some(Tv(events[ctls[i].events[0]].timeout.usec, None)), true, {timer});
      SetIsArmed(ctls, events, i);
    }

    /** The end of event_add_internal: if the event has come first in its queue, the timer
        of that queue is scheduled. */
    method ScheduleFirst(id: Id, tv: Tv)
      requires Bookkept() && id < |events| && Timers(ctls, events) && !IsTimer(ctls, id) && TvOk(Some(tv), ctls)
      requires ArmedOrFirst(ctls, events, {}, tv.common, id)
      modifies this`events, this`eventqueue, this`activequeues, this`timeheap, this`ctls, this`eventCount, this`eventCountActive
      ensures Valid() && ctls == old(ctls) && |events| == |old(events)|
      ensures match Leads(ctls, Some(tv), id)
        case None => events == old(events) && activequeues == old(activequeues)
        case Some(x) =>
          && x < |events| && x != id && activequeues == Dequeued(old(activequeues), x, old(events)[x])
          && forall j: nat {:trigger events[j]} | j < |events| && j != x :: events[j] == old(events)[j]
    {
      hide Kept, Timers, ArmedBut, Dequeued, Total, SumLen, ArmedOrFirst, IsTimer;
      if tv.common.Some? {
        var c := tv.common.value;
        FirstArms(ctls, events, c, id);
        if ctls[c].events != [] && ctls[c].events[0] == id {
          TimerIsTimer(ctls, c);
          TimerExists(ctls, events, c);
          Schedule(c);
        }
      } else {
        NoneFirst(ctls, events, id);
      }
    }

    /** event_add_internal. The event is unchanged when the backend refuses it; otherwise it
        is scheduled for the time given, or for so much later than now. */
    method AddInternal(id: Id, tv: Option<Tv>, absolute: bool, refused: bool) returns (r: int)
      requires Valid() && id < |events| && !IsTimer(ctls, id) && TvOk(tv, ctls)
      modifies this`events, this`eventqueue, this`activequeues, this`timeheap, this`ctls, this`eventCount, this`eventCountActive
      ensures var e := old(events)[id]; Valid() && r == if refused && e.io && !e.inserted && !e.active then -1 else 0
      ensures r == -1 ==> unchanged(this)
      ensures r == 0 ==> AddedTo(old(Seen()), id, tv, absolute, now, Seen())
      ensures SameTimers(ctls, old(ctls)) && |events| == |old(events)|
      ensures r == 0 ==> IsAdded(old(events)[id], events[id], tv, absolute, now)
      ensures r == 0 && tv.Some? ==>
        events[id].timed && events[id].timeout == if absolute then tv.value else Tv(now + tv.value.usec, tv.value.common)
      ensures r == 0 ==>
        forall j: nat {:trigger events[j]} | j < |events| && j != id && !IsTimer(old(ctls), j) :: events[j] == old(events)[j]
    {
      hide Kept, Timers, ArmedBut, Dequeued, Total, SumLen, ArmedOrFirst, IsTimer, Added, Reactivates, AddedTo, IsAdded, Leads;
      if refused && events[id].io && !events[id].inserted && !events[id].active {
        return -1;
      }
      AddCore(id, tv, absolute, {});
      ghost var mid := Seen();
      SameIsTimer(ctls, old(ctls), id);
      if tv.Some? {
        ScheduleFirst(id, tv.value);
      } else {
        LeadsNone(ctls, id);
      }
      AddedIs(old(Seen()), id, tv, absolute, now, mid, Seen());
      AddedFields(old(Seen()), id, tv, absolute, now, Seen());
      IsAddedTime(old(events)[id], events[id], tv, absolute, now);
      return 0;
    }

    /** The loop of common_timeout_callback: the first `n` events of the queue fire, which
        are those that are due. */
    method FireQueue(c: nat) returns (ghost n: nat)
      requires c < |ctls| && Bookkept() && Timers(ctls, events) && ArmedBut(ctls, events, {ctls[c].timer})
      modifies this`events, this`eventqueue, this`activequeues, this`timeheap, this`ctls, this`eventCount, this`eventCountActive, this`eventContinue
      ensures SameTimers(ctls, old(ctls)) && |events| == |old(events)| && |activequeues| == |old(activequeues)|
      ensures Bookkept() && Timers(ctls, events) && ArmedBut(ctls, events, {ctls[c].timer})
      ensures forall j: nat {:trigger events[j]} | j < |events| :: events[j] == QueueFired(old(events)[j], c, now)
      ensures n == Ripe(old(ctls)[c].events, old(events), now) && ctls[c].events == old(ctls)[c].events[n..]
      ensures activequeues == FiredInto(old(activequeues), old(events), old(ctls)[c].events[..n])
      ensures runningPriority <= 0 ==> eventContinue == old(eventContinue)
    {
      hide Kept, ArmedBut, Dequeued, Enqueued, DropTimed, FiredInto, Total, SumLen, Timers;
      ghost var q, timer := ctls[c].events, ctls[c].timer;
      n := 0;
      SameIsSame(ctls);
      QueueHolds(Qs(), events, c);
      NoneFired(activequeues, events);
      assert q[..0] == [];
      while ctls[c].events != [] && events[ctls[c].events[0]].timeout.usec <= now
        invariant Bookkept() && Timers(ctls, events) && ArmedBut(ctls, events, {timer})
        invariant SameTimers(ctls, old(ctls)) && |events| == |old(events)| && |activequeues| == |old(activequeues)|
        invariant QueueListed(ctls[c].events, events, c)
        invariant n <= |q| && ctls[c].events == q[n..]
        invariant forall j: nat {:trigger events[j]} | j < |events| ::
            (events[j] == old(events)[j] || (events[j] == QueueFired(old(events)[j], c, now) && !events[j].timed))
        invariant forall i {:trigger q[i]} | 0 <= i < n :: Time(old(events), q[i]) <= now
        invariant activequeues == FiredInto(old(activequeues), old(events), q[..n])
        invariant runningPriority <= 0 ==> eventContinue == old(eventContinue)
        decreases |ctls[c].events|
      {
        var ev := ctls[c].events[0];
        ghost var evs, cs := events, ctls;
        assert ev == q[n] && evs[ev].timed && evs[ev] == old(events)[ev];
        DequeuedLen(activequeues, ev, events[ev]);
        EnqueuedLen(Dequeued(activequeues, ev, events[ev]), ev, Deleted(events[ev]));
        SameTrans(old(ctls), ctls);
        FiredNext(old(activequeues), old(events), q, n);
        Fire(ev, {timer});
        DropHead(cs, evs, c);
        QueueHolds(Qs(), events, c);
        assert events == evs[ev := QueueFired(evs[ev], c, now)];
        n := n + 1;
      }
      SortedQueue(ctls, events, c);
      LateQueue(ctls[c].events, events, c, now);
      RipeIs(q, old(events), now, n);
    }

    /** common_timeout_callback: exactly the events of the queue that are due become
        active, in their order, and the timer is set again if any are left. */
    method CommonTimeoutCallback(c: nat)
      requires c < |ctls| && Bookkept() && Timers(ctls, events) && ArmedBut(ctls, events, {ctls[c].timer})
      requires !events[ctls[c].timer].active
      modifies this`events, this`eventqueue, this`activequeues, this`timeheap, this`ctls, this`eventCount, this`eventCountActive, this`eventContinue
      ensures Valid() && |activequeues| == |old(activequeues)|
      ensures QueueCalled(old(Seen()).(continued := eventContinue), c, now, Seen())
      ensures runningPriority <= 0 ==> eventContinue == old(eventContinue)
    {
      hide Kept, ArmedBut, Dequeued, FiredInto, Total, SumLen, Timers, QueueFired, QueueCalled, Ripe, TimerOk, Due;
      TimerExists(ctls, events, c);
      TimerNotFired(events[ctls[c].timer], c, now);
      ghost var n := FireQueue(c);
      ghost var mid := Seen();
      if ctls[c].events != [] {
        HeadOfQueue(Qs(), events, c);
        NotDequeued(activequeues, ctls[c].timer, events[ctls[c].timer]);
        Schedule(c);
      } else {
        EmptyArms(ctls, events, c);
      }
      CalledIs(old(Seen()), c, n, now, mid, Seen());
    }

    /** The callback of the timer of queue `c`, if timeout_process has made it active. */
    method ServeTimer(c: nat)
      requires Valid() && c < |ctls| && TimersLate(ctls, events, c, now)
      modifies this`events, this`eventqueue, this`activequeues, this`timeheap, this`ctls, this`eventCount, this`eventCountActive, this`eventContinue
      ensures Valid() && SameTimers(ctls, old(ctls)) && |events| == |old(events)|
      ensures TimersLate(ctls, events, c + 1, now)
      ensures forall j: nat {:trigger events[j]} | j < |events| && j != old(ctls)[c].timer ::
        events[j] == QueueFired(old(events)[j], c, now)
    {
      hide Kept, ArmedBut, Dequeued, Enqueued, DropTimed, Total, SumLen, Timers, IsTimer, FiredInto, TimersLate, QueueListed;
      hide QueueFired;
      var timer := ctls[c].timer;
      TimerExists(ctls, events, c);
      TimerIsTimer(ctls, c);
      SameIsSame(ctls);
      if events[timer].active {
        ArmedMore(ctls, events, {}, {timer});
        DelInternal(timer, {timer});
        SameTrans(old(ctls), ctls);
        CommonTimeoutCallback(c);
        LaterTimers(old(ctls), old(events), c, now, ctls, events);
      } else {
        QueueHolds(Qs(), events, c);
        QuietQueue(ctls, events, c, now);
        LessLate(ctls, events, c, now);
      }
    }

    /** timeout_process and then the callbacks of the timers it has made active do what
        one heap of all events would do: they activate every event that is due, and
        touch no other. */
    method FireDue()
      requires Valid()
      modifies this`events, this`eventqueue, this`activequeues, this`timeheap, this`ctls, this`eventCount, this`eventCountActive, this`eventContinue
      ensures Valid() && SameTimers(ctls, old(ctls)) && |events| == |old(events)|
      ensures forall j: nat {:trigger events[j]} | j < |events| && !IsTimer(ctls, j) ::
          var e := old(events)[j];
          events[j] == if e.timed && e.timeout.usec <= now
                       then e.(inserted := false, timed := false, active := true, res := {TIMEOUT}) else e
    {
      hide Kept, ArmedBut, Total, SumLen, Timers, IsTimer, FiredInto, Sorted, TimersLate;
      hide FiredBelow, QueueFired, HeapFired, Due;
      ghost var n := |ctls|;
      AllCommon(Qs(), events);
      var fired := TimeoutProcess();
      NoneDue(ctls, events, old(events), now);
      forall j: nat | j < |events|
        ensures events[j] == FiredBelow(old(events)[j], 0, now)
      {
        FiredSteps(old(events)[j], 0, now);
      }
      for c := 0 to |ctls|
        invariant |ctls| == n && Valid() && SameTimers(ctls, old(ctls)) && |events| == |old(events)|
        invariant forall j: nat {:trigger events[j]} | j < |events| && !IsTimer(ctls, j) :: events[j] == FiredBelow(old(events)[j], c, now)
        invariant TimersLate(ctls, events, c, now)
      {
        ghost var evs, cs := events, ctls;
        TimerIsTimer(ctls, c);
        SameTrans(old(ctls), ctls);
        ServeTimer(c);
        forall j: nat | j < |events| && !IsTimer(ctls, j)
          ensures events[j] == FiredBelow(old(events)[j], c + 1, now)
        {
          SameIsTimer(ctls, cs, j);
          assert events[j] == QueueFired(evs[j], c, now);
          FiredSteps(old(events)[j], c, now);
        }
      }
      forall j: nat | j < |events| && !IsTimer(ctls, j)
        ensures var e := old(events)[j];
          events[j] == if e.timed && e.timeout.usec <= now
                       then e.(inserted := false, timed := false, active := true, res := {TIMEOUT}) else e
      {
        FiredSteps(old(events)[j], |ctls|, now);
      }
    }

    /** Valid, and every persistent event repeats in the queue that it is in. */
    ghost predicate Sane()
      reads this
    {
      Valid() && Matching(events)
    }

    /** What is right of a base that is sane is right of what can be seen of it. */
    lemma SaneIsRight()
      requires Sane()
      ensures Right(Seen())
    {
      hide Kept, Right, Timers, ArmedBut, Matching;
      KeptRight(Qs(), Seen());
    }

    /** event_persist_closure, before the callback: the event is scheduled an interval
        after its last time or after now, and never for a time that has gone by. */
    method Reschedule(id: Id, refused: bool)
      requires Sane() && id < |events| && !IsTimer(ctls, id) && events[id].persist
      modifies this`events, this`eventqueue, this`activequeues, this`timeheap, this`ctls, this`eventCount, this`eventCountActive
      ensures Sane() && |activequeues| == |old(activequeues)|
      ensures id < |events|
      ensures var e := old(events)[id];
        if Repeats(e.interval) && !Refuses(e, refused) then
          && NextTime(e, now) >= now
          && events[id].timed && events[id].timeout.common == e.interval.common
          && events[id].timeout.usec ==
               (if TIMEOUT in e.res && e.timeout.usec + e.interval.usec >= now then e.timeout.usec + e.interval.usec
                else now + e.interval.usec)
          && AddedTo(old(Seen()), id, Some(Tv(NextTime(e, now), e.interval.common)), true, now, Seen())
        else unchanged(this)
    {
      hide Kept, ArmedBut, Timers, IsTimer, Dequeued;
      var interval := events[id].interval;
      if Repeats(interval) {
        assert events[id].timeout.common == interval.common;
        EventIsOk(Qs(), events, id);
        var relativeTo := if TIMEOUT in events[id].res then events[id].timeout.usec else now;
        var runAt := relativeTo + interval.usec;
        if runAt < now {
          runAt := now + interval.usec;
        }
        ghost var s := Seen();
        var r := AddInternal(id, Some(Tv(runAt, interval.common)), true, refused);
        if r == 0 {
          AddedMatches(s, id, Some(Tv(runAt, interval.common)), true, now, Seen());
          AddedLen(s, id, Some(Tv(runAt, interval.common)), true, now, Seen());
        }
      }
    }

    /** What a callback may do to the base. */
    method Do(a: Action)
      requires Sane()
      modifies this`events, this`eventqueue, this`activequeues, this`timeheap, this`ctls, this`eventCount, this`eventCountActive, this`eventContinue, this`eventBreak
      ensures Sane() && Did(a, old(Seen()), runningPriority, now, Seen())
    {
      hide Kept, ArmedBut, Timers, IsTimer, Total, SumLen, Dequeued, DropTimed, Enqueued, AddedTo;
      if a.Break? {
        eventBreak := true;
        return;
      }
      if a.id >= |events| || events[a.id].internal {
        return;
      }
      ghost var s := Seen();
      TimersAreInternal(ctls, events, a.id);
      match a {
        case AddEvent(id, tv, refused) =>
          if TvOk(tv, ctls) {
            var r := AddInternal(id, tv, false, refused);
            if r == 0 {
              AddedMatches(s, id, tv, false, now, Seen());
            }
          }
        case DelEvent(id) =>
          DelInternal(id, {});
        case Activate(id, what) =>
          ArmedMore(ctls, events, {}, {} + {id});
          ActiveNolock(id, what, {});
        case SetPriority(id, pri) =>
          if !events[id].active && 0 <= pri < |activequeues| {
            var e := events[id].(pri := pri);
            EventIsOk(Qs(), events, id);
            FlagsKeep(ctls, events, id, e, ctls, {});
            Assign(id, e);
          }
      }
    }

    /** The part of event_process_active_single_queue that takes an event from its queue. */
    method Take(id: Id)
      requires Sane() && id < |events| && events[id].active
      modifies this`events, this`eventqueue, this`activequeues, this`timeheap, this`ctls, this`eventCount, this`eventCountActive
      ensures Bookkept() && Timers(ctls, events) && Matching(events) && SameTimers(ctls, old(ctls))
      ensures ArmedBut(ctls, events, {id}) && (!IsTimer(ctls, id) ==> ArmedBut(ctls, events, {}))
      ensures Seen() == Taken(old(Seen()), id)
    {
      hide Kept, ArmedBut, Timers, Total, SumLen, DropTimed, Dequeued;
      SameIsSame(ctls);
      ghost var xs: set<Id> := if IsTimer(ctls, id) then {id} else {};
      ArmedMore(ctls, events, {}, xs);
      if events[id].persist {
        DropActive(id, xs);
      } else {
        DelInternal(id, xs);
      }
      SameIsTimer(ctls, old(ctls), id);
      ArmedMore(ctls, events, xs, {id});
    }

    /** What comes before the callback of a user: for the timer of a queue that is all. */
    method Begin(id: Id, refused: bool, ghost was: World) returns (timer: bool)
      requires Bookkept() && Timers(ctls, events) && Matching(events) && id < |events|
      requires ArmedBut(ctls, events, {id}) && (!IsTimer(ctls, id) ==> ArmedBut(ctls, events, {}))
      requires id < |was.events| && Seen() == Taken(was, id) && SameTimers(ctls, was.ctls)
      requires IsTimer(ctls, id) ==> runningPriority == 0
      modifies this`events, this`eventqueue, this`activequeues, this`timeheap, this`ctls, this`eventCount, this`eventCountActive, this`eventContinue
      ensures Sane() && |activequeues| == |old(activequeues)| && timer == IsTimer(was.ctls, id)
      ensures Took(was, id, refused, now, Seen())
    {
      hide Kept, ArmedBut, Timers, Total, SumLen, Dequeued, DropTimed, AddedTo;
      SameIsTimer(ctls, was.ctls, id);
      for c := 0 to |ctls|
        invariant forall i {:trigger ctls[i].timer} | 0 <= i < c :: ctls[i].timer != id
        invariant unchanged(this)
      {
        if ctls[c].timer == id {
          ghost var evs := events;
          TimerIsTimer(ctls, c);
          QueueCommon(Qs(), events);
          OneTimer(ctls, events, c);
          CommonTimeoutCallback(c);
          MatchingFired(ctls, evs, events, c, now);
          return true;
        }
      }
      assert !IsTimer(was.ctls, id);
      if events[id].persist {
        Reschedule(id, refused);
      }
      return false;
    }

    /** The callback of an event that was taken: for the timer of a queue, the queue's
        callback; otherwise whatever `script` says, after rescheduling. */
    method Call(id: Id, script: Script, ghost was: World) returns (ghost steps: seq<World>)
      requires Bookkept() && Timers(ctls, events) && Matching(events) && id < |events|
      requires ArmedBut(ctls, events, {id}) && (!IsTimer(ctls, id) ==> ArmedBut(ctls, events, {}))
      requires id < |was.events| && Seen() == Taken(was, id) && SameTimers(ctls, was.ctls)
      requires 0 <= runningPriority < |activequeues| && (IsTimer(ctls, id) ==> runningPriority == 0)
      modifies this`events, this`eventqueue, this`activequeues, this`timeheap, this`ctls, this`eventCount, this`eventCountActive, this`eventContinue, this`eventBreak
      ensures Sane() && |activequeues| == |old(activequeues)|
      ensures |steps| == 1 + (if IsTimer(was.ctls, id) then 0 else |script.actions|) && steps[|steps| - 1] == Seen()
      ensures Took(was, id, script.refused, now, steps[0])
      ensures forall i {:trigger script.actions[i]} | 0 <= i < |steps| - 1 :: Did(script.actions[i], steps[i], runningPriority, now, steps[i + 1])
    {
      hide Kept, ArmedBut, Timers, Total, SumLen, IsTimer, Took, Taken, Did;
      var timer := Begin(id, script.refused, was);
      steps := [Seen()];
      if timer {
        return;
      }
      for i := 0 to |script.actions|
        invariant Sane() && |activequeues| == |old(activequeues)|
        invariant |steps| == i + 1 && steps[i] == Seen() && Took(was, id, script.refused, now, steps[0])
        invariant forall j {:trigger script.actions[j]} | 0 <= j < i :: Did(script.actions[j], steps[j], runningPriority, now, steps[j + 1])
      {
        Do(script.actions[i]);
        DidLen(script.actions[i], steps[i], runningPriority, now, Seen());
        steps := steps + [Seen()];
      }
    }

    /** One turn of the loop of event_process_active_single_queue: the head of the queue
        is taken and its callback runs. */
    method Serve(p: nat, script: Script) returns (internal: bool, ghost l: Start)
      requires Sane() && p < |activequeues| && activequeues[p] != [] && runningPriority == p
      requires NoUrgent(activequeues, p) && !eventContinue
      modifies this`events, this`eventqueue, this`activequeues, this`timeheap, this`ctls, this`eventCount, this`eventCountActive, this`eventContinue, this`eventBreak
      ensures Sane() && |activequeues| == |old(activequeues)| && (eventContinue || NoUrgent(activequeues, p))
      ensures StartOk(l, script, now) && l.was == old(Seen()) && Last(l) == Seen() && l.pri == p
      ensures internal == Internal(l) && (internal ==> !eventContinue)
    {
      hide Kept, ArmedBut, Timers, Total, SumLen, IsTimer, Matching, Right, Took, Did, Taken;
      var id := activequeues[p][0];
      InQueue(Qs(), events, p);
      SaneIsRight();
      TimersAreInternal(ctls, events, id);
      ghost var was := Seen();
      internal := events[id].internal;
      Take(id);
      SameIsTimer(ctls, was.ctls, id);
      TakenLen(was, id);
      ghost var steps := Call(id, script, was);
      SaneIsRight();
      l := Start(id, p, was, steps);
      StartUrgent(l, script, now);
    }

    /** event_process_active_single_queue. `scripts` says what the callbacks do; the run
        ends where it ends. */
    method ProcessQueue(p: nat, scripts: seq<Script>, first: nat) returns (count: int, k: nat, ghost log: seq<Start>)
      requires Sane() && p < |activequeues| && runningPriority == p && NoUrgent(activequeues, p) && !eventContinue && first <= |scripts|
      modifies this`events, this`eventqueue, this`activequeues, this`timeheap, this`ctls, this`eventCount, this`eventCountActive, this`eventContinue, this`eventBreak
      ensures Sane() && |activequeues| == |old(activequeues)|
      ensures Ran(old(Seen()), log, scripts, first, now, Seen()) && k == first + |log| <= |scripts|
      ensures AtPriority(log, p) && AllBegin(log, scripts, first, now)
      ensures count < 0 ==> eventBreak || k == |scripts|
      ensures count >= 0 ==> count == CountUsers(log) && (log != [] ==> !eventBreak) && (eventContinue || activequeues[p] == [])
      ensures count == 0 ==> !eventContinue && NoUrgent(activequeues, p)
    {
      hide Kept, ArmedBut, Timers, Total, SumLen, Matching, StartOk, Last, Ran, NoUrgent, Internal, AtPriority, AllBegin, CountUsers;
      EmptyAt(p);
      count, k, log := 0, first, [];
      RanNone(Seen(), scripts, first, now);
      while activequeues[p] != []
        invariant Sane() && |activequeues| == |old(activequeues)| && count >= 0
        invariant NoUrgent(activequeues, p) && !eventContinue && (log != [] ==> !eventBreak)
        invariant Ran(old(Seen()), log, scripts, first, now, Seen()) && k == first + |log| <= |scripts|
        invariant count == CountUsers(log) && AtPriority(log, p) && AllBegin(log, scripts, first, now)
        decreases |scripts| - k
      {
        if k == |scripts| {
          return -1, k, log;
        }
        ghost var mid := Seen();
        var internal;
        ghost var l;
        internal, l := Serve(p, scripts[k]);
        RanSnoc(old(Seen()), log, scripts, first, now, mid, l);
        BeginsSnoc(log, scripts, first, now, l);
        CountSnoc(log, l);
        if !internal {
          count := count + 1;
        }
        log := log + [l];
        k := k + 1;
        if eventBreak {
          return -1, k, log;
        }
        if eventContinue {
          break;
        }
      }
    }

    /** event_process_active, without deferred callbacks. */
    method ProcessActive(scripts: seq<Script>, first: nat) returns (c: int, k: nat, ghost log: seq<Start>)
      requires Sane() && !eventContinue && first <= |scripts|
      modifies this`events, this`eventqueue, this`activequeues, this`timeheap, this`ctls, this`eventCount, this`eventCountActive, this`eventContinue, this`eventBreak, this`runningPriority
      ensures Sane() && |activequeues| == |old(activequeues)| && runningPriority == -1
      ensures Ran(old(Seen()), log, scripts, first, now, Seen()) && k == first + |log| && OnePriority(log)
      ensures Ended(log, c, k == |scripts|, Seen())
    {
      hide Kept, ArmedBut, Timers, Total, SumLen, Matching, Ran, OnePriority, CountUsers, Internal;
      c, k, log := 0, first, [];
      RanNone(Seen(), scripts, first, now);
      var i := 0;
      while i < |activequeues|
        invariant Sane() && |activequeues| == |old(activequeues)| && i <= |activequeues|
        invariant NoUrgent(activequeues, i) && !eventContinue && (log != [] ==> !eventBreak)
        invariant Ran(old(Seen()), log, scripts, first, now, Seen()) && k == first + |log| <= |scripts|
        invariant c == 0 == CountUsers(log) && OnePriority(log)
        decreases |old(activequeues)| - i
      {
        if activequeues[i] != [] {
          runningPriority := i;
          ghost var mid, more := Seen(), [];
          c, k, more := ProcessQueue(i, scripts, k);
          RanMore(old(Seen()), log, more, scripts, first, now, mid, Seen());
          PriorityMore(log, more, i);
          log := log + more;
          if c != 0 {
            break;
          }
        }
        i := i + 1;
      }
      runningPriority := -1;
    }

    /** The dispatch of the backend, as far as the base sees it. */
    method Ready(ready: seq<Id>)
      requires Sane() && runningPriority == -1
      modifies this`events, this`activequeues, this`eventCount, this`eventCountActive, this`eventContinue
      ensures Sane() && Seen() == Readied(old(Seen()), ready)
    {
      hide Kept, ArmedBut, Timers, Total, SumLen, IsTimer;
      assert ready[..0] == [];
      for i := 0 to |ready|
        invariant Sane() && Seen() == Readied(old(Seen()), ready[..i])
      {
        assert ready[..i + 1][..i] == ready[..i];
        var id := ready[i];
        if id < |events| && events[id].io && events[id].inserted {
          TimerIsOk(ctls, events, id);
          ArmedMore(ctls, events, {}, {} + {id});
          ActiveNolock(id, READY, {});
        }
      }
      assert ready[..|ready|] == ready;
    }

    /** One round of event_base_loop: time goes on to `time`, the events in `ready` are
        ready for I/O, what is due becomes active, and then callbacks run. */
    method RunRound(round: Round) returns (ghost trace: Trace)
      requires Sane() && runningPriority == -1 && !eventContinue
      modifies this
      ensures Sane() && runningPriority == -1
      ensures RoundOk(trace, round) && trace.start == old(Seen()) && trace.end == Seen()
    {
      hide Kept, ArmedBut, Timers, Total, SumLen, IsTimer, Ran, Sorted;
      Ready(round.ready);
      ReadiedCalm(old(Seen()), round.ready);
      now := round.time;
      ghost var ready := Seen();
      var fired := TimeoutProcess();
      MatchingHeap(ready.events, events, now);
      ghost var due := Seen();
      RanNone(due, round.scripts, 0, now);
      if eventCountActive > 0 {
        var c, k;
        ghost var log;
        c, k, log := ProcessActive(round.scripts, 0);
        trace := Trace(old(Seen()), ready, fired, due, log, c, Seen());
      } else {
        EmptySum(activequeues);
        trace := Trace(old(Seen()), ready, fired, due, [], 0, Seen());
      }
    }

    /** Nothing is left to wait for. */
    ghost predicate Done()
      reads this
    {
      && AllEmpty(activequeues)
      && forall id: nat {:trigger events[id]} | id < |events| && !events[id].internal ::
           !events[id].inserted && !events[id].active && !events[id].timed
    }

    /** event_base_loop, over any run: 1 when nothing is left to wait for. */
    method Loop(rounds: seq<Round>) returns (r: int, ghost traces: seq<Trace>)
      requires Sane() && runningPriority == -1
      modifies this
      ensures Sane() && runningPriority == -1 && 0 <= r <= 1
      ensures Rounds(old(Seen()).(broken := false), traces, rounds, Seen())
      ensures |traces| <= |rounds| && forall i {:trigger traces[i]} | 0 <= i < |traces| ::
        AllBegin(traces[i].log, rounds[i].scripts, 0, rounds[i].time)
      ensures |traces| < |rounds| ==> r == 1 || eventBreak
      ensures r == 1 ==> Done()
    {
      hide Kept, ArmedBut, Timers, Matching, Total, SumLen, IsTimer, RoundOk, AllBegin, Rounds;
      eventBreak := false;
      r, traces := 0, [];
      RoundsNone(Seen(), rounds);
      for i := 0 to |rounds|
        invariant Sane() && runningPriority == -1 && |traces| == i <= |rounds|
        invariant Rounds(old(Seen()).(broken := false), traces, rounds, Seen())
        invariant forall j {:trigger traces[j]} | 0 <= j < i :: AllBegin(traces[j].log, rounds[j].scripts, 0, rounds[j].time)
      {
        ghost var mid := Seen();
        eventContinue := false;
        RoundsCalm(old(Seen()).(broken := false), traces, rounds, mid, Seen());
        if eventBreak {
          return;
        }
        if eventCount == 0 && eventCountActive == 0 {
          EmptySum(activequeues);
          NoWeight(events);
          r := 1;
          return;
        }
        ghost var trace := RunRound(rounds[i]);
        RoundBegins(trace, rounds[i]);
        RoundsSnoc(old(Seen()).(broken := false), traces, rounds, mid, trace);
        traces := traces + [trace];
      }
    }
  }

  // What persists

  /** An event that persists, is registered for I/O and has no time. */
  predicate Stands(w: World, x: Id) {
    && x < |w.events| && !IsTimer(w.ctls, x)
    && var e := w.events[x];
       e.io && e.persist && e.inserted && !e.timed && e.interval == Tv(0, None)
  }

  predicate Spares(a: Action, x: Id) {
    !(a.DelEvent? && a.id == x) && !(a.AddEvent? && a.id == x && a.tv.Some?)
  }

  /** No callback deletes the event or gives it a time. */
  predicate AllSpare(scripts: seq<Script>, x: Id) {
    forall i, k {:trigger scripts[i].actions[k]} | 0 <= i < |scripts| && 0 <= k < |scripts[i].actions| :: Spares(scripts[i].actions[k], x)
  }

  lemma DidStands(a: Action, s: World, running: int, now: nat, t: World, x: Id)
    requires Did(a, s, running, now, t) && Stands(s, x) && Spares(a, x)
    ensures Stands(t, x)
  {
    hide AddedTo, IsTimer, Dequeued, Enqueued, DropTimed;
    if a.AddEvent? && t != s {
      AddedFields(s, a.id, a.tv, false, now, t);
      AddedTimers(s, a.id, a.tv, false, now, t);
      SameIsTimer(t.ctls, s.ctls, x);
    } else if a.DelEvent? && t != s {
      DropSame(s.ctls, a.id, s.events[a.id]);
      SameIsTimer(t.ctls, s.ctls, x);
    }
  }

  lemma AddedTimers(s: World, id: Id, tv: Option<Tv>, absolute: bool, now: nat, t: World)
    requires AddedTo(s, id, tv, absolute, now, t)
    ensures SameTimers(t.ctls, s.ctls)
  {
  }

  lemma TookTimers(s: World, id: Id, refused: bool, now: nat, t: World, x: Id)
    requires id < |s.events| && Took(s, id, refused, now, t)
    ensures IsTimer(t.ctls, x) <==> IsTimer(s.ctls, x)
  {
    hide AddedTo, Dequeued, DropTimed, FiredInto, Ripe;
    var e, u := s.events[id], Taken(s, id);
    DropSame(s.ctls, id, e);
    SameIsSame(s.ctls);
    SameIsTimer(u.ctls, s.ctls, x);
    if IsTimer(s.ctls, id) {
      var c :| 0 <= c < |s.ctls| && s.ctls[c].timer == id;
      assert u.ctls[c].timer == id;
      SameIsTimer(t.ctls, u.ctls, x);
    } else if e.persist && Repeats(e.interval) && !Refuses(u.events[id], refused) {
      AddedTimers(u, id, Some(Tv(NextTime(e, now), e.interval.common)), true, now, t);
      SameIsTimer(t.ctls, u.ctls, x);
    }
  }

  lemma StartStands(l: Start, script: Script, now: nat, x: Id)
    requires StartOk(l, script, now) && Stands(l.was, x) && forall k | 0 <= k < |script.actions| :: Spares(script.actions[k], x)
    ensures Stands(Last(l), x)
  {
    hide Right, Took, Did, IsTimer, NoUrgent, Spares;
    StartBegins(l, script, now);
    TookTimers(l.was, l.id, script.refused, now, l.steps[0], x);
    if IsTimer(l.was.ctls, l.id) {
      TimerAt(l.was.ctls, l.id);
    }
    assert Stands(l.steps[0], x);
    for i := 0 to |l.steps| - 1
      invariant Stands(l.steps[i], x)
    {
      DidStands(script.actions[i], l.steps[i], l.pri, now, l.steps[i + 1], x);
    }
  }

  lemma TimerAt(ctls: seq<Ctl>, id: Id)
    requires IsTimer(ctls, id)
    ensures exists c {:trigger ctls[c]} :: 0 <= c < |ctls| && ctls[c].timer == id
  {
  }

  lemma {:induction false} LogStands(was: World, log: seq<Start>, scripts: seq<Script>, first: nat, now: nat, end: World, x: Id, n: nat)
    requires Ran(was, log, scripts, first, now, end) && Stands(was, x) && AllSpare(scripts, x) && n <= |log|
    ensures Stands(if n == 0 then was else Last(log[n - 1]), x)
    decreases n
  {
    hide StartOk, Stands, Spares;
    if n > 0 {
      LogStands(was, log, scripts, first, now, end, x, n - 1);
      assert log[n - 1].was == if n == 1 then was else Last(log[n - 2]);
      StartStands(log[n - 1], scripts[first + n - 1], now, x);
    }
  }

  lemma {:induction false} ReadiedStands(s: World, ready: seq<Id>, x: Id)
    requires Stands(s, x)
    ensures Stands(Readied(s, ready), x) && (x in ready ==> Readied(s, ready).events[x].active)
  {
    hide Enqueued, IsTimer;
    if ready != [] {
      ReadiedStands(s, ready[..|ready| - 1], x);
      assert ready == ready[..|ready| - 1] + [ready[|ready| - 1]];
    }
  }

  lemma RoundStands(t: Trace, round: Round, x: Id)
    requires RoundOk(t, round) && Stands(t.start, x) && AllSpare(round.scripts, x)
    ensures Stands(t.end, x) && Stands(t.due, x) && (x in round.ready ==> t.due.events[x].active)
  {
    hide Ran, Ended, OnePriority, FiredInto, IsTimer, AllSpare, Readied;
    ReadiedStands(t.start, round.ready, x);
    SameIsTimer(t.due.ctls, t.ready.ctls, x);
    LogStands(t.due, t.log, round.scripts, 0, round.time, t.end, x, |t.log|);
    EndIs(t.due, t.log, round.scripts, round.time, t.end);
  }

  lemma EndIs(was: World, log: seq<Start>, scripts: seq<Script>, now: nat, end: World)
    requires Ran(was, log, scripts, 0, now, end)
    ensures end == if log == [] then was else Last(log[|log| - 1])
  {
  }

  /** In every run in which no callback deletes an event that persists and stands for I/O,
      or gives it a time, it stays registered, and becomes active in every round in which it
      is ready. */
  lemma {:induction false} StaysRegistered(was: World, traces: seq<Trace>, rounds: seq<Round>, end: World, x: Id, n: nat)
    requires Rounds(was, traces, rounds, end) && Stands(was, x) && n <= |traces|
    requires forall i {:trigger rounds[i]} | 0 <= i < |rounds| :: AllSpare(rounds[i].scripts, x)
    ensures Stands(if n == 0 then was else traces[n - 1].end, x)
    ensures n > 0 && x in rounds[n - 1].ready ==> x < |traces[n - 1].due.events| && traces[n - 1].due.events[x].active
    decreases n
  {
    hide RoundOk, AllSpare, IsTimer;
    if n > 0 {
      StaysRegistered(was, traces, rounds, end, x, n - 1);
      assert traces[n - 1].start == Calm(if n == 1 then was else traces[n - 2].end);
      RoundStands(traces[n - 1], rounds[n - 1], x);
    }
  }

  /** Over any run: whenever a callback starts, it is that of the head of a queue and
      nothing more urgent is active; within a round callbacks start in the order of
      urgency, and once one of a user has run only those of the same priority do. */
  lemma UrgentFirst(was: World, traces: seq<Trace>, rounds: seq<Round>, end: World, r: nat, i: nat, j: nat)
    requires Rounds(was, traces, rounds, end) && r < |traces| && i < j < |traces[r].log|
    ensures NoUrgent(traces[r].log[j].was.active, traces[r].log[j].pri)
    ensures traces[r].log[i].pri <= traces[r].log[j].pri
    ensures Internal(traces[r].log[i]) || traces[r].log[i].pri == traces[r].log[j].pri
  {
    hide HeapFiredTo, Took, Did, Right;
    var t := traces[r];
    assert RoundOk(t, rounds[r]);
    PrioritiesRise(t.due, t.log, rounds[r].scripts, 0, rounds[r].time, t.end, i, j);
    assert StartOk(t.log[j], rounds[r].scripts[j], rounds[r].time);
  }

  /** What an action does to its event, field by field; no other but a timer changes. */
  lemma DidFields(a: Action, s: World, running: int, now: nat, t: World)
    requires Did(a, s, running, now, t) && !a.Break? && a.id < |s.events| && !s.events[a.id].internal
    ensures |t.events| == |s.events|
    ensures forall j: nat {:trigger t.events[j]} | j < |t.events| && j != a.id && !IsTimer(s.ctls, j) :: t.events[j] == s.events[j]
    ensures var e, f := s.events[a.id], t.events[a.id];
      match a
      case AddEvent(_, tv, refused) =>
        if !TvOk(tv, s.ctls) || (refused && e.io && !e.inserted && !e.active) then t == s
        else IsAdded(e, f, tv, false, now)
      case DelEvent(id) =>
        && f == e.(inserted := false, active := false, timed := false)
        && (e.active && e.pri < |s.active| ==> id !in t.active[e.pri])
      case Activate(id, what) =>
        && f == e.(active := true, res := if e.active then e.res + {what} else {what})
        && (!e.active && e.pri < |s.active| ==> t.active == s.active[e.pri := s.active[e.pri] + [id]])
        && (e.active ==> t.active == s.active)
        && (t.continued <==> s.continued || (!e.active && e.pri < running))
      case SetPriority(_, pri) => f == if !e.active && 0 <= pri < |s.active| then e.(pri := pri) else e
  {
    hide AddedTo, IsTimer, DropTimed, Minus, IsAdded;
    if a.AddEvent? && TvOk(a.tv, s.ctls) && !Refuses(s.events[a.id], a.refused) {
      AddedFields(s, a.id, a.tv, false, now, t);
    }
  }

  /** An event is added for `d` later than now, and then the time is `later`: before its
      time has come it has not fired, and from then on it has. */
  method AddAndWait(b: EventBase, id: Id, d: nat, common: Option<nat>, later: nat)
    requires b.Valid() && id < |b.events| && !IsTimer(b.ctls, id) && TvOk(Some(Tv(d, common)), b.ctls)
    modifies b
    ensures b.Valid() && |b.events| == |old(b.events)|
    ensures later < old(b.now) + d ==>
      && b.events[id].timed && b.events[id].timeout == Tv(old(b.now) + d, common)
      && (b.events[id].active <==> old(b.events)[id].active && TIMEOUT !in old(b.events)[id].res)
    ensures later >= old(b.now) + d ==>
      b.events[id].active && b.events[id].res == {TIMEOUT} && !b.events[id].timed && !b.events[id].inserted
  {
    hide Kept, ArmedBut, Timers, Total, SumLen, IsTimer, AddedTo;
    ghost var was := b.ctls;
    var r := b.AddInternal(id, Some(Tv(d, common)), false, false);
    SameIsTimer(b.ctls, was, id);
    b.now := later;
    b.FireDue();
    SameIsTimer(b.ctls, was, id);
  }

  /** An event that is ready for I/O and has timed out as well is not active any more
      once it is added again with a time. */
  method LoseReady(tv: Tv) returns (b: EventBase, ghost was: World)
    requires tv.common.None?
    ensures b.Sane() && |was.events| == 1 && was.events[0].active && was.events[0].res == {READY, TIMEOUT}
    ensures Did(AddEvent(0, Some(tv), false), was, -1, b.now, b.Seen()) && |b.events| == 1 && !b.events[0].active
  {
    hide Kept, ArmedBut, Timers, Matching, Dequeued, Enqueued;
    b := new EventBase(1);
    var _ := b.NewEvent(true, false, false);
    b.Do(Activate(0, READY));
    b.Do(Activate(0, TIMEOUT));
    was := b.Seen();
    b.Do(AddEvent(0, Some(tv), false));
    assert TvOk(Some(tv), was.ctls);
  }
}
