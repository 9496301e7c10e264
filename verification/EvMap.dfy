/** The fd map, the changelist that coalesces interest changes, and the epoll
    backend that tells them to the kernel. */
module EvMap {
  import opened Bytes

  const MAX_EVENTS_PER_FD: nat := 0xffff

  /** EV_READ and EV_WRITE, or EPOLLIN and EPOLLOUT. */
  datatype Mask = Mask(read: bool, write: bool) {
    predicate Any() {
      read || write
    }

    function Or(m: Mask): Mask {
      Mask(read || m.read, write || m.write)
    }
  }

  const Nothing: Mask := Mask(false, false)

  datatype Event = Event(id: nat, events: Mask)

  /** The events on one fd, how many read and write, and one more than the
      number of the fd's entry in the changelist. */
  datatype IoSlot = IoSlot(events: seq<Event>, nread: nat, nwrite: nat, idxplus1: nat)

  datatype Delta = Keep | Add | Del

  /** A queued change of the interest in an fd. */
  datatype Change = Change(fd: nat, oldEvents: Mask, read: Delta, write: Delta)

  /** One half of a change after an add of its event, if `asked`. */
  function AfterAdd(d: Delta, asked: bool): Delta {
    if asked then Add else d
  }

  /** One half of a change after a delete of its event, if `asked`. */
  function AfterDel(d: Delta, wasOn: bool, asked: bool): Delta {
    if !asked then d else if !wasOn && d.Add? then Keep else Del
  }

  /** Adding `e` to the events `es` of an fd would overflow a counter. */
  function TooMany(es: seq<Event>, e: Event): bool {
    || Count(es).0 + (if e.events.read then 1 else 0) > MAX_EVENTS_PER_FD
    || Count(es).1 + (if e.events.write then 1 else 0) > MAX_EVENTS_PER_FD
  }

  /** The interest that comes with the first event, and goes with the last. */
  function TurnsOn(es: seq<Event>, e: Event): Mask {
    Mask(e.events.read && Count(es).0 == 0, e.events.write && Count(es).1 == 0)
  }

  function TurnsOff(es: seq<Event>, e: Event): Mask {
    Mask(e.events.read && Count(es).0 == 1, e.events.write && Count(es).1 == 1)
  }

  /** What the fd should be watched for after the change. */
  function Target(ch: Change): Mask {
    Mask(ch.read.Add? || (ch.read.Keep? && ch.oldEvents.read),
         ch.write.Add? || (ch.write.Keep? && ch.oldEvents.write))
  }

  predicate NoOp(ch: Change) {
    ch.read.Keep? && ch.write.Keep?
  }

  /** How many of the events read, and how many write. */
  function Count(es: seq<Event>): (nat, nat) {
    if es == [] then (0, 0)
    else
      var c := Count(es[1..]);
      (c.0 + if es[0].events.read then 1 else 0, c.1 + if es[0].events.write then 1 else 0)
  }

  /** `es` without its first occurrence of `e`. */
  function Without(es: seq<Event>, e: Event): seq<Event> {
    if es == [] then [] else if es[0] == e then es[1..] else [es[0]] + Without(es[1..], e)
  }

  /** The places of the events that read, and of those that write. */
  function Readers(es: seq<Event>): set<nat> {
    set i: nat | i < |es| && es[i].events.read
  }

  function Writers(es: seq<Event>): set<nat> {
    set i: nat | i < |es| && es[i].events.write
  }

  lemma PlacesAppend(es: seq<Event>, e: Event)
    ensures |Readers(es + [e])| == |Readers(es)| + (if e.events.read then 1 else 0)
    ensures |Writers(es + [e])| == |Writers(es)| + (if e.events.write then 1 else 0)
  {
    assert Readers(es + [e]) == if e.events.read then Readers(es) + {|es|} else Readers(es);
    assert Writers(es + [e]) == if e.events.write then Writers(es) + {|es|} else Writers(es);
  }

  lemma {:induction false} CountIs(es: seq<Event>)
    ensures Count(es) == (|Readers(es)|, |Writers(es)|)
  {
    if es != [] {
      hide Count, Readers, Writers;
      var init, e := es[..|es| - 1], es[|es| - 1];
      assert es == init + [e];
      CountIs(init);
      CountAppend(init, e);
      PlacesAppend(init, e);
    }
  }

  /** When the counters are full, and when the first event of a kind comes. */
  lemma CountMeans(es: seq<Event>, ev: Event)
    requires Count(es).0 <= MAX_EVENTS_PER_FD && Count(es).1 <= MAX_EVENTS_PER_FD
    ensures TooMany(es, ev) <==>
      || (ev.events.read && |Readers(es)| == 0xffff)
      || (ev.events.write && |Writers(es)| == 0xffff)
    ensures Count(es).0 == 0 <==> forall e | e in es :: !e.events.read
    ensures Count(es).1 == 0 <==> forall e | e in es :: !e.events.write
  {
    CountIs(es);
    forall e | e in es
      ensures e.events.read ==> Readers(es) != {}
      ensures e.events.write ==> Writers(es) != {}
    {
      var i: nat :| i < |es| && es[i] == e;
      assert e.events.read ==> i in Readers(es);
      assert e.events.write ==> i in Writers(es);
    }
    assert Count(es).0 > 0 ==> exists i :: i in Readers(es);
    assert Count(es).1 > 0 ==> exists i :: i in Writers(es);
  }

  /** Exactly one occurrence goes. */
  lemma {:induction false} WithoutIs(es: seq<Event>, e: Event) returns (i: nat)
    requires e in es
    ensures i < |es| && es[i] == e && Without(es, e) == es[..i] + es[i + 1..]
  {
    if es[0] == e {
      return 0;
    }
    i := WithoutIs(es[1..], e);
    i := i + 1;
    assert es[..i] == [es[0]] + es[1..][..i - 1];
  }

  lemma {:induction false} CountAppend(es: seq<Event>, e: Event)
    ensures Count(es + [e]).0 == Count(es).0 + (if e.events.read then 1 else 0)
    ensures Count(es + [e]).1 == Count(es).1 + (if e.events.write then 1 else 0)
  {
    if es == [] {
      assert [e][1..] == [];
    } else {
      CountAppend(es[1..], e);
      assert (es + [e])[1..] == es[1..] + [e];
    }
  }

  lemma {:induction false} CountWithout(es: seq<Event>, e: Event)
    requires e in es
    ensures Count(Without(es, e)).0 == Count(es).0 - (if e.events.read then 1 else 0)
    ensures Count(Without(es, e)).1 == Count(es).1 - (if e.events.write then 1 else 0)
  {
    if es[0] != e {
      CountWithout(es[1..], e);
      assert ([es[0]] + Without(es[1..], e))[1..] == Without(es[1..], e);
    }
  }

  /** What the kernel watches the fd for. */
  function Watched(kernel: map<nat, Mask>, fd: nat): Mask {
    if fd in kernel then kernel[fd] else Nothing
  }

  function Interest(s: Option<IoSlot>): Mask {
    if s.None? then Nothing else Mask(s.value.nread > 0, s.value.nwrite > 0)
  }

  function SlotOf(entries: seq<Option<IoSlot>>, fd: int): Option<IoSlot> {
    if 0 <= fd < |entries| then entries[fd] else None
  }

  /** The change that a get-or-construct finds. */
  ghost function Before(changes: seq<Change>, fd: nat, oldEvents: Mask, idxplus1: nat): Change
    requires idxplus1 <= |changes|
  {
    if idxplus1 > 0 then changes[idxplus1 - 1] else Change(fd, oldEvents, Keep, Keep)
  }

  /** The changelist got, or changed, just its entry for `fd`, number `i`. */
  ghost predicate Queued(was: seq<Change>, now: seq<Change>, fd: nat, i: nat, idxplus1: nat)
  {
    && i < |now| && now[i].fd == fd
    && if idxplus1 == 0 then i == |was| && now == was + [now[i]]
       else i == idxplus1 - 1 && i < |was| && now == was[i := now[i]]
  }

  /** The changelist and the `idxplus1` fields are inverses of each other. */
  ghost predicate Inverse(entries: seq<Option<IoSlot>>, changes: seq<Change>) {
    && (forall i {:trigger changes[i].fd} | 0 <= i < |changes| ::
          changes[i].fd < |entries| && entries[changes[i].fd].Some? && entries[changes[i].fd].value.idxplus1 == i + 1)
    && (forall fd {:trigger entries[fd].value.idxplus1} | 0 <= fd < |entries| && entries[fd].Some? ::
          var k := entries[fd].value.idxplus1;
          k <= |changes| && (k > 0 ==> changes[k - 1].fd == fd))
  }

  lemma InverseRefill(entries: seq<Option<IoSlot>>, changes: seq<Change>, fd: nat, s: IoSlot)
    requires Inverse(entries, changes) && fd < |entries| && entries[fd].Some?
    requires s.idxplus1 == entries[fd].value.idxplus1
    ensures Inverse(entries[fd := Some(s)], changes)
  {
  }

  lemma InverseUpdate(entries: seq<Option<IoSlot>>, changes: seq<Change>, k: nat, ch: Change)
    requires Inverse(entries, changes) && k < |changes| && ch.fd == changes[k].fd
    ensures Inverse(entries, changes[k := ch])
  {
  }

  lemma QueuedUpdate(was: seq<Change>, now: seq<Change>, fd: nat, i: nat, idxplus1: nat, ch: Change)
    requires Queued(was, now, fd, i, idxplus1) && ch.fd == fd
    ensures Queued(was, now[i := ch], fd, i, idxplus1)
  {
  }

  predicate SlotCounted(s: IoSlot) {
    && Count(s.events) == (s.nread, s.nwrite)
    && s.nread <= MAX_EVENTS_PER_FD && s.nwrite <= MAX_EVENTS_PER_FD
  }

  /** The counters of every entry count its events. */
  ghost predicate Counted(entries: seq<Option<IoSlot>>) {
    forall fd {:trigger entries[fd].value} | 0 <= fd < |entries| && entries[fd].Some? :: SlotCounted(entries[fd].value)
  }

  /** Every queued change aims at the present interest in its fd. */
  ghost predicate Aimed(entries: seq<Option<IoSlot>>, changes: seq<Change>) {
    forall i {:trigger changes[i].fd} | 0 <= i < |changes| ::
      Target(changes[i]) == Interest(SlotOf(entries, changes[i].fd))
  }

  /** What the library last told the kernel about the fd. */
  ghost function Told(entries: seq<Option<IoSlot>>, changes: seq<Change>, fd: nat): Mask {
    var s := SlotOf(entries, fd);
    if s.Some? && 0 < s.value.idxplus1 <= |changes| then changes[s.value.idxplus1 - 1].oldEvents else Interest(s)
  }

  ghost predicate InSync(entries: seq<Option<IoSlot>>, changes: seq<Change>, kernel: map<nat, Mask>, lost: set<nat>) {
    forall fd: nat {:trigger Watched(kernel, fd)} {:trigger Told(entries, changes, fd)} | fd !in lost ::
      Watched(kernel, fd) == Told(entries, changes, fd)
  }

  /** The interest after an add or a delete. */
  function After(m: Mask, events: Mask, add: bool): Mask {
    if add then m.Or(events) else Mask(m.read && !events.read, m.write && !events.write)
  }

  lemma AimedQueued(entries: seq<Option<IoSlot>>, was: seq<Change>, now: seq<Change>, fd: nat, i: nat, s: IoSlot)
    requires Inverse(entries, was) && Aimed(entries, was)
    requires fd < |entries| && entries[fd].Some? && Queued(was, now, fd, i, entries[fd].value.idxplus1)
    requires Target(now[i]) == Interest(Some(s))
    ensures Aimed(entries[fd := Some(s)], now)
  {
    var es := entries[fd := Some(s)];
    forall j | 0 <= j < |now|
      ensures Target(now[j]) == Interest(SlotOf(es, now[j].fd))
    {
      if j != i {
        assert now[j] == was[j] && was[j].fd != fd;
      }
    }
  }

  lemma ToldQueued(entries: seq<Option<IoSlot>>, was: seq<Change>, now: seq<Change>, fd: nat, i: nat, s: IoSlot, g: nat)
    requires Inverse(entries, was)
    requires fd < |entries| && entries[fd].Some? && Queued(was, now, fd, i, entries[fd].value.idxplus1)
    requires now[i].oldEvents == Before(was, fd, Interest(entries[fd]), entries[fd].value.idxplus1).oldEvents
    requires s.idxplus1 == i + 1
    ensures Told(entries[fd := Some(s)], now, g) == Told(entries, was, g)
  {
    if g < |entries| && g != fd && entries[g].Some? {
      var k := entries[g].value.idxplus1;
      assert k > 0 ==> was[k - 1].fd == g && now[k - 1] == was[k - 1];
    }
  }

  /** A change of interest in `fd` was queued, and its slot became `s`. */
  lemma SettleQueued(entries: seq<Option<IoSlot>>, was: seq<Change>, now: seq<Change>, fd: nat, i: nat, s: IoSlot,
                     kernel: map<nat, Mask>, lost: set<nat>)
    requires Counted(entries) && Inverse(entries, was) && Aimed(entries, was) && InSync(entries, was, kernel, lost)
    requires fd < |entries| && entries[fd].Some? && Queued(was, now, fd, i, entries[fd].value.idxplus1)
    requires now[i].oldEvents == Before(was, fd, Interest(entries[fd]), entries[fd].value.idxplus1).oldEvents
    requires SlotCounted(s) && s.idxplus1 == i + 1 && Target(now[i]) == Interest(Some(s))
    ensures var es := entries[fd := Some(s)]; Counted(es) && Aimed(es, now) && InSync(es, now, kernel, lost)
  {
    hide Told, Watched;
    AimedQueued(entries, was, now, fd, i, s);
    forall g: nat
      ensures Told(entries[fd := Some(s)], now, g) == Told(entries, was, g)
    {
      ToldQueued(entries, was, now, fd, i, s, g);
    }
  }

  /** The interest in `fd`, which has no queued change, became that of `s`. */
  lemma SettleTold(entries: seq<Option<IoSlot>>, fd: nat, s: IoSlot, was: map<nat, Mask>, now: map<nat, Mask>, lost: set<nat>)
    requires Counted(entries) && Inverse(entries, []) && InSync(entries, [], was, lost)
    requires fd < |entries| && entries[fd].Some? && SlotCounted(s) && s.idxplus1 == 0
    requires Watched(now, fd) == Interest(Some(s))
    requires forall g: nat {:trigger Watched(now, g)} | g != fd :: Watched(now, g) == Watched(was, g)
    ensures var es := entries[fd := Some(s)];
      Counted(es) && Inverse(es, []) && Aimed(es, []) && InSync(es, [], now, lost - {fd})
  {
    var es := entries[fd := Some(s)];
    forall g: nat | g !in lost - {fd}
      ensures Watched(now, g) == Told(es, [], g)
    {
      if g != fd {
        assert SlotOf(es, g) == SlotOf(entries, g) && Watched(was, g) == Told(entries, [], g);
      }
    }
  }

  /** The slot of `fd` became `s`, and the interest stayed. */
  lemma SettleQuiet(entries: seq<Option<IoSlot>>, changes: seq<Change>, fd: nat, s: IoSlot, kernel: map<nat, Mask>, lost: set<nat>)
    requires Counted(entries) && Inverse(entries, changes) && Aimed(entries, changes) && InSync(entries, changes, kernel, lost)
    requires fd < |entries| && entries[fd].Some? && SlotCounted(s) && s.idxplus1 == entries[fd].value.idxplus1
    requires Interest(Some(s)) == Interest(entries[fd])
    ensures var es := entries[fd := Some(s)];
      Counted(es) && Inverse(es, changes) && Aimed(es, changes) && InSync(es, changes, kernel, lost)
  {
    var es := entries[fd := Some(s)];
    InverseRefill(entries, changes, fd, s);
    forall g: nat
      ensures Interest(SlotOf(es, g)) == Interest(SlotOf(entries, g)) && Told(es, changes, g) == Told(entries, changes, g)
    {
    }
  }

  /** The table has got new and empty entries at most. */
  ghost predicate Extended(entries: seq<Option<IoSlot>>, es: seq<Option<IoSlot>>) {
    && |entries| <= |es|
    && forall fd {:trigger es[fd]} | 0 <= fd < |es| ::
      (es[fd] == SlotOf(entries, fd) || (SlotOf(entries, fd) == None && es[fd] == Some(IoSlot([], 0, 0, 0))))
  }

  lemma ExtendedBy(entries: seq<Option<IoSlot>>, mid: seq<Option<IoSlot>>, fd: nat)
    requires entries <= mid && fd < |mid| && forall g | |entries| <= g < |mid| :: mid[g] == None
    ensures mid[fd].None? ==> Extended(entries, mid[fd := Some(IoSlot([], 0, 0, 0))])
    ensures mid[fd].Some? ==> Extended(entries, mid)
  {
  }

  /** New and empty entries of the table change nothing. */
  lemma Extend(entries: seq<Option<IoSlot>>, es: seq<Option<IoSlot>>, changes: seq<Change>,
               kernel: map<nat, Mask>, lost: set<nat>)
    requires Counted(entries) && Inverse(entries, changes) && Aimed(entries, changes)
    requires InSync(entries, changes, kernel, lost)
    requires Extended(entries, es)
    ensures Counted(es) && Inverse(es, changes) && Aimed(es, changes) && InSync(es, changes, kernel, lost)
  {
    forall fd: nat
      ensures Told(es, changes, fd) == Told(entries, changes, fd)
    {
      if fd < |es| {
        assert es[fd] == SlotOf(entries, fd) || es[fd] == Some(IoSlot([], 0, 0, 0));
      }
    }
    forall i | 0 <= i < |changes|
      ensures SlotOf(es, changes[i].fd) == SlotOf(entries, changes[i].fd)
    {
      assert changes[i].fd < |entries|;
    }
  }

  /** The slot `s` after the first `n` changes let go of their slots. */
  ghost function Unlinked(s: Option<IoSlot>, n: nat): Option<IoSlot> {
    if s.Some? && s.value.idxplus1 <= n then Some(s.value.(idxplus1 := 0)) else s
  }

  ghost predicate AllUnlinked(was: seq<Option<IoSlot>>, now: seq<Option<IoSlot>>) {
    && |now| == |was|
    && forall fd {:trigger now[fd]} | 0 <= fd < |now| ::
      (now[fd] == if was[fd].None? then None else Some(was[fd].value.(idxplus1 := 0)))
  }

  /** One of the first `n` changes is for `fd` and not empty. */
  ghost predicate QueuesBefore(changes: seq<Change>, fd: nat, n: nat)
    requires n <= |changes|
  {
    exists i | 0 <= i < n :: changes[i].fd == fd && !NoOp(changes[i])
  }

  lemma QueuesNext(changes: seq<Change>, fd: nat, n: nat)
    requires n < |changes|
    ensures QueuesBefore(changes, fd, n + 1) <==>
      QueuesBefore(changes, fd, n) || (changes[n].fd == fd && !NoOp(changes[n]))
  {
  }

  /** The changelist has a change for `fd` that is not empty. */
  ghost predicate Queues(changes: seq<Change>, fd: nat) {
    QueuesBefore(changes, fd, |changes|)
  }

  lemma NewEntry(entries: seq<Option<IoSlot>>, changes: seq<Change>, fd: nat, oldEvents: Mask)
    requires Inverse(entries, changes) && fd < |entries| && entries[fd].Some? && entries[fd].value.idxplus1 == 0
    ensures var now := changes + [Change(fd, oldEvents, Keep, Keep)];
      && Inverse(entries[fd := Some(entries[fd].value.(idxplus1 := |now|))], now)
      && Queued(changes, now, fd, |changes|, 0)
  {
  }

  lemma OldEntry(entries: seq<Option<IoSlot>>, changes: seq<Change>, fd: nat)
    requires Inverse(entries, changes) && fd < |entries| && entries[fd].Some? && entries[fd].value.idxplus1 > 0
    ensures var k := entries[fd].value.idxplus1;
      k <= |changes| && changes[k - 1].fd == fd && Queued(changes, changes, fd, k - 1, k)
  {
  }

  lemma NoIndex(entries: seq<Option<IoSlot>>, fd: nat)
    requires Inverse(entries, []) && fd < |entries| && entries[fd].Some?
    ensures entries[fd].value.idxplus1 == 0
  {
  }

  lemma QueuedHas(was: seq<Change>, now: seq<Change>, fd: nat, i: nat, idxplus1: nat)
    requires Queued(was, now, fd, i, idxplus1)
    ensures i < |now| && now[i].fd == fd && (!NoOp(now[i]) ==> Queues(now, fd))
  {
  }

  lemma ToldWhenIdle(entries: seq<Option<IoSlot>>, changes: seq<Change>, fd: nat)
    requires Inverse(entries, changes) && Aimed(entries, changes) && !Queues(changes, fd)
    ensures Told(entries, changes, fd) == Interest(SlotOf(entries, fd))
  {
    var s := SlotOf(entries, fd);
    if s.Some? && s.value.idxplus1 > 0 {
      var ch := changes[s.value.idxplus1 - 1];
      assert ch.fd == fd && NoOp(ch);
      assert Target(ch) == Interest(s);
    }
  }

  lemma UnlinkedSame(was: seq<Option<IoSlot>>, now: seq<Option<IoSlot>>)
    requires AllUnlinked(was, now)
    ensures Counted(was) ==> Counted(now)
    ensures forall fd {:trigger SlotOf(now, fd)} :: Interest(SlotOf(now, fd)) == Interest(SlotOf(was, fd))
  {
    forall fd | 0 <= fd < |now| && now[fd].Some? && Counted(was)
      ensures SlotCounted(now[fd].value)
    {
      assert SlotCounted(was[fd].value);
    }
  }

  /** All changes were applied and removed. */
  lemma Dispatched(was: seq<Option<IoSlot>>, changes: seq<Change>, k0: map<nat, Mask>, lost: set<nat>,
                   now: seq<Option<IoSlot>>, k1: map<nat, Mask>, lost': set<nat>)
    requires Counted(was) && Inverse(was, changes) && Aimed(was, changes) && InSync(was, changes, k0, lost)
    requires AllUnlinked(was, now) && Inverse(now, [])
    requires forall fd: nat {:trigger Watched(k1, fd)} ::
      (Watched(k1, fd) == if Queues(changes, fd) then Interest(SlotOf(was, fd)) else Watched(k0, fd))
    requires lost' == set fd | fd in lost && !Queues(changes, fd)
    ensures Counted(now) && Aimed(now, []) && InSync(now, [], k1, lost')
    ensures forall fd: nat {:trigger Watched(k1, fd)} ::
      (Watched(k1, fd) ==
        if Queues(changes, fd) || fd !in lost then Interest(SlotOf(now, fd)) else Watched(k0, fd))
  {
    UnlinkedSame(was, now);
    forall fd: nat
      ensures Told(now, [], fd) == Interest(SlotOf(now, fd))
      ensures Watched(k1, fd) ==
        if Queues(changes, fd) || fd !in lost then Interest(SlotOf(now, fd)) else Watched(k0, fd)
    {
      assert Interest(SlotOf(now, fd)) == Interest(SlotOf(was, fd));
      if !Queues(changes, fd) {
        ToldWhenIdle(was, changes, fd);
      }
    }
  }

  datatype CtlOp = CtlAdd | CtlMod | CtlDel
  datatype Errno = OK | EEXIST | ENOENT

  /** Counts one more event, and finds the interest that comes with it. */
  method Bump(n: nat, m: nat, events: Mask) returns (nread: nat, nwrite: nat, res: Mask)
    ensures nread == n + if events.read then 1 else 0
    ensures nwrite == m + if events.write then 1 else 0
    ensures res == Mask(events.read && n == 0, events.write && m == 0)
  {
    nread, nwrite, res := n, m, Nothing;
    if events.read {
      nread := nread + 1;
      if nread == 1 {
        res := res.(read := true);
      }
    }
    if events.write {
      nwrite := nwrite + 1;
      if nwrite == 1 {
        res := res.(write := true);
      }
    }
  }

  /** Counts one event less, and finds the interest that goes with it. */
  method Unbump(n: nat, m: nat, events: Mask) returns (nread: nat, nwrite: nat, res: Mask)
    requires events.read ==> n > 0
    requires events.write ==> m > 0
    ensures nread == n - if events.read then 1 else 0
    ensures nwrite == m - if events.write then 1 else 0
    ensures res == Mask(events.read && n == 1, events.write && m == 1)
  {
    nread, nwrite, res := n, m, Nothing;
    if events.read {
      nread := nread - 1;
      if nread == 0 {
        res := res.(read := true);
      }
    }
    if events.write {
      nwrite := nwrite - 1;
      if nwrite == 0 {
        res := res.(write := true);
      }
    }
  }

  class EventBase {
    /** Whether interest changes are queued until the next dispatch. */
    const queueing: bool
    var entries: seq<Option<IoSlot>>
    var changes: seq<Change>
    /** The kernel's interest list of the epoll descriptor. */
    var kernel: map<nat, Mask>
    /** The fds that were closed behind the library's back and not told to the
        kernel again since. */
    ghost var lost: set<nat>

    ghost predicate Valid()
      reads this
    {
      && Counted(entries) && Inverse(entries, changes) && Aimed(entries, changes)
      && (!queueing ==> changes == [])
      && InSync(entries, changes, kernel, lost)
      && (forall fd {:trigger kernel[fd]} | fd in kernel :: kernel[fd].Any())
    }

    constructor (queueing: bool)
      ensures this.queueing == queueing && Valid() && entries == [] && lost == {}
    {
      this.queueing := queueing;
      entries, changes, kernel, lost := [], [], map[], {};
    }

    /** epoll_ctl */
    method Ctl(op: CtlOp, fd: nat, events: Mask) returns (errno: Errno)
      modifies this`kernel
      ensures errno == match op
        case CtlAdd => if fd in old(kernel) then EEXIST else OK
        case CtlMod => if fd in old(kernel) then OK else ENOENT
        case CtlDel => if fd in old(kernel) then OK else ENOENT
      ensures kernel == if errno != OK then old(kernel) else if op.CtlDel? then old(kernel) - {fd} else old(kernel)[fd := events]
    {
      if op.CtlAdd? {
        if fd in kernel {
          return EEXIST;
        }
        kernel := kernel[fd := events];
      } else if fd !in kernel {
        return ENOENT;
      } else if op.CtlMod? {
        kernel := kernel[fd := events];
      } else {
        kernel := kernel - {fd};
      }
      return OK;
    }

    /** epoll_apply_one_change: whatever the kernel knew about the fd before, it
        watches it for exactly the target of the change afterwards, unless the
        change is empty. */
    method ApplyOneChange(ch: Change) returns (r: int)
      modifies this`kernel
      ensures r == 0
      ensures NoOp(ch) ==> kernel == old(kernel)
      ensures !NoOp(ch) ==> kernel == if Target(ch).Any() then old(kernel)[ch.fd := Target(ch)] else old(kernel) - {ch.fd}
    {
      var op, events := CtlAdd, Nothing;
      if ch.read.Add? || ch.write.Add? {
        if ch.read.Add? {
          events := events.(read := true);
        } else if ch.read.Del? {
        } else if ch.oldEvents.read {
          events := events.(read := true);
        }
        if ch.write.Add? {
          events := events.(write := true);
        } else if ch.write.Del? {
        } else if ch.oldEvents.write {
          events := events.(write := true);
        }
        if ch.oldEvents.Any() {
          op := CtlMod;
        }
      } else if ch.read.Del? || ch.write.Del? {
        op := CtlDel;
        if ch.read.Del? {
          if ch.write.Del? {
            events := Mask(true, true);
          } else if ch.oldEvents.write {
            events := Mask(false, true);
            op := CtlMod;
          } else {
            events := Mask(true, false);
          }
        } else if ch.write.Del? {
          if ch.oldEvents.read {
            events := Mask(true, false);
            op := CtlMod;
          } else {
            events := Mask(false, true);
          }
        }
      }
      if !events.Any() {
        return 0;
      }
      var errno := Ctl(op, ch.fd, events);
      if errno != OK {
        if op == CtlMod && errno == ENOENT {
          errno := Ctl(CtlAdd, ch.fd, events);
          if errno != OK {
            return -1;
          }
        } else if op == CtlAdd && errno == EEXIST {
          errno := Ctl(CtlMod, ch.fd, events);
          if errno != OK {
            return -1;
          }
        } else if op == CtlDel && errno == ENOENT {
        } else {
          return -1;
        }
      }
      return 0;
    }

    /** evmap_make_space: doubles the table until it has an entry for `slot`. */
    method MakeSpace(slot: nat)
      modifies this`entries
      ensures slot < |entries| && old(entries) <= entries
      ensures forall fd | |old(entries)| <= fd < |entries| :: entries[fd] == None
    {
      if |entries| <= slot {
        var n: nat := if entries != [] then |entries| else 32;
        while n <= slot
          invariant n > 0 && n >= |entries|
          decreases slot - n
        {
          n := n * 2;
        }
        entries := entries + seq(n - |entries|, _ => None);
      }
    }

    /** event_changelist_get_or_construct */
    method GetOrConstruct(fd: nat, oldEvents: Mask) returns (i: nat)
      requires Inverse(entries, changes) && fd < |entries| && entries[fd].Some?
      modifies this`changes, this`entries
      ensures Inverse(entries, changes) && i < |changes| && changes[i].fd == fd
      ensures entries == old(entries)[fd := Some(old(entries[fd]).value.(idxplus1 := i + 1))]
      ensures Queued(old(changes), changes, fd, i, old(entries[fd]).value.idxplus1)
      ensures old(entries[fd]).value.idxplus1 <= |old(changes)|
        && changes[i] == Before(old(changes), fd, oldEvents, old(entries[fd]).value.idxplus1)
    {
      hide Inverse, Queued;
      if entries[fd].value.idxplus1 == 0 {
        NewEntry(entries, changes, fd, oldEvents);
        i := |changes|;
        changes := changes + [Change(fd, oldEvents, Keep, Keep)];
        entries := entries[fd := Some(entries[fd].value.(idxplus1 := i + 1))];
      } else {
        OldEntry(entries, changes, fd);
        i := entries[fd].value.idxplus1 - 1;
      }
    }

    /** event_changelist_add: an add replaces any earlier delete. */
    method ChangelistAdd(fd: nat, oldEvents: Mask, events: Mask) returns (ghost i: nat)
      requires Inverse(entries, changes) && fd < |entries| && entries[fd].Some?
      modifies this`changes, this`entries
      ensures Queued(old(changes), changes, fd, i, old(entries[fd]).value.idxplus1)
      ensures Inverse(entries, changes) && entries == old(entries)[fd := Some(old(entries[fd]).value.(idxplus1 := i + 1))]
      ensures var ch := Before(old(changes), fd, oldEvents, old(entries[fd]).value.idxplus1);
        changes[i] == ch.(read := AfterAdd(ch.read, events.read), write := AfterAdd(ch.write, events.write))
      ensures (events.read ==> changes[i].read == Add) && (events.write ==> changes[i].write == Add)
    {
      hide Inverse, Queued;
      ghost var was, idx := changes, entries[fd].value.idxplus1;
      var k := GetOrConstruct(fd, oldEvents);
      var ch := changes[k];
      if events.read {
        ch := ch.(read := Add);
      }
      if events.write {
        ch := ch.(write := Add);
      }
      InverseUpdate(entries, changes, k, ch);
      QueuedUpdate(was, changes, fd, k, idx, ch);
      changes := changes[k := ch];
      i := k;
    }

    /** event_changelist_del: a delete takes back an earlier add, unless the event
        was set before the add. */
    method ChangelistDel(fd: nat, oldEvents: Mask, events: Mask) returns (ghost i: nat)
      requires Inverse(entries, changes) && fd < |entries| && entries[fd].Some?
      modifies this`changes, this`entries
      ensures Queued(old(changes), changes, fd, i, old(entries[fd]).value.idxplus1)
      ensures Inverse(entries, changes) && entries == old(entries)[fd := Some(old(entries[fd]).value.(idxplus1 := i + 1))]
      ensures var ch := Before(old(changes), fd, oldEvents, old(entries[fd]).value.idxplus1);
        changes[i] == ch.(read := AfterDel(ch.read, ch.oldEvents.read, events.read),
                          write := AfterDel(ch.write, ch.oldEvents.write, events.write))
      ensures events.read ==>
        var ch := Before(old(changes), fd, oldEvents, old(entries[fd]).value.idxplus1);
        changes[i].read == if ch.read == Add && !ch.oldEvents.read then Keep else Del
      ensures events.write ==>
        var ch := Before(old(changes), fd, oldEvents, old(entries[fd]).value.idxplus1);
        changes[i].write == if ch.write == Add && !ch.oldEvents.write then Keep else Del
    {
      hide Inverse, Queued;
      ghost var was, idx := changes, entries[fd].value.idxplus1;
      var k := GetOrConstruct(fd, oldEvents);
      var ch := changes[k];
      if events.read {
        ch := ch.(read := if !ch.oldEvents.read && ch.read.Add? then Keep else Del);
      }
      if events.write {
        ch := ch.(write := if !ch.oldEvents.write && ch.write.Add? then Keep else Del);
      }
      InverseUpdate(entries, changes, k, ch);
      QueuedUpdate(was, changes, fd, k, idx, ch);
      changes := changes[k := ch];
      i := k;
    }

    /** The backend's add or delete of interest: queued, or told at once. */
    method Tell(fd: nat, oldEvents: Mask, events: Mask, add: bool) returns (ghost i: nat)
      requires Valid() && fd < |entries| && entries[fd].Some? && oldEvents == Interest(entries[fd])
      requires if add then !(oldEvents.read && events.read) && !(oldEvents.write && events.write)
               else (events.read ==> oldEvents.read) && (events.write ==> oldEvents.write)
      requires events.Any()
      modifies this`changes, this`entries, this`kernel, this`lost
      ensures Inverse(entries, changes)
      ensures queueing ==> kernel == old(kernel) && lost == old(lost)
      ensures queueing ==>
        && Queued(old(changes), changes, fd, i, old(entries[fd]).value.idxplus1)
        && entries == old(entries)[fd := Some(old(entries[fd]).value.(idxplus1 := i + 1))]
        && changes[i].oldEvents == Before(old(changes), fd, oldEvents, old(entries[fd]).value.idxplus1).oldEvents
        && Target(changes[i]) == After(oldEvents, events, add)
        && (add ==> !NoOp(changes[i]))
      ensures !queueing ==> entries == old(entries) && changes == old(changes) && lost == old(lost) - {fd}
      ensures !queueing ==> Watched(kernel, fd) == After(oldEvents, events, add)
      ensures forall g: nat | g != fd :: Watched(kernel, g) == Watched(old(kernel), g)
      ensures forall g {:trigger kernel[g]} | g in kernel :: kernel[g].Any()
    {
      hide Counted, InSync, Queued;
      ghost var before := Before(changes, fd, oldEvents, entries[fd].value.idxplus1);
      assert Target(before) == oldEvents;
      hide Aimed, Inverse;
      if queueing {
        if add {
          i := ChangelistAdd(fd, oldEvents, events);
        } else {
          i := ChangelistDel(fd, oldEvents, events);
        }
      } else {
        var d := if add then Add else Del;
        var r := ApplyOneChange(Change(fd, oldEvents, if events.read then d else Keep, if events.write then d else Keep));
        lost := lost - {fd};
        i := 0;
      }
    }

    /** The events registered for an fd, oldest first. */
    function Registered(fd: int): seq<Event>
      reads this
    {
      var s := SlotOf(entries, fd);
      if s.None? then [] else s.value.events
    }

    /** Makes an entry for the fd if it has none. */
    method EnsureSlot(fd: nat)
      requires Valid()
      modifies this`entries
      ensures Valid() && fd < |entries| && entries[fd].Some?
      ensures forall g :: Registered(g) == old(Registered(g))
    {
      hide Counted, Inverse, Aimed, InSync, Extended;
      ghost var was := entries;
      MakeSpace(fd);
      ExtendedBy(was, entries, fd);
      if entries[fd].None? {
        entries := entries[fd := Some(IoSlot([], 0, 0, 0))];
      }
      Extend(was, entries, changes, kernel, lost);
    }

    /** evmap_io_add: 1 when the interest in the fd changed, 0 when it did not,
        and -1 when there are too many events on it. */
    method IoAdd(fd: int, ev: Event) returns (r: int)
      requires Valid()
      modifies this
      ensures Valid()
      ensures r == if fd < 0 then 0
                   else if TooMany(old(Registered(fd)), ev) then -1
                   else if TurnsOn(old(Registered(fd)), ev).Any() then 1 else 0
      ensures var es := old(Registered(fd));
        var full := (ev.events.read && |Readers(es)| == 0xffff) || (ev.events.write && |Writers(es)| == 0xffff);
        var first := (ev.events.read && forall e | e in es :: !e.events.read)
          || (ev.events.write && forall e | e in es :: !e.events.write);
        r == if fd >= 0 && full then -1 else if fd >= 0 && first then 1 else 0
      ensures forall g | g != fd || fd < 0 || r < 0 :: Registered(g) == old(Registered(g))
      ensures fd >= 0 && r >= 0 ==> Registered(fd) == old(Registered(fd)) + [ev]
      ensures queueing || r <= 0 ==> kernel == old(kernel) && lost == old(lost)
      ensures !queueing && r == 1 ==> lost == old(lost) - {fd}
      ensures queueing && r == 1 ==> Queues(changes, fd)
    {
      if fd < 0 {
        return 0;
      }
      hide Count, Readers, Writers;
      EnsureSlot(fd);
      var slot := entries[fd].value;
      assert SlotCounted(slot);
      CountMeans(slot.events, ev);
      var nread, nwrite, res := Bump(slot.nread, slot.nwrite, ev.events);
      if nread > MAX_EVENTS_PER_FD || nwrite > MAX_EVENTS_PER_FD {
        return -1;
      }
      CountAppend(slot.events, ev);
      r := Settle(fd, Mask(slot.nread > 0, slot.nwrite > 0), res, true, slot.events + [ev], nread, nwrite);
    }

    /** The end of evmap_io_add and evmap_io_del: tells the backend if `res` is
        not empty, and stores the new list and counters. */
    method Settle(fd: nat, oldEvents: Mask, res: Mask, add: bool, events: seq<Event>, nread: nat, nwrite: nat) returns (r: int)
      requires Valid() && fd < |entries| && entries[fd].Some? && oldEvents == Interest(entries[fd])
      requires if add then !(oldEvents.read && res.read) && !(oldEvents.write && res.write)
               else (res.read ==> oldEvents.read) && (res.write ==> oldEvents.write)
      requires SlotCounted(IoSlot(events, nread, nwrite, 0))
      requires Mask(nread > 0, nwrite > 0) == After(oldEvents, res, add)
      modifies this
      ensures Valid()
      ensures r == if res.Any() then 1 else 0
      ensures forall g :: Registered(g) == if g == fd then events else old(Registered(g))
      ensures queueing || r == 0 ==> kernel == old(kernel) && lost == old(lost)
      ensures !queueing && r == 1 ==> lost == old(lost) - {fd}
      ensures queueing && r == 1 && add ==> Queues(changes, fd)
    {
      hide Counted, Aimed, InSync, Queued, Inverse;
      ghost var es, cs, k0, l0 := entries, changes, kernel, lost;
      r := 0;
      ghost var i := 0;
      if res.Any() {
        i := Tell(fd, oldEvents, res, add);
        r := 1;
        if queueing {
          QueuedHas(cs, changes, fd, i, es[fd].value.idxplus1);
        }
      }
      var s := entries[fd].value.(events := events, nread := nread, nwrite := nwrite);
      assert entries[fd := Some(s)] == es[fd := Some(s)];
      if r == 0 {
        SettleQuiet(es, cs, fd, s, k0, l0);
      } else if queueing {
        InverseRefill(entries, changes, fd, s);
        SettleQueued(es, cs, changes, fd, i, s, kernel, lost);
      } else {
        NoIndex(es, fd);
        SettleTold(es, fd, s, k0, kernel, l0);
      }
      entries := entries[fd := Some(s)];
    }

    /** evmap_io_del, for an event that was added. */
    method IoDel(fd: int, ev: Event) returns (r: int)
      requires Valid() && (fd >= 0 ==> ev in Registered(fd))
      modifies this
      ensures Valid()
      ensures r == if fd < 0 then 0 else if TurnsOff(old(Registered(fd)), ev).Any() then 1 else 0
      ensures
        var last := (ev.events.read && forall e | e in Registered(fd) :: !e.events.read)
          || (ev.events.write && forall e | e in Registered(fd) :: !e.events.write);
        r == if fd >= 0 && last then 1 else 0
      ensures forall g | g != fd || fd < 0 :: Registered(g) == old(Registered(g))
      ensures fd >= 0 ==> Registered(fd) == Without(old(Registered(fd)), ev)
      ensures fd >= 0 ==>
        var es := old(Registered(fd));
        exists i | 0 <= i < |es| :: es[i] == ev && Registered(fd) == es[..i] + es[i + 1..]
      ensures queueing || r == 0 ==> kernel == old(kernel) && lost == old(lost)
      ensures !queueing && r == 1 ==> lost == old(lost) - {fd}
    {
      hide Count, Without, Readers, Writers;
      if fd < 0 {
        return 0;
      }
      if fd >= |entries| {
        return -1;
      }
      var slot := entries[fd].value;
      CountWithout(slot.events, ev);
      CountMeans(Without(slot.events, ev), ev);
      ghost var at := WithoutIs(slot.events, ev);
      var nread, nwrite, res := Unbump(slot.nread, slot.nwrite, ev.events);
      r := Settle(fd, Mask(slot.nread > 0, slot.nwrite > 0), res, false, Without(slot.events, ev), nread, nwrite);
    }

    /** The fd is closed, and the kernel forgets it. */
    method Close(fd: nat)
      requires Valid()
      modifies this`kernel, this`lost
      ensures Valid() && kernel == old(kernel) - {fd} && lost == old(lost) + {fd}
    {
      kernel := kernel - {fd};
      lost := lost + {fd};
      assert forall g: nat | g != fd :: Watched(kernel, g) == Watched(old(kernel), g);
    }

    /** epoll_apply_changes */
    method ApplyChanges() returns (r: int)
      requires Valid()
      modifies this`kernel
      ensures r == 0
      ensures forall fd: nat {:trigger Watched(kernel, fd)} ::
        Watched(kernel, fd) == if Queues(changes, fd) then Interest(SlotOf(entries, fd)) else Watched(old(kernel), fd)
      ensures forall fd {:trigger kernel[fd]} | fd in kernel :: kernel[fd].Any()
    {
      r := 0;
      var i := 0;
      while i < |changes|
        invariant 0 <= i <= |changes| && r == 0 && changes == old(changes) && entries == old(entries)
        invariant forall fd: nat {:trigger Watched(kernel, fd)} ::
          Watched(kernel, fd) == if QueuesBefore(changes, fd, i) then Interest(SlotOf(entries, fd)) else Watched(old(kernel), fd)
        invariant forall fd {:trigger kernel[fd]} | fd in kernel :: kernel[fd].Any()
      {
        ghost var k0 := kernel;
        var e := ApplyOneChange(changes[i]);
        assert Target(changes[i]) == Interest(SlotOf(entries, changes[i].fd));
        forall fd: nat
          ensures Watched(kernel, fd) ==
            if QueuesBefore(changes, fd, i + 1) then Interest(SlotOf(entries, fd)) else Watched(old(kernel), fd)
        {
          QueuesNext(changes, fd, i);
          assert Watched(kernel, fd) == if fd == changes[i].fd && !NoOp(changes[i]) then Target(changes[i]) else Watched(k0, fd);
        }
        i := i + 1;
      }
    }

    /** event_changelist_remove_all */
    method RemoveAll()
      requires Inverse(entries, changes)
      modifies this`entries, this`changes
      ensures changes == [] && Inverse(entries, []) && |entries| == |old(entries)|
      ensures AllUnlinked(old(entries), entries)
    {
      var i := 0;
      ghost var es := entries;
      while i < |changes|
        invariant 0 <= i <= |changes| && changes == old(changes) && |entries| == |es|
        invariant forall fd {:trigger entries[fd]} | 0 <= fd < |es| :: entries[fd] == Unlinked(es[fd], i)
      {
        var fd := changes[i].fd;
        assert es[fd].value.idxplus1 == i + 1;
        entries := entries[fd := Some(entries[fd].value.(idxplus1 := 0))];
        i := i + 1;
      }
      changes := [];
    }

    /** The start of epoll_dispatch: afterwards the kernel watches every fd for
        exactly what its events want, except fds that were closed and whose
        interest has not changed since they were last told. */
    method Dispatch()
      requires Valid()
      modifies this
      ensures Valid() && changes == []
      ensures forall g :: Registered(g) == old(Registered(g))
      ensures lost == set fd | fd in old(lost) && !Queues(old(changes), fd)
      ensures forall fd: nat {:trigger Watched(kernel, fd)} ::
        (Watched(kernel, fd) ==
          if Queues(old(changes), fd) || fd !in old(lost) then Interest(SlotOf(entries, fd)) else Watched(old(kernel), fd))
    {
      ghost var cs, es, k0, l0 := changes, entries, kernel, lost;
      var r := ApplyChanges();
      lost := set fd | fd in lost && !Queues(cs, fd);
      RemoveAll();
      Dispatched(es, cs, k0, l0, entries, kernel, lost);
    }
  }
}
