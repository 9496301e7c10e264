/** Groups of bufferevents that share token buckets. */
module RateGroups {
  import opened Bytes
  import opened RateLimit

  /** One direction of a group: whether it is suspended, whether another try to let go of
      members is due, and the members suspended on behalf of the group. */
  datatype SideSnap = SideSnap(suspended: bool, pending: bool, held: set<nat>)

  /** Who is held is held by a suspended group, or by one that will try again. */
  predicate SideOk(s: SideSnap, members: seq<nat>) {
    && (forall m | m in s.held :: m in members)
    && (s.held != {} ==> s.suspended || s.pending)
    && !(s.suspended && s.pending)
  }

  /** Everybody but those whose lock is taken is held. */
  function Holding(s: SideSnap, members: seq<nat>, busy: set<nat>): SideSnap {
    SideSnap(true, false, s.held + set m | m in members && m !in busy)
  }

  /** Everybody but those whose lock is taken is let go of. */
  function LettingGo(s: SideSnap, members: seq<nat>, busy: set<nat>): SideSnap {
    SideSnap(false, exists m :: m in members && m in busy, s.held * busy)
  }

  function Spending(s: SideSnap, limit: int, members: seq<nat>, busy: set<nat>): SideSnap {
    if limit <= 0 then Holding(s, members, busy) else if s.suspended then LettingGo(s, members, busy) else s
  }

  function Taking(s: SideSnap, was: int, limit: int, members: seq<nat>, busy: set<nat>): SideSnap {
    if was > 0 && limit <= 0 then Holding(s, members, busy)
    else if was <= 0 && limit > 0 then LettingGo(s, members, busy)
    else s
  }

  function Renewing(s: SideSnap, enough: bool, members: seq<nat>, busy: set<nat>): SideSnap {
    if s.pending || (s.suspended && enough) then LettingGo(s, members, busy) else s
  }

  function Asking(s: SideSnap, m: nat): SideSnap {
    if s.suspended then s.(held := s.held + {m}) else s
  }

  datatype GroupSnap = GroupSnap(
    members: seq<nat>, cfg: Cfg, read: Level, write: Level, readSide: SideSnap, writeSide: SideSnap,
    configuredMinShare: nat, minShare: nat)

  /** The share that wakes a suspended group is within its reach. */
  predicate GroupOk(s: GroupSnap) {
    && (forall i, j | 0 <= i < j < |s.members| :: s.members[i] != s.members[j])
    && SideOk(s.readSide, s.members) && SideOk(s.writeSide, s.members)
    && InType(s.read.limit) && InType(s.write.limit) && s.read.last == s.write.last
    && s.configuredMinShare <= SSIZE_MAX && s.minShare == Min(s.configuredMinShare, Min(s.cfg.readRate, s.cfg.writeRate))
  }

  /** An exhausted bucket has suspended the group. */
  predicate GroupExhausts(s: GroupSnap) {
    (s.read.limit <= 0 ==> s.readSide.suspended) && (s.write.limit <= 0 ==> s.writeSide.suspended)
  }

  predicate GroupWithin(s: GroupSnap) {
    s.read.limit <= s.cfg.readMaximum && s.write.limit <= s.cfg.writeMaximum
  }

  predicate SideTight(s: SideSnap, members: seq<nat>) {
    !s.pending && s.held == if s.suspended then set m | m in members else {}
  }

  /** Exactly the members of a suspended group are held. */
  predicate Tight(s: GroupSnap) {
    SideTight(s.readSide, s.members) && SideTight(s.writeSide, s.members)
  }

  /** What can happen to a group; `busy` are the members whose lock is taken then. */
  datatype GroupOp =
    | JoinOp(m: nat)
    | LeaveOp(i: nat)
    | SpendOp(isWrite: bool, n: int, busy: set<nat>)
    | TakeOp(isWrite: bool, n: int, busy: set<nat>)
    | AskOp(isWrite: bool, m: nat)
    | TickOp(now: u32, busy: set<nat>)
    | ShareOp(share: nat)
    | CfgOp(cfg: Cfg)

  function GroupTick(s: GroupSnap, now: u32, busy: set<nat>): GroupSnap {
    var r := Refreshed(s.read, s.cfg.readRate, s.cfg.readMaximum, now);
    var w := Refreshed(s.write, s.cfg.writeRate, s.cfg.writeMaximum, now);
    s.(read := r, write := w,
       readSide := Renewing(s.readSide, r.limit >= s.minShare, s.members, busy),
       writeSide := Renewing(s.writeSide, w.limit >= s.minShare, s.members, busy))
  }

  function Sharing(s: GroupSnap, share: nat): GroupSnap {
    if share > SSIZE_MAX then s
    else s.(configuredMinShare := share, minShare := Min(share, Min(s.cfg.readRate, s.cfg.writeRate)))
  }

  /** What an operation does; one that does not apply does nothing. */
  function GroupNext(s: GroupSnap, op: GroupOp): GroupSnap {
    match op
    case JoinOp(m) =>
      if m in s.members then s
      else s.(members := s.members + [m], readSide := Asking(s.readSide, m), writeSide := Asking(s.writeSide, m))
    case LeaveOp(i) =>
      if i >= |s.members| then s
      else
        var m := s.members[i];
        s.(members := s.members[..i] + s.members[i + 1..],
           readSide := s.readSide.(held := s.readSide.held - {m}), writeSide := s.writeSide.(held := s.writeSide.held - {m}))
    case SpendOp(isWrite, n, busy) =>
      var l := (if isWrite then s.write.limit else s.read.limit) - n;
      if !InType(l) then s
      else if isWrite then s.(write := s.write.(limit := l), writeSide := Spending(s.writeSide, l, s.members, busy))
      else s.(read := s.read.(limit := l), readSide := Spending(s.readSide, l, s.members, busy))
    case TakeOp(isWrite, n, busy) =>
      var l := (if isWrite then s.write.limit else s.read.limit) - n;
      if !InType(l) then s
      else if isWrite then s.(write := s.write.(limit := l), writeSide := Taking(s.writeSide, s.write.limit, l, s.members, busy))
      else s.(read := s.read.(limit := l), readSide := Taking(s.readSide, s.read.limit, l, s.members, busy))
    case AskOp(isWrite, m) =>
      if m !in s.members then s
      else if isWrite then s.(writeSide := Asking(s.writeSide, m))
      else s.(readSide := Asking(s.readSide, m))
    case TickOp(now, busy) => GroupTick(s, now, busy)
    case ShareOp(share) => Sharing(s, share)
    case CfgOp(cfg) =>
      Sharing(s.(cfg := cfg, read := Clip(s.read, cfg.readMaximum), write := Clip(s.write, cfg.writeMaximum)), s.configuredMinShare)
  }

  /** One side keeps what is right of it, and holds exactly the members when no lock is
      taken. */
  lemma SideKeeps(s: SideSnap, members: seq<nat>, busy: set<nat>)
    requires SideOk(s, members)
    ensures SideOk(Holding(s, members, busy), members) && SideOk(LettingGo(s, members, busy), members)
    ensures SideTight(s, members) && busy == {} ==>
      SideTight(Holding(s, members, busy), members) && SideTight(LettingGo(s, members, busy), members)
  {
  }

  lemma SideJoins(s: SideSnap, members: seq<nat>, m: nat)
    requires SideOk(s, members)
    ensures SideOk(Asking(s, m), members + [m]) && (m in members ==> SideOk(Asking(s, m), members))
    ensures SideTight(s, members) ==> SideTight(Asking(s, m), members + [m]) && (m in members ==> Asking(s, m) == s)
  {
  }

  lemma SideLeaves(s: SideSnap, members: seq<nat>, i: nat)
    requires SideOk(s, members) && i < |members| && forall i, j | 0 <= i < j < |members| :: members[i] != members[j]
    ensures var rest, t := members[..i] + members[i + 1..], s.(held := s.held - {members[i]});
      SideOk(t, rest) && (SideTight(s, members) ==> SideTight(t, rest))
  {
    var rest := members[..i] + members[i + 1..];
    assert members == members[..i] + [members[i]] + members[i + 1..];
    assert forall x | x in members && x != members[i] :: x in rest;
    assert members[i] !in rest;
  }

  lemma SameTick(s: GroupSnap, now: u32)
    requires s.read.last == s.write.last
    ensures Refreshed(s.read, s.cfg.readRate, s.cfg.readMaximum, now).last
         == Refreshed(s.write, s.cfg.writeRate, s.cfg.writeMaximum, now).last
  {
  }

  lemma GroupNextOk(s: GroupSnap, op: GroupOp)
    requires GroupOk(s)
    ensures GroupOk(GroupNext(s, op))
    ensures Tight(s) && ((op.SpendOp? || op.TakeOp? || op.TickOp?) ==> op.busy == {}) ==> Tight(GroupNext(s, op))
  {
    hide SideOk, SideTight, Holding, LettingGo, Asking, Refreshed;
    match op
    case JoinOp(m) =>
      SideJoins(s.readSide, s.members, m);
      SideJoins(s.writeSide, s.members, m);
    case AskOp(_, m) =>
      SideJoins(s.readSide, s.members, m);
      SideJoins(s.writeSide, s.members, m);
    case LeaveOp(i) =>
      if i < |s.members| {
        SideLeaves(s.readSide, s.members, i);
        SideLeaves(s.writeSide, s.members, i);
      }
    case SpendOp(_, _, busy) =>
      SideKeeps(s.readSide, s.members, busy);
      SideKeeps(s.writeSide, s.members, busy);
    case TakeOp(_, _, busy) =>
      SideKeeps(s.readSide, s.members, busy);
      SideKeeps(s.writeSide, s.members, busy);
    case TickOp(now, busy) =>
      SideKeeps(s.readSide, s.members, busy);
      SideKeeps(s.writeSide, s.members, busy);
      RefreshedIsUpdated(s.read, s.cfg.readRate, s.cfg.readMaximum, now);
      RefreshedIsUpdated(s.write, s.cfg.writeRate, s.cfg.writeMaximum, now);
      SameTick(s, now);
    case _ =>
  }

  predicate SideSlips(side: SideSnap, s: Level, rate: nat, maximum: nat, share: nat, now: u32) {
    if side.suspended then share == 0 && Refreshed(s, rate, maximum, now).limit == 0 else Wraps(s, rate, maximum, now)
  }

  /** The timer wakes a group that may wake with nothing, or a limit wraps. */
  predicate Slips(s: GroupSnap, op: GroupOp) {
    && op.TickOp?
    && (|| SideSlips(s.readSide, s.read, s.cfg.readRate, s.cfg.readMaximum, s.minShare, op.now)
        || SideSlips(s.writeSide, s.write, s.cfg.writeRate, s.cfg.writeMaximum, s.minShare, op.now))
  }

  lemma SideExhausts(side: SideSnap, s: Level, rate: nat, maximum: nat, share: nat, now: u32, members: seq<nat>, busy: set<nat>)
    requires SideOk(side, members) && InType(s.limit) && 1 <= rate <= maximum <= SSIZE_MAX && (s.limit <= 0 ==> side.suspended)
    ensures var t := Refreshed(s, rate, maximum, now);
      (t.limit <= 0 ==> Renewing(side, t.limit >= share, members, busy).suspended) <==> !SideSlips(side, s, rate, maximum, share, now)
  {
    hide Refreshed, Wraps;
    if s.limit > 0 {
      WrapsEmpties(s, rate, maximum, now);
    }
  }

  /** An exhausted bucket goes on suspending exactly unless the group slips. */
  lemma GroupNextExhausts(s: GroupSnap, op: GroupOp)
    requires GroupOk(s) && GroupExhausts(s)
    ensures GroupExhausts(GroupNext(s, op)) <==> !Slips(s, op)
  {
    hide Refreshed, SideSlips;
    if op.TickOp? {
      SideExhausts(s.readSide, s.read, s.cfg.readRate, s.cfg.readMaximum, s.minShare, op.now, s.members, op.busy);
      SideExhausts(s.writeSide, s.write, s.cfg.writeRate, s.cfg.writeMaximum, s.minShare, op.now, s.members, op.busy);
    }
  }

  /** Bytes are given back, or the minimal share becomes zero. */
  predicate Loosens(op: GroupOp) {
    ((op.SpendOp? || op.TakeOp?) && op.n < 0) || (op.ShareOp? && op.share == 0)
  }

  /** Otherwise no bucket becomes overfull and the group does not slip. */
  lemma GroupNextWithin(s: GroupSnap, op: GroupOp)
    requires GroupOk(s) && GroupWithin(s) && s.configuredMinShare > 0 && !Loosens(op)
    ensures var t := GroupNext(s, op); GroupWithin(t) && t.configuredMinShare > 0 && !Slips(s, op)
  {
    hide Refreshed;
    if op.TickOp? {
      RefreshedIsUpdated(s.read, s.cfg.readRate, s.cfg.readMaximum, op.now);
      RefreshedIsUpdated(s.write, s.cfg.writeRate, s.cfg.writeMaximum, op.now);
    }
  }

  /** The state after a run, from a new group. */
  function GroupReached(cfg: Cfg, now: u32, ops: seq<GroupOp>): GroupSnap {
    if ops == [] then
      var none := SideSnap(false, false, {});
      GroupSnap([], cfg, Level(cfg.readRate, now), Level(cfg.writeRate, now), none, none, 64, Min(64, Min(cfg.readRate, cfg.writeRate)))
    else GroupNext(GroupReached(cfg, now, ops[..|ops| - 1]), ops[|ops| - 1])
  }

  predicate NoSlip(cfg: Cfg, now: u32, ops: seq<GroupOp>) {
    ops != [] ==>
      NoSlip(cfg, now, ops[..|ops| - 1]) && !Slips(GroupReached(cfg, now, ops[..|ops| - 1]), ops[|ops| - 1])
  }

  predicate NeverBusy(ops: seq<GroupOp>) {
    forall i | 0 <= i < |ops| && (ops[i].SpendOp? || ops[i].TakeOp? || ops[i].TickOp?) :: ops[i].busy == {}
  }

  /** In every run of a group only members are held, by a group that is suspended or will
      try again. If no lock is ever taken, exactly the members of a suspended group are
      held. An exhausted bucket suspends as long as the group does not slip, and it does
      not if nothing is given back and the share is not set to zero. */
  lemma {:induction false} GroupKeeps(cfg: Cfg, now: u32, ops: seq<GroupOp>)
    ensures var s := GroupReached(cfg, now, ops);
      && GroupOk(s) && (NeverBusy(ops) ==> Tight(s)) && (NoSlip(cfg, now, ops) ==> GroupExhausts(s))
      && ((forall i | 0 <= i < |ops| :: !Loosens(ops[i])) ==>
            NoSlip(cfg, now, ops) && GroupWithin(s) && s.configuredMinShare > 0)
  {
    hide GroupNext, Slips, Loosens;
    if ops != [] {
      var was, op := ops[..|ops| - 1], ops[|ops| - 1];
      var s := GroupReached(cfg, now, was);
      GroupKeeps(cfg, now, was);
      GroupNextOk(s, op);
      assert NeverBusy(ops) ==> NeverBusy(was) && ((op.SpendOp? || op.TakeOp? || op.TickOp?) ==> op.busy == {});
      if NoSlip(cfg, now, was) {
        GroupNextExhausts(s, op);
      }
      if forall i | 0 <= i < |ops| :: !Loosens(ops[i]) {
        assert forall i | 0 <= i < |was| :: was[i] == ops[i];
        GroupNextWithin(s, op);
      }
    }
  }

  /** The timer does nothing for a group that waits for its share exactly if its update
      takes no effect. */
  lemma GroupStuckIff(s: GroupSnap, now: u32, busy: set<nat>)
    requires GroupOk(s) && GroupWithin(s) && !s.readSide.pending && !s.writeSide.pending
    requires (s.readSide.suspended ==> s.read.limit < s.minShare) && (s.writeSide.suspended ==> s.write.limit < s.minShare)
    ensures GroupNext(s, TickOp(now, busy)) == s <==> !Credits(s.read.last, now)
  {
    hide Refilled;
  }

  /** After a change of the configuration at tick `now` of the new one, a group whose clock
      is behind gets nothing exactly until it has caught up. */
  lemma GroupSetCfgSticks(s: GroupSnap, cfg: Cfg, now: u32, t: u32, busy: set<nat>)
    requires GroupOk(s) && !s.readSide.pending && !s.writeSide.pending && TicksSince(s.read.last, now) > INT_MAX
    requires var r := GroupNext(s, CfgOp(cfg));
      (r.readSide.suspended ==> r.read.limit < r.minShare) && (r.writeSide.suspended ==> r.write.limit < r.minShare)
    ensures var r := GroupNext(s, CfgOp(cfg));
      GroupNext(r, TickOp(t, busy)) == r <==>
        !(TicksSince(now, s.read.last) < TicksSince(now, t) <= TicksSince(now, s.read.last) + INT_MAX)
  {
    hide GroupTick;
    var r := GroupNext(s, CfgOp(cfg));
    GroupNextOk(s, CfgOp(cfg));
    GroupStuckIff(r, t, busy);
    BehindWaits(s.read.last, now, t);
  }

  /** A run after which the timer lets go of nobody until a million ticks have gone by
      again. */
  lemma GroupStaysStuck(now: u32)
    requires 1_000_000 <= now <= 2_000_000
    ensures var s := GroupReached(Cfg(0, 1, 1, 1, 1), 2_000_000, [JoinOp(7), SpendOp(false, 1, {}), CfgOp(Cfg(1, 1, 1, 1, 1))]);
      s.readSide == SideSnap(true, false, {7}) && GroupNext(s, TickOp(now, {})) == s
  {
    var cfg, join, spend, change := Cfg(0, 1, 1, 1, 1), JoinOp(7), SpendOp(false, 1, {}), CfgOp(Cfg(1, 1, 1, 1, 1));
    Three(cfg, 2_000_000, join, spend, change);
    GroupKeeps(cfg, 2_000_000, [join, spend, change]);
    hide GroupReached, GroupTick;
    var s := GroupNext(GroupNext(GroupNext(GroupReached(cfg, 2_000_000, []), join), spend), change);
    assert s.read == Level(0, 2_000_000) && s.minShare == 1 && s.writeSide == SideSnap(false, false, {});
    StillBehind(now);
    hide GroupNext, Credits;
    GroupStuckIff(s, now, {});
  }

  lemma Three(cfg: Cfg, now: u32, a: GroupOp, b: GroupOp, c: GroupOp)
    ensures GroupReached(cfg, now, [a, b, c]) == GroupNext(GroupNext(GroupNext(GroupReached(cfg, now, []), a), b), c)
  {
    hide GroupNext, GroupReached;
    assert [] + [a] == [a] && [a] + [b] == [a, b] && [a, b] + [c] == [a, b, c];
    OneMore(cfg, now, [], a);
    OneMore(cfg, now, [a], b);
    OneMore(cfg, now, [a, b], c);
  }

  lemma OneMore(cfg: Cfg, now: u32, ops: seq<GroupOp>, op: GroupOp)
    ensures GroupReached(cfg, now, ops + [op]) == GroupNext(GroupReached(cfg, now, ops), op)
  {
    hide GroupNext;
    assert (ops + [op])[..|ops|] == ops;
  }

  class Side {
    var suspended: bool
    var pendingUnsuspend: bool
    var held: set<nat>

    function State(): SideSnap
      reads this
    {
      SideSnap(suspended, pendingUnsuspend, held)
    }

    constructor ()
      ensures State() == SideSnap(false, false, {})
    {
      suspended, pendingUnsuspend, held := false, false, {};
    }

    /** _bev_group_suspend_reading. Members whose lock is taken (`busy`) are passed over
        and find out later. */
    method Suspend(members: seq<nat>, busy: set<nat>)
      modifies this
      ensures State() == Holding(old(State()), members, busy)
      ensures suspended && !pendingUnsuspend && forall m :: m in held <==> m in old(held) || (m in members && m !in busy)
    {
      suspended, pendingUnsuspend := true, false;
      for i := 0 to |members|
        invariant held == old(held) + (set m | m in members[..i] && m !in busy) && suspended && !pendingUnsuspend
      {
        assert members[..i + 1] == members[..i] + [members[i]];
        if members[i] !in busy {
          held := held + {members[i]};
        }
      }
      assert members[..|members|] == members;
    }

    /** Lets go of the members in a range, and tells whether one of them was busy. */
    method Release(members: seq<nat>, from: nat, to: nat, busy: set<nat>) returns (again: bool)
      requires from <= to <= |members|
      modifies this`held
      ensures forall m :: m in held <==> m in old(held) && (m in busy || m !in members[from..to])
      ensures again == exists m :: m in members[from..to] && m in busy
    {
      again := false;
      for i := from to to
        invariant forall m :: m in held <==> m in old(held) && (m in busy || m !in members[from..i])
        invariant again == exists m :: m in members[from..i] && m in busy
      {
        assert members[from..i + 1] == members[from..i] + [members[i]];
        if members[i] !in busy {
          held := held - {members[i]};
        } else {
          again := true;
        }
      }
    }

    /** _bev_group_unsuspend_reading: from a random member to the end, and then from the
        start to that member. */
    method Unsuspend(members: seq<nat>, random: nat, busy: set<nat>)
      requires SideOk(State(), members)
      modifies this
      ensures State() == LettingGo(old(State()), members, busy)
      ensures !suspended && (pendingUnsuspend <==> exists m :: m in members && m in busy)
      ensures forall m :: m in held <==> m in old(held) && m in busy
    {
      suspended := false;
      var which: nat := if |members| == 0 then 0 else random % |members|;
      var again := Release(members, which, |members|, busy);
      var more := Release(members, 0, which, busy);
      assert members == members[0..which] + members[which..|members|];
      pendingUnsuspend := again || more;
    }

    /** What the master timer does for one direction. */
    method Renew(members: seq<nat>, enough: bool, random: nat, busy: set<nat>)
      requires SideOk(State(), members)
      modifies this
      ensures State() == Renewing(old(State()), enough, members, busy)
    {
      if pendingUnsuspend || (suspended && enough) {
        Unsuspend(members, random, busy);
      }
    }
  }

  /** Division as C has it, towards zero. */
  function Quotient(x: int, n: nat): int
    requires n > 0
  {
    if x >= 0 then x / n else -(-x / n)
  }

  lemma QuotientIs(x: int, n: nat)
    requires n > 0
    ensures x >= 0 ==> Quotient(x, n) * n <= x < (Quotient(x, n) + 1) * n
    ensures x < 0 ==> Quotient(x, n) <= 0
  {
  }

  /** Who was held is held exactly if the share was not reached at any of `times`, and no
      other try was noted before the first. */
  predicate Freed(held: set<nat>, was: set<nat>, pending: bool, s: Level, rate: nat, maximum: nat, share: nat, times: seq<u32>) {
    held == if (times == [] || !pending) && StaysBelow(s, rate, maximum, share, times) then was else {}
  }

  lemma FreedAll(held: set<nat>, was: set<nat>, pending: bool, s: Level, rate: nat, maximum: nat, share: nat, times: seq<u32>, k: nat)
    requires k <= |times| && Freed(held, was, pending, s, rate, maximum, share, times[..k]) && (held != {} ==> k == |times|)
    ensures Freed(held, was, pending, s, rate, maximum, share, times)
  {
    hide Through;
    if k == |times| {
      assert times[..k] == times;
    } else if StaysBelow(s, rate, maximum, share, times) {
      BelowBefore(s, rate, maximum, share, times, k);
    }
  }

  lemma LettingGoes(s: SideSnap, t: SideSnap, members: seq<nat>, busy: set<nat>)
    ensures !LettingGo(s, members, busy).suspended && !LettingGo(t, members, busy).suspended
    ensures LettingGo(s, members, busy).held == s.held * busy && LettingGo(t, members, busy).held == t.held * busy
  {
  }

  class Group {
    var members: seq<nat>
    var cfg: Cfg
    const limit: Bucket
    const read: Side
    const write: Side
    var configuredMinShare: nat
    var minShare: nat

    function State(): GroupSnap
      reads this, limit, read, write
    {
      GroupSnap(members, cfg, limit.Read(), limit.Write(), read.State(), write.State(), configuredMinShare, minShare)
    }

    predicate Valid()
      reads this, limit, read, write
    {
      read != write && GroupOk(State())
    }

    constructor (cfg: Cfg, now: u32)
      ensures Valid() && State() == GroupReached(cfg, now, []) && fresh(limit) && fresh(read) && fresh(write)
    {
      members, this.cfg, configuredMinShare, minShare := [], cfg, 0, 0;
      limit := new Bucket();
      read := new Side();
      write := new Side();
      new;
      limit.Init(cfg, now, false);
      SetMinShare(64);
    }

    /** bufferevent_rate_limit_group_set_min_share */
    method SetMinShare(share: nat)
      modifies this`configuredMinShare, this`minShare
      ensures State() == GroupNext(old(State()), ShareOp(share))
      ensures share <= SSIZE_MAX ==>
        && configuredMinShare == share && minShare <= share && minShare <= cfg.readRate && minShare <= cfg.writeRate
        && (minShare == share || minShare == cfg.readRate || minShare == cfg.writeRate)
      ensures share > SSIZE_MAX ==> configuredMinShare == old(configuredMinShare) && minShare == old(minShare)
    {
      if share > SSIZE_MAX {
        return;
      }
      configuredMinShare := share;
      var s := share;
      if s > cfg.readRate {
        s := cfg.readRate;
      }
      if s > cfg.writeRate {
        s := cfg.writeRate;
      }
      minShare := s;
    }

    /** bufferevent_rate_limit_group_set_cfg, without the timer's schedule. */
    method SetCfg(newCfg: Cfg)
      requires Valid()
      modifies this`cfg, this`configuredMinShare, this`minShare, limit
      ensures Valid() && State() == GroupNext(old(State()), CfgOp(newCfg)) && limit.Within(newCfg)
      ensures cfg == newCfg && configuredMinShare == old(configuredMinShare) && limit.lastUpdated == old(limit.lastUpdated)
      ensures limit.readLimit == if old(limit.readLimit) > newCfg.readMaximum then newCfg.readMaximum else old(limit.readLimit)
      ensures limit.writeLimit == if old(limit.writeLimit) > newCfg.writeMaximum then newCfg.writeMaximum else old(limit.writeLimit)
      ensures old(GroupExhausts(State())) ==> GroupExhausts(State())
    {
      cfg := newCfg;
      limit.Init(newCfg, limit.lastUpdated, true);
      SetMinShare(configuredMinShare);
    }

    /** bufferevent_add_to_rate_limit_group, for a bufferevent that is in no other group;
        it does nothing for one that is in this group already. */
    method Join(m: nat)
      requires Valid()
      modifies this`members, read, write
      ensures Valid() && State() == GroupNext(old(State()), JoinOp(m))
      ensures members == if m in old(members) then old(members) else old(members) + [m]
      ensures read.held == old(read.held) + (if m !in old(members) && read.suspended then {m} else {})
      ensures write.held == old(write.held) + (if m !in old(members) && write.suspended then {m} else {})
      ensures read.suspended == old(read.suspended) && write.suspended == old(write.suspended)
    {
      GroupNextOk(State(), JoinOp(m));
      if m in members {
        return;
      }
      members := members + [m];
      if read.suspended {
        read.held := read.held + {m};
      }
      if write.suspended {
        write.held := write.held + {m};
      }
    }

    /** bufferevent_remove_from_rate_limit_group: a member that leaves is let go of. */
    method Leave(i: nat)
      requires Valid() && i < |members|
      modifies this`members, read, write
      ensures Valid() && State() == GroupNext(old(State()), LeaveOp(i))
      ensures members == old(members[..i]) + old(members[i + 1..]) && old(members[i]) !in members
      ensures read.held == old(read.held) - {old(members[i])} && write.held == old(write.held) - {old(members[i])}
      ensures read.suspended == old(read.suspended) && write.suspended == old(write.suspended)
    {
      GroupNextOk(State(), LeaveOp(i));
      var m := members[i];
      members := members[..i] + members[i + 1..];
      read.held, write.held := read.held - {m}, write.held - {m};
    }

    /** The group's part of _bufferevent_decrement_read_buckets. */
    method DecrementReadBuckets(bytes: int, random: nat, busy: set<nat>)
      requires Valid() && InType(limit.readLimit - bytes)
      modifies limit, read
      ensures Valid() && State() == GroupNext(old(State()), SpendOp(false, bytes, busy))
      ensures read.suspended == (limit.readLimit <= 0) && limit.readLimit == old(limit.readLimit) - bytes && limit.Write() == old(limit.Write())
      ensures forall m :: m in read.held <==>
        if limit.readLimit <= 0 then m in old(read.held) || (m in members && m !in busy)
        else m in old(read.held) && (m in busy || !old(read.suspended))
    {
      GroupNextOk(State(), SpendOp(false, bytes, busy));
      limit.readLimit := limit.readLimit - bytes;
      if limit.readLimit <= 0 {
        read.Suspend(members, busy);
      } else if read.suspended {
        read.Unsuspend(members, random, busy);
      }
    }

    /** bufferevent_rate_limit_group_decrement_read: acts only when the limit crosses zero. */
    method DecrementRead(decr: int, random: nat, busy: set<nat>)
      requires Valid() && InType(limit.readLimit - decr)
      modifies limit, read
      ensures Valid() && State() == GroupNext(old(State()), TakeOp(false, decr, busy))
      ensures (old(limit.readLimit) > 0) == (limit.readLimit > 0) ==> read.State() == old(read.State())
      ensures (old(limit.readLimit) > 0) != (limit.readLimit > 0) ==> read.suspended == (limit.readLimit <= 0)
      ensures limit.readLimit == old(limit.readLimit) - decr && limit.Write() == old(limit.Write())
      ensures forall m :: m in read.held <==>
        if old(limit.readLimit) > 0 && limit.readLimit <= 0 then m in old(read.held) || (m in members && m !in busy)
        else m in old(read.held) && (m in busy || old(limit.readLimit) > 0 || limit.readLimit <= 0)
    {
      GroupNextOk(State(), TakeOp(false, decr, busy));
      var oldLimit := limit.readLimit;
      limit.readLimit := limit.readLimit - decr;
      if oldLimit > 0 && limit.readLimit <= 0 {
        read.Suspend(members, busy);
      } else if oldLimit <= 0 && limit.readLimit > 0 {
        read.Unsuspend(members, random, busy);
      }
    }

    /** The group's part of _bufferevent_decrement_write_buckets. */
    method DecrementWriteBuckets(bytes: int, random: nat, busy: set<nat>)
      requires Valid() && InType(limit.writeLimit - bytes)
      modifies limit, write
      ensures Valid() && State() == GroupNext(old(State()), SpendOp(true, bytes, busy))
      ensures write.suspended == (limit.writeLimit <= 0) && limit.writeLimit == old(limit.writeLimit) - bytes && limit.Read() == old(limit.Read())
      ensures forall m :: m in write.held <==>
        if limit.writeLimit <= 0 then m in old(write.held) || (m in members && m !in busy)
        else m in old(write.held) && (m in busy || !old(write.suspended))
    {
      GroupNextOk(State(), SpendOp(true, bytes, busy));
      limit.writeLimit := limit.writeLimit - bytes;
      if limit.writeLimit <= 0 {
        write.Suspend(members, busy);
      } else if write.suspended {
        write.Unsuspend(members, random, busy);
      }
    }

    /** bufferevent_rate_limit_group_decrement_write: acts only when the limit crosses zero. */
    method DecrementWrite(decr: int, random: nat, busy: set<nat>)
      requires Valid() && InType(limit.writeLimit - decr)
      modifies limit, write
      ensures Valid() && State() == GroupNext(old(State()), TakeOp(true, decr, busy))
      ensures (old(limit.writeLimit) > 0) == (limit.writeLimit > 0) ==> write.State() == old(write.State())
      ensures (old(limit.writeLimit) > 0) != (limit.writeLimit > 0) ==> write.suspended == (limit.writeLimit <= 0)
      ensures limit.writeLimit == old(limit.writeLimit) - decr && limit.Read() == old(limit.Read())
      ensures forall m :: m in write.held <==>
        if old(limit.writeLimit) > 0 && limit.writeLimit <= 0 then m in old(write.held) || (m in members && m !in busy)
        else m in old(write.held) && (m in busy || old(limit.writeLimit) > 0 || limit.writeLimit <= 0)
    {
      GroupNextOk(State(), TakeOp(true, decr, busy));
      var oldLimit := limit.writeLimit;
      limit.writeLimit := limit.writeLimit - decr;
      if oldLimit > 0 && limit.writeLimit <= 0 {
        write.Suspend(members, busy);
      } else if oldLimit <= 0 && limit.writeLimit > 0 {
        write.Unsuspend(members, random, busy);
      }
    }

    /** The group's part of _bufferevent_get_rlim_max. Members that all take their share
        take no more than there is, unless it is the minimal one. */
    method GetShare(isWrite: bool, m: nat) returns (share: int)
      requires Valid() && m in members
      modifies read, write
      ensures Valid() && State() == GroupNext(old(State()), AskOp(isWrite, m))
      ensures var side, l := if isWrite then write else read, if isWrite then limit.writeLimit else limit.readLimit;
        if side.suspended then share == 0 && m in side.held
        else share >= minShare && (share == minShare || share * |members| <= l < (share + 1) * |members|)
    {
      GroupNextOk(State(), AskOp(isWrite, m));
      var side := if isWrite then write else read;
      var l := if isWrite then limit.writeLimit else limit.readLimit;
      if side.suspended {
        side.held := side.held + {m};
        return 0;
      }
      share := Quotient(l, |members|);
      QuotientIs(l, |members|);
      if share < minShare {
        share := minShare;
      }
    }

    /** The master timer, which fires every tick: _bev_group_refill_callback. With a
        share of zero it wakes a group whose bucket is exactly empty. */
    method Refill(now: u32, random: nat, busy: set<nat>)
      requires Valid()
      modifies limit, read, write
      ensures Valid() && State() == GroupNext(old(State()), TickOp(now, busy))
      ensures old(GroupExhausts(State())) ==> (GroupExhausts(State()) <==> !Slips(old(State()), TickOp(now, busy)))
      ensures old(limit.Within(cfg)) ==> (
        && limit.Within(cfg)
        && limit.Read() == Updated(old(limit.Read()), cfg.readRate, cfg.readMaximum, now)
        && limit.Write() == Updated(old(limit.Write()), cfg.writeRate, cfg.writeMaximum, now))
      ensures read.suspended == (old(read.suspended) && limit.readLimit < minShare)
      ensures write.suspended == (old(write.suspended) && limit.writeLimit < minShare)
      ensures read.held ==
        if old(read.pendingUnsuspend) || (old(read.suspended) && limit.readLimit >= minShare) then old(read.held) * busy else old(read.held)
      ensures write.held ==
        if old(write.pendingUnsuspend) || (old(write.suspended) && limit.writeLimit >= minShare) then old(write.held) * busy else old(write.held)
    {
      hide Refreshed, Updated, Wraps, LettingGo, Slips;
      ghost var s := State();
      GroupNextOk(s, TickOp(now, busy));
      LettingGoes(read.State(), write.State(), members, busy);
      if GroupExhausts(s) {
        GroupNextExhausts(s, TickOp(now, busy));
      }
      var _ := limit.Update(cfg, now);
      read.Renew(members, limit.readLimit >= minShare, random, busy);
      write.Renew(members, limit.writeLimit >= minShare, random, busy);
    }

    /** If nothing more is spent and no lock is taken, the timer lets go of the members
        exactly when the limit reaches the share, or another try was noted. */
    method WakeUp(times: seq<u32>, random: nat) returns (firings: nat)
      requires Valid()
      modifies limit, read, write
      ensures Valid() && firings <= |times| && (read.held != {} || write.held != {} ==> firings == |times|)
      ensures limit.Read() == Through(old(limit.Read()), cfg.readRate, cfg.readMaximum, times[..firings])
      ensures limit.Write() == Through(old(limit.Write()), cfg.writeRate, cfg.writeMaximum, times[..firings])
      ensures Freed(read.held, old(read.held), old(read.pendingUnsuspend), old(limit.Read()), cfg.readRate, cfg.readMaximum, minShare, times[..firings])
      ensures Freed(write.held, old(write.held), old(write.pendingUnsuspend), old(limit.Write()), cfg.writeRate, cfg.writeMaximum, minShare, times[..firings])
      ensures Freed(read.held, old(read.held), old(read.pendingUnsuspend), old(limit.Read()), cfg.readRate, cfg.readMaximum, minShare, times)
      ensures Freed(write.held, old(write.held), old(write.pendingUnsuspend), old(limit.Write()), cfg.writeRate, cfg.writeMaximum, minShare, times)
    {
      hide Updated, Through, StaysBelow, Wraps, Refreshed, GroupOk;
      firings := 0;
      ghost var r, w := limit.Read(), limit.Write();
      ghost var rh, wh, rp, wp := read.held, write.held, read.pendingUnsuspend, write.pendingUnsuspend;
      ThroughNone(r, cfg.readRate, cfg.readMaximum, times);
      ThroughNone(w, cfg.writeRate, cfg.writeMaximum, times);
      SidesDiffer();
      while (read.held != {} || write.held != {}) && firings < |times|
        invariant Valid() && firings <= |times|
        invariant limit.Read() == Through(r, cfg.readRate, cfg.readMaximum, times[..firings])
        invariant limit.Write() == Through(w, cfg.writeRate, cfg.writeMaximum, times[..firings])
        invariant Freed(read.held, rh, rp, r, cfg.readRate, cfg.readMaximum, minShare, times[..firings])
        invariant Freed(write.held, wh, wp, w, cfg.writeRate, cfg.writeMaximum, minShare, times[..firings])
        invariant read.held != {} ==> read.suspended || read.pendingUnsuspend
        invariant write.held != {} ==> write.suspended || write.pendingUnsuspend
        invariant read.pendingUnsuspend == (rp && firings == 0) && write.pendingUnsuspend == (wp && firings == 0)
      {
        ThroughNext(r, cfg.readRate, cfg.readMaximum, minShare, times, firings);
        ThroughNext(w, cfg.writeRate, cfg.writeMaximum, minShare, times, firings);
        assert times[..firings + 1] != [] && (firings > 0 ==> times[..firings] != []);
        Refill(times[firings], random, {});
        firings := firings + 1;
      }
      FreedAll(read.held, rh, rp, r, cfg.readRate, cfg.readMaximum, minShare, times, firings);
      FreedAll(write.held, wh, wp, w, cfg.writeRate, cfg.writeMaximum, minShare, times, firings);
    }

    lemma SidesDiffer()
      requires Valid()
      ensures read != write
      ensures read.held != {} ==> read.suspended || read.pendingUnsuspend
      ensures write.held != {} ==> write.suspended || write.pendingUnsuspend
    {
    }
  }

  method GroupRunOne(g: Group, op: GroupOp, random: nat)
    requires g.Valid()
    modifies g, g.limit, g.read, g.write
    ensures g.Valid() && g.State() == GroupNext(old(g.State()), op)
  {
    hide GroupOk, Spending, Taking, GroupTick;
    match op {
      case JoinOp(m) => g.Join(m);
      case LeaveOp(i) =>
        if i < |g.members| {
          g.Leave(i);
        }
      case SpendOp(isWrite, n, busy) =>
        if isWrite && InType(g.limit.writeLimit - n) {
          g.DecrementWriteBuckets(n, random, busy);
        } else if !isWrite && InType(g.limit.readLimit - n) {
          g.DecrementReadBuckets(n, random, busy);
        }
      case TakeOp(isWrite, n, busy) =>
        if isWrite && InType(g.limit.writeLimit - n) {
          g.DecrementWrite(n, random, busy);
        } else if !isWrite && InType(g.limit.readLimit - n) {
          g.DecrementRead(n, random, busy);
        }
      case AskOp(isWrite, m) =>
        if m in g.members {
          var _ := g.GetShare(isWrite, m);
        }
      case TickOp(now, busy) => g.Refill(now, random, busy);
      case ShareOp(share) =>
        GroupNextOk(g.State(), op);
        g.SetMinShare(share);
      case CfgOp(cfg) => g.SetCfg(cfg);
    }
  }

  /** A group over any run, wherever the random starts are. */
  method GroupRun(cfg: Cfg, now: u32, ops: seq<GroupOp>, random: seq<nat>) returns (g: Group)
    requires |random| == |ops|
    ensures fresh(g) && g.Valid() && g.State() == GroupReached(cfg, now, ops)
  {
    hide GroupNext, GroupOk;
    g := new Group(cfg, now);
    assert ops[..0] == [];
    for i := 0 to |ops|
      invariant fresh(g) && fresh(g.limit) && fresh(g.read) && fresh(g.write) && g.Valid()
      invariant g.State() == GroupReached(cfg, now, ops[..i])
    {
      assert ops[..i + 1][..i] == ops[..i];
      GroupRunOne(g, ops[i], random[i]);
    }
    assert ops[..|ops|] == ops;
  }

  /** A group with a minimal share of zero that is woken although its bucket is empty. */
  lemma WokenEmpty()
    ensures var s := GroupReached(Cfg(0, 1, 1, 1, 1), 0, [ShareOp(0), SpendOp(false, 1, {}), TickOp(0, {})]);
      s.read.limit == 0 && !s.readSide.suspended && !GroupExhausts(s)
  {
    var cfg := Cfg(0, 1, 1, 1, 1);
    Three(cfg, 0, ShareOp(0), SpendOp(false, 1, {}), TickOp(0, {}));
    assert GroupReached(cfg, 0, []).read == Level(1, 0);
    hide GroupReached, Refilled;
    var s := GroupNext(GroupNext(GroupReached(cfg, 0, []), ShareOp(0)), SpendOp(false, 1, {}));
    assert s.read == Level(0, 0) && s.minShare == 0 && s.readSide.suspended;
  }
}
