/** Token buckets, and the suspending and waking of what they limit. */
module RateLimit {
  import opened Bytes

  const U32: nat := 0x1_0000_0000
  const U64: nat := 0x1_0000_0000_0000_0000
  const SSIZE_MIN: int := -0x8000_0000_0000_0000
  const MAX_TO_READ_EVER: int := 16384

  /** What ev_token_bucket_cfg_new lets through; `id` tells two configurations apart. */
  datatype RawCfg = Cfg(id: nat, readRate: nat, readMaximum: nat, writeRate: nat, writeMaximum: nat)

  type Cfg = c: RawCfg |
      1 <= c.readRate <= c.readMaximum <= SSIZE_MAX && 1 <= c.writeRate <= c.writeMaximum <= SSIZE_MAX
    witness Cfg(0, 1, 1, 1, 1)

  /** How many ticks went by, as 32-bit subtraction has it. */
  function TicksSince(last: u32, now: u32): nat {
    (now - last) % U32
  }

  predicate InType(x: int) {
    SSIZE_MIN <= x <= SSIZE_MAX
  }

  function Signed(x: int): (r: int)
    ensures InType(r)
  {
    var y := x % U64;
    if y > SSIZE_MAX then y - U64 else y
  }

  /** The new limit as the code computes it, in 64-bit arithmetic. */
  function Refilled(limit: int, rate: nat, maximum: nat, n: nat): int
    requires n > 0
  {
    if (maximum - limit) % U64 / n < rate then maximum else Signed(limit + n * rate)
  }

  function Credited(limit: int, rate: nat, maximum: nat, n: nat): int {
    if limit + n * rate < maximum then limit + n * rate else maximum
  }

  lemma CreditedIs(limit: int, rate: nat, maximum: nat, n: nat)
    ensures Credited(limit, rate, maximum, n) == if limit + n * rate < maximum then limit + n * rate else maximum
  {
  }

  lemma MulLess(a: nat, b: nat, n: nat)
    requires a <= b
    ensures n * a <= n * b
  {
    assert n * b == n * a + n * (b - a);
  }

  lemma DivLess(d: nat, n: nat, r: nat)
    requires n > 0
    ensures d / n < r <==> d < n * r
  {
    var q := d / n;
    assert n * q <= d < n * q + n;
    if q < r {
      assert n * q + n == n * (q + 1);
      MulLess(q + 1, r, n);
    } else {
      MulLess(r, q, n);
    }
  }

  lemma CreditAt(limit: int, maximum: nat, credit: int)
    requires InType(limit) && 1 <= maximum <= SSIZE_MAX && credit >= 0
    ensures var d := if limit <= maximum then maximum - limit else U64 + maximum - limit;
      (if d < credit then maximum else Signed(limit + credit)) == (if limit + credit < maximum then limit + credit else maximum) <==>
        limit <= maximum || credit >= U64 + maximum - limit
  {
  }

  /** The overflow-free form is the plain one exactly when the bucket is not overfull,
      or so many ticks went by that they would fill it even past 64 bits. */
  lemma RefillIsCredit(limit: int, rate: nat, maximum: nat, n: nat)
    requires InType(limit) && 1 <= rate <= maximum <= SSIZE_MAX && 0 < n <= INT_MAX
    ensures Refilled(limit, rate, maximum, n) == Credited(limit, rate, maximum, n) <==>
      limit <= maximum || n * rate >= U64 + maximum - limit
  {
    var d := (maximum - limit) % U64;
    assert d == if limit <= maximum then maximum - limit else U64 + maximum - limit;
    DivLess(d, n, rate);
    MulLess(0, rate, n);
    hide Signed;
    CreditAt(limit, maximum, n * rate);
  }

  /** Crediting a span of ticks at once or in two parts is the same. */
  lemma CreditSplits(limit: int, rate: nat, maximum: nat, a: nat, b: nat)
    requires limit <= maximum
    ensures Credited(Credited(limit, rate, maximum, a), rate, maximum, b) == Credited(limit, rate, maximum, a + b)
  {
    assert (a + b) * rate == a * rate + b * rate;
    assert a * rate >= 0 && b * rate >= 0;
  }

  /** One direction of a bucket, and the tick it was last updated in. */
  datatype Level = Level(limit: int, last: u32)

  /** An update of one direction in plain arithmetic. */
  function Updated(s: Level, rate: nat, maximum: nat, now: u32): Level {
    var n := TicksSince(s.last, now);
    if n == 0 || n > INT_MAX then s else Level(Credited(s.limit, rate, maximum, n), now)
  }

  /** What ev_token_bucket_update makes of it. */
  function Refreshed(s: Level, rate: nat, maximum: nat, now: u32): Level {
    var n := TicksSince(s.last, now);
    if n == 0 || n > INT_MAX then s else Level(Refilled(s.limit, rate, maximum, n), now)
  }

  lemma RefreshedIsUpdated(s: Level, rate: nat, maximum: nat, now: u32)
    requires InType(s.limit) && 1 <= rate <= maximum <= SSIZE_MAX
    ensures InType(Refreshed(s, rate, maximum, now).limit)
    ensures s.limit <= maximum ==>
      Refreshed(s, rate, maximum, now) == Updated(s, rate, maximum, now) && s.limit <= Updated(s, rate, maximum, now).limit <= maximum
  {
    var n := TicksSince(s.last, now);
    MulLess(0, n, rate);
    if 0 < n <= INT_MAX {
      RefillIsCredit(s.limit, rate, maximum, n);
    }
  }

  /** An overfull bucket is filled so far that its limit wraps around. */
  predicate Wraps(s: Level, rate: nat, maximum: nat, now: u32) {
    var n := TicksSince(s.last, now);
    0 < n <= INT_MAX && s.limit > maximum && SSIZE_MAX < s.limit + n * rate <= U64
  }

  lemma WrapsAt(limit: int, maximum: nat, credit: int)
    requires InType(limit) && 0 < maximum < limit && credit >= 0
    ensures (if U64 + maximum - limit < credit then maximum else Signed(limit + credit)) <= 0 <==> SSIZE_MAX < limit + credit <= U64
  {
  }

  /** That is the only way in which an update empties a bucket. */
  lemma WrapsEmpties(s: Level, rate: nat, maximum: nat, now: u32)
    requires InType(s.limit) && 1 <= rate <= maximum <= SSIZE_MAX && s.limit > 0
    ensures Refreshed(s, rate, maximum, now).limit <= 0 <==> Wraps(s, rate, maximum, now)
  {
    var n := TicksSince(s.last, now);
    if 0 < n <= INT_MAX {
      if s.limit <= maximum {
        RefreshedIsUpdated(s, rate, maximum, now);
      } else {
        var d := (maximum - s.limit) % U64;
        assert d == U64 + maximum - s.limit;
        DivLess(d, n, rate);
        MulLess(0, rate, n);
        hide Signed;
        WrapsAt(s.limit, maximum, n * rate);
      }
    }
  }

  lemma TicksAdd(x: u32, y: u32, z: u32)
    requires TicksSince(x, y) + TicksSince(y, z) < U32
    ensures TicksSince(x, z) == TicksSince(x, y) + TicksSince(y, z)
    ensures TicksSince(x, y) == 0 ==> x == y
  {
  }

  /** An update in between changes nothing, even when the tick count wraps around. */
  lemma UpdateSplits(s: Level, rate: nat, maximum: nat, mid: u32, now: u32)
    requires InType(s.limit) && 1 <= rate <= maximum <= SSIZE_MAX && s.limit <= maximum
    requires TicksSince(s.last, mid) + TicksSince(mid, now) <= INT_MAX
    ensures Refreshed(Refreshed(s, rate, maximum, mid), rate, maximum, now) == Refreshed(s, rate, maximum, now)
  {
    var a, b := TicksSince(s.last, mid), TicksSince(mid, now);
    RefreshedIsUpdated(s, rate, maximum, mid);
    RefreshedIsUpdated(s, rate, maximum, now);
    RefreshedIsUpdated(Updated(s, rate, maximum, mid), rate, maximum, now);
    TicksAdd(s.last, mid, now);
    CreditSplits(s.limit, rate, maximum, a, b);
    if a == 0 {
      assert s.last == mid;
    }
    if b == 0 {
      assert mid == now;
    }
  }

  /** What happens to a bucket: bytes are spent, or given back if there are less than
      none, or it is updated when `tick` ticks have gone by since the start. */
  datatype Event = Spend(bytes: int) | Reach(tick: nat)

  function Then(s: Level, rate: nat, maximum: nat, event: Event): Level {
    match event
    case Spend(bytes) => s.(limit := s.limit - bytes)
    case Reach(tick) => Refreshed(s, rate, maximum, tick % U32)
  }

  function After(s: Level, rate: nat, maximum: nat, events: seq<Event>): Level
    decreases |events|
  {
    if events == [] then s else After(Then(s, rate, maximum, events[0]), rate, maximum, events[1..])
  }

  function Spent(events: seq<Event>): int
    decreases |events|
  {
    if events == [] then 0 else (if events[0].Spend? then events[0].bytes else 0) + Spent(events[1..])
  }

  /** The last tick of a run that started at tick `from`. */
  function LastTick(from: nat, events: seq<Event>): nat
    decreases |events|
  {
    if events == [] then from else LastTick(if events[0].Reach? then events[0].tick else from, events[1..])
  }

  /** The clock does not go back, and no spending makes the limit leave its type. */
  predicate Legal(s: Level, rate: nat, maximum: nat, from: nat, events: seq<Event>)
    decreases |events|
  {
    && InType(s.limit)
    && (events != [] ==>
          && (events[0].Reach? ==> from <= events[0].tick)
          && Legal(Then(s, rate, maximum, events[0]), rate, maximum, if events[0].Reach? then events[0].tick else from, events[1..]))
  }

  lemma SignedIsLess(x: int)
    requires SSIZE_MIN <= x
    ensures Signed(x) <= x
  {
  }

  /** An update never gives more than the rate for each tick. */
  lemma RefreshedIsLess(s: Level, rate: nat, maximum: nat, now: u32)
    requires InType(s.limit) && 1 <= rate <= maximum <= SSIZE_MAX
    ensures Refreshed(s, rate, maximum, now).limit <= s.limit + rate * TicksSince(s.last, now)
    ensures Refreshed(s, rate, maximum, now) == s || Refreshed(s, rate, maximum, now).last == now
  {
    var n := TicksSince(s.last, now);
    assert n * rate == rate * n;
    MulLess(0, n, rate);
    if 0 < n <= INT_MAX {
      DivLess((maximum - s.limit) % U64, n, rate);
      SignedIsLess(s.limit + n * rate);
    }
  }

  lemma {:induction false} ModShift(x: int, k: int)
    ensures (U32 * k + x) % U32 == x % U32
    decreases if k < 0 then -k else k
  {
    if k > 0 {
      ModShift(x, k - 1);
      assert U32 * k + x == U32 * (k - 1) + x + U32;
    } else if k < 0 {
      ModShift(x, k + 1);
      assert U32 * (k + 1) + x == U32 * k + x + U32;
    }
  }

  lemma ModDiff(at: nat, tick: nat)
    ensures TicksSince(at % U32, tick % U32) == (tick - at) % U32
    ensures at <= tick ==> (tick - at) % U32 <= tick - at
  {
    var a, t := at / U32, tick / U32;
    assert at == U32 * a + at % U32 && tick == U32 * t + tick % U32;
    assert tick - at == U32 * (t - a) + (tick % U32 - at % U32);
    ModShift(tick % U32 - at % U32, t - a);
  }

  /** Over any run the bytes spent are at most the limit at the start and the rate for
      every tick, less the limit at the end, however often the 32-bit tick count wraps
      and even if the bucket is overfull. `from` is the tick of the last event, and `at`
      the tick, not after it, of the last update that took effect. */
  lemma {:induction false} SpendingIsBounded(s: Level, rate: nat, maximum: nat, at: nat, from: nat, events: seq<Event>)
    requires 1 <= rate <= maximum <= SSIZE_MAX && Legal(s, rate, maximum, from, events) && at <= from && s.last == at % U32
    ensures Spent(events) <= s.limit + rate * (LastTick(from, events) - at) - After(s, rate, maximum, events).limit
    decreases |events|
  {
    hide Refreshed;
    if events == [] {
      MulLess(0, from - at, rate);
    } else {
      var next := Then(s, rate, maximum, events[0]);
      match events[0]
      case Spend(bytes) =>
        SpendingIsBounded(next, rate, maximum, at, from, events[1..]);
      case Reach(tick) =>
        if next == s {
          SpendingIsBounded(s, rate, maximum, at, tick, events[1..]);
        } else {
          var n := TicksSince(s.last, tick % U32);
          RefreshedIsLess(s, rate, maximum, tick % U32);
          SpendingIsBounded(next, rate, maximum, tick, tick, events[1..]);
          ModDiff(at, tick);
          MulLess(n, tick - at, rate);
          var end := LastTick(tick, events[1..]);
          assert rate * (end - at) == rate * (end - tick) + rate * (tick - at);
        }
    }
  }

  predicate Clipped(was: Level, now: Level, maximum: nat) {
    now == was.(limit := if was.limit > maximum then maximum else was.limit)
  }

  /** The update of one limit, without overflow. */
  method RefillOne(limit: int, rate: nat, maximum: nat, n: nat) returns (r: int)
    requires InType(limit) && 1 <= rate <= maximum <= SSIZE_MAX && 0 < n <= INT_MAX
    ensures r == Refilled(limit, rate, maximum, n) && InType(r)
    ensures r == Credited(limit, rate, maximum, n) <==> limit <= maximum || n * rate >= U64 + maximum - limit
  {
    RefillIsCredit(limit, rate, maximum, n);
    if (maximum - limit) % U64 / n < rate {
      r := maximum;
    } else {
      r := Signed(limit + n * rate);
    }
  }

  /** What a bufferevent with a rate limit of its own is like. The flags are those of
      suspension for bandwidth; other reasons to suspend are not part of this model. */
  datatype Snap = Snap(cfg: Option<Cfg>, read: Level, write: Level, readSuspended: bool, writeSuspended: bool, timerSet: bool)

  predicate Within(s: Snap) {
    s.cfg.Some? ==> s.read.limit <= s.cfg.value.readMaximum && s.write.limit <= s.cfg.value.writeMaximum
  }

  class Bucket {
    var readLimit: int
    var writeLimit: int
    var lastUpdated: u32

    predicate Fits()
      reads this
    {
      InType(readLimit) && InType(writeLimit)
    }

    /** The bucket is not overfull. */
    predicate Within(cfg: Cfg)
      reads this
    {
      readLimit <= cfg.readMaximum && writeLimit <= cfg.writeMaximum
    }

    function Read(): Level
      reads this
    {
      Level(readLimit, lastUpdated)
    }

    function Write(): Level
      reads this
    {
      Level(writeLimit, lastUpdated)
    }

    constructor ()
      ensures readLimit == 0 && writeLimit == 0 && lastUpdated == 0
    {
      readLimit, writeLimit, lastUpdated := 0, 0, 0;
    }

    /** ev_token_bucket_init */
    method Init(cfg: Cfg, now: u32, reinitialize: bool)
      requires reinitialize ==> Fits()
      modifies this
      ensures Fits() && Within(cfg)
      ensures !reinitialize ==> readLimit == cfg.readRate && writeLimit == cfg.writeRate && lastUpdated == now
      ensures reinitialize ==> Clipped(old(Read()), Read(), cfg.readMaximum) && Clipped(old(Write()), Write(), cfg.writeMaximum)
    {
      if reinitialize {
        if readLimit > cfg.readMaximum {
          readLimit := cfg.readMaximum;
        }
        if writeLimit > cfg.writeMaximum {
          writeLimit := cfg.writeMaximum;
        }
      } else {
        readLimit, writeLimit, lastUpdated := cfg.readRate, cfg.writeRate, now;
      }
    }

    /** ev_token_bucket_update */
    method Update(cfg: Cfg, now: u32) returns (r: bool)
      requires Fits()
      modifies this
      ensures Fits() && r == (0 < TicksSince(old(lastUpdated), now) <= INT_MAX)
      ensures Read() == Refreshed(old(Read()), cfg.readRate, cfg.readMaximum, now)
      ensures Write() == Refreshed(old(Write()), cfg.writeRate, cfg.writeMaximum, now)
      ensures old(Within(cfg)) ==> (
        && Within(cfg)
        && Read() == Updated(old(Read()), cfg.readRate, cfg.readMaximum, now)
        && Write() == Updated(old(Write()), cfg.writeRate, cfg.writeMaximum, now))
      ensures var n := (now - old(lastUpdated)) % 0x1_0000_0000;
        if n == 0 || n > 0x7fff_ffff then !r && unchanged(this)
        else
          r && lastUpdated == now && (old(Within(cfg)) ==>
            && readLimit == (if old(readLimit) + n * cfg.readRate < cfg.readMaximum then old(readLimit) + n * cfg.readRate else cfg.readMaximum)
            && writeLimit == (if old(writeLimit) + n * cfg.writeRate < cfg.writeMaximum then old(writeLimit) + n * cfg.writeRate else cfg.writeMaximum))
    {
      hide Refilled, Credited;
      RefreshedIsUpdated(Read(), cfg.readRate, cfg.readMaximum, now);
      RefreshedIsUpdated(Write(), cfg.writeRate, cfg.writeMaximum, now);
      var n := TicksSince(lastUpdated, now);
      if n == 0 || n > INT_MAX {
        return false;
      }
      CreditedIs(readLimit, cfg.readRate, cfg.readMaximum, n);
      CreditedIs(writeLimit, cfg.writeRate, cfg.writeMaximum, n);
      readLimit := RefillOne(readLimit, cfg.readRate, cfg.readMaximum, n);
      writeLimit := RefillOne(writeLimit, cfg.writeRate, cfg.writeMaximum, n);
      lastUpdated := now;
      return true;
    }
  }

  /** The refill timer is pending exactly while something is suspended. */
  predicate SnapOk(s: Snap) {
    && InType(s.read.limit) && InType(s.write.limit) && s.read.last == s.write.last
    && s.timerSet == (s.readSuspended || s.writeSuspended) && (s.cfg.None? ==> !s.timerSet)
  }

  /** An exhausted bucket has suspended its direction. */
  predicate Exhausts(s: Snap) {
    s.cfg.Some? ==> (s.read.limit <= 0 ==> s.readSuspended) && (s.write.limit <= 0 ==> s.writeSuspended)
  }

  /** What can happen to a bufferevent, with the time it happens at. Bytes are taken by
      the library as it reads and writes, or by the program through the limits, which
      may also give some back. */
  datatype Op =
    | Configure(cfg: Option<Cfg>, now: u32)
    | ReadBytes(n: int)
    | WroteBytes(n: int)
    | TakeRead(n: int)
    | TakeWrite(n: int)
    | Ask(isWrite: bool, now: u32)
    | Timer(now: u32)

  function Suspending(s: Snap, read: bool, write: bool): Snap {
    s.(readSuspended := read, writeSuspended := write, timerSet := read || write)
  }

  function Clip(s: Level, maximum: nat): Level {
    s.(limit := if s.limit > maximum then maximum else s.limit)
  }

  function Configured(s: Snap, cfg: Option<Cfg>, now: u32): Snap {
    if cfg.None? then Suspending(s.(cfg := None), false, false)
    else if cfg == s.cfg then s
    else
      var c := cfg.value;
      var r := if s.cfg.None? then Level(c.readRate, now) else Clip(s.read, c.readMaximum);
      var w := if s.cfg.None? then Level(c.writeRate, now) else Clip(s.write, c.writeMaximum);
      Suspending(s.(cfg := cfg, read := r, write := w), r.limit <= 0, w.limit <= 0)
  }

  function RefreshedBoth(s: Snap, now: u32): Snap {
    if s.cfg.None? then s
    else
      var c := s.cfg.value;
      s.(read := Refreshed(s.read, c.readRate, c.readMaximum, now), write := Refreshed(s.write, c.writeRate, c.writeMaximum, now))
  }

  function Fired(s: Snap, now: u32): Snap {
    var t := RefreshedBoth(s, now);
    Suspending(t, s.readSuspended && t.read.limit <= 0, s.writeSuspended && t.write.limit <= 0)
  }

  /** Whether a direction is suspended when only crossing zero counts. */
  function Crossing(was: int, now: int, suspended: bool): bool {
    if was > 0 && now <= 0 then true else if was <= 0 && now > 0 then false else suspended
  }

  /** What an operation does; one that would make a limit leave its type does nothing,
      nor does a timer that is not pending. */
  function Next(s: Snap, op: Op): Snap {
    match op
    case Configure(cfg, now) => Configured(s, cfg, now)
    case ReadBytes(n) =>
      var l := s.read.limit - n;
      if s.cfg.Some? && InType(l) then Suspending(s.(read := s.read.(limit := l)), l <= 0, s.writeSuspended) else s
    case WroteBytes(n) =>
      var l := s.write.limit - n;
      if s.cfg.Some? && InType(l) then Suspending(s.(write := s.write.(limit := l)), s.readSuspended, l <= 0) else s
    case TakeRead(n) =>
      var l := s.read.limit - n;
      if s.cfg.Some? && InType(l)
      then Suspending(s.(read := s.read.(limit := l)), Crossing(s.read.limit, l, s.readSuspended), s.writeSuspended) else s
    case TakeWrite(n) =>
      var l := s.write.limit - n;
      if s.cfg.Some? && InType(l)
      then Suspending(s.(write := s.write.(limit := l)), s.readSuspended, Crossing(s.write.limit, l, s.writeSuspended)) else s
    case Ask(_, now) => RefreshedBoth(s, now)
    case Timer(now) => if s.timerSet then Fired(s, now) else s
  }

  /** A direction that is not suspended loses all its bytes because its limit wraps. */
  predicate Overflows(s: Snap, op: Op) {
    && s.cfg.Some? && (op.Ask? || (op.Timer? && s.timerSet))
    && var c := s.cfg.value;
       || (!s.readSuspended && Wraps(s.read, c.readRate, c.readMaximum, op.now))
       || (!s.writeSuspended && Wraps(s.write, c.writeRate, c.writeMaximum, op.now))
  }

  lemma SameLast(s: Snap, now: u32)
    requires s.read.last == s.write.last
    ensures RefreshedBoth(s, now).read.last == RefreshedBoth(s, now).write.last
  {
  }

  lemma NextOk(s: Snap, op: Op)
    requires SnapOk(s)
    ensures SnapOk(Next(s, op))
  {
    hide Refreshed;
    if s.cfg.Some? && (op.Ask? || op.Timer?) {
      var c := s.cfg.value;
      RefreshedIsUpdated(s.read, c.readRate, c.readMaximum, op.now);
      RefreshedIsUpdated(s.write, c.writeRate, c.writeMaximum, op.now);
      RefreshedIsLess(s.read, c.readRate, c.readMaximum, op.now);
      RefreshedIsLess(s.write, c.writeRate, c.writeMaximum, op.now);
      SameLast(s, op.now);
    }
  }

  /** An exhausted bucket goes on suspending exactly unless a limit wraps. */
  lemma NextExhausts(s: Snap, op: Op)
    requires SnapOk(s) && Exhausts(s)
    ensures Exhausts(Next(s, op)) <==> !Overflows(s, op)
  {
    hide Refreshed, Wraps;
    if s.cfg.Some? && (op.Ask? || op.Timer?) {
      var c := s.cfg.value;
      if !s.readSuspended {
        WrapsEmpties(s.read, c.readRate, c.readMaximum, op.now);
      }
      if !s.writeSuspended {
        WrapsEmpties(s.write, c.writeRate, c.writeMaximum, op.now);
      }
    }
  }

  /** Bytes are given back. */
  predicate GivesBack(op: Op) {
    (op.ReadBytes? || op.WroteBytes? || op.TakeRead? || op.TakeWrite?) && op.n < 0
  }

  /** Only bytes that are given back make a bucket overfull. */
  lemma NextWithin(s: Snap, op: Op)
    requires SnapOk(s) && Within(s) && !GivesBack(op)
    ensures Within(Next(s, op)) && !Overflows(s, op)
  {
    hide Refreshed;
    if s.cfg.Some? && (op.Ask? || op.Timer?) {
      var c := s.cfg.value;
      RefreshedIsUpdated(s.read, c.readRate, c.readMaximum, op.now);
      RefreshedIsUpdated(s.write, c.writeRate, c.writeMaximum, op.now);
    }
  }

  /** The state after a run, from a bufferevent without a configuration. */
  function Reached(ops: seq<Op>): Snap {
    if ops == [] then Snap(None, Level(0, 0), Level(0, 0), false, false, false)
    else Next(Reached(ops[..|ops| - 1]), ops[|ops| - 1])
  }

  predicate NoOverflow(ops: seq<Op>) {
    ops != [] ==> NoOverflow(ops[..|ops| - 1]) && !Overflows(Reached(ops[..|ops| - 1]), ops[|ops| - 1])
  }

  /** In every run something is suspended exactly while the timer is pending. As long as
      no limit wraps, an exhausted bucket suspends; and none wraps in a run in which
      nothing is given back. */
  lemma {:induction false} RunKeeps(ops: seq<Op>)
    ensures SnapOk(Reached(ops)) && (NoOverflow(ops) ==> Exhausts(Reached(ops)))
    ensures (forall i | 0 <= i < |ops| :: !GivesBack(ops[i])) ==> NoOverflow(ops) && Within(Reached(ops))
  {
    hide Next, Overflows, GivesBack;
    if ops != [] {
      var was, op := ops[..|ops| - 1], ops[|ops| - 1];
      RunKeeps(was);
      NextOk(Reached(was), op);
      if NoOverflow(was) {
        NextExhausts(Reached(was), op);
      }
      if forall i | 0 <= i < |ops| :: !GivesBack(ops[i]) {
        assert forall i | 0 <= i < |was| :: was[i] == ops[i];
        NextWithin(Reached(was), op);
      }
    }
  }

  lemma Three(a: Op, b: Op, c: Op)
    ensures Reached([a, b, c]) == Next(Next(Next(Snap(None, Level(0, 0), Level(0, 0), false, false, false), a), b), c)
  {
    hide Next;
    assert [] + [a] == [a] && [a] + [b] == [a, b] && [a, b] + [c] == [a, b, c];
    OneMore([], a);
    OneMore([a], b);
    OneMore([a, b], c);
  }

  lemma OneMore(ops: seq<Op>, op: Op)
    ensures Reached(ops + [op]) == Next(Reached(ops), op)
  {
    hide Next;
    assert (ops + [op])[..|ops|] == ops;
  }

  /** A run in which a program gives so much back that the next update empties the bucket,
      and reading is not suspended. */
  lemma RunOverflows()
    ensures var ops := [Configure(Some(Cfg(0, 1, 1, 1, 1)), 0), TakeRead(1 - SSIZE_MAX), Ask(false, 1)];
      !Exhausts(Reached(ops)) && Reached(ops).read.limit == SSIZE_MIN
  {
    var start, give, ask := Configure(Some(Cfg(0, 1, 1, 1, 1)), 0), TakeRead(1 - SSIZE_MAX), Ask(false, 1);
    Three(start, give, ask);
    hide Reached;
    var s := Next(Next(Snap(None, Level(0, 0), Level(0, 0), false, false, false), start), give);
    assert s.read == Level(SSIZE_MAX, 0) && !s.readSuspended;
  }

  function NonNegative(x: int): int {
    if x < 0 then 0 else x
  }

  /** An update at `now` takes effect. */
  predicate Credits(last: u32, now: u32) {
    0 < TicksSince(last, now) <= INT_MAX
  }

  /** The tick of the last update that took effect among those at `times`. */
  function LastCredit(last: u32, times: seq<u32>): u32 {
    if times == [] then last
    else
      var l := LastCredit(last, times[..|times| - 1]);
      if Credits(l, times[|times| - 1]) then times[|times| - 1] else l
  }

  /** The ticks that updates at `times` give credit for. */
  function Elapsed(last: u32, times: seq<u32>): nat {
    if times == [] then 0
    else
      var l, t := LastCredit(last, times[..|times| - 1]), times[|times| - 1];
      Elapsed(last, times[..|times| - 1]) + if Credits(l, t) then TicksSince(l, t) else 0
  }

  /** One direction after updates at `times`. */
  function Through(s: Level, rate: nat, maximum: nat, times: seq<u32>): Level {
    if times == [] then s else Refreshed(Through(s, rate, maximum, times[..|times| - 1]), rate, maximum, times[|times| - 1])
  }

  /** No update at `times` brings the limit up to `level`. */
  predicate StaysBelow(s: Level, rate: nat, maximum: nat, level: nat, times: seq<u32>) {
    times != [] ==>
      StaysBelow(s, rate, maximum, level, times[..|times| - 1]) && Through(s, rate, maximum, times).limit < level
  }

  lemma ThroughNone(s: Level, rate: nat, maximum: nat, times: seq<u32>)
    ensures Through(s, rate, maximum, times[..0]) == s && forall level :: StaysBelow(s, rate, maximum, level, times[..0])
  {
  }

  lemma ThroughNext(s: Level, rate: nat, maximum: nat, level: nat, times: seq<u32>, k: nat)
    requires k < |times|
    ensures Through(s, rate, maximum, times[..k + 1]) == Refreshed(Through(s, rate, maximum, times[..k]), rate, maximum, times[k])
    ensures StaysBelow(s, rate, maximum, level, times[..k + 1]) ==
      (StaysBelow(s, rate, maximum, level, times[..k]) && Through(s, rate, maximum, times[..k + 1]).limit < level)
  {
    assert times[..k + 1][..k] == times[..k];
  }

  lemma {:induction false} BelowBefore(s: Level, rate: nat, maximum: nat, level: nat, times: seq<u32>, k: nat)
    requires k <= |times| && StaysBelow(s, rate, maximum, level, times)
    ensures StaysBelow(s, rate, maximum, level, times[..k])
    decreases |times|
  {
    hide Through;
    if k == |times| {
      assert times[..k] == times;
    } else {
      BelowBefore(s, rate, maximum, level, times[..|times| - 1], k);
      assert times[..|times| - 1][..k] == times[..k];
    }
  }

  lemma CreditLess(limit: int, rate: nat, maximum: nat, n: nat)
    requires limit <= maximum && 1 <= rate <= maximum
    ensures limit <= Credited(limit, rate, maximum, n) <= maximum
    ensures n == 0 ==> Credited(limit, rate, maximum, n) == limit
  {
    MulLess(0, rate, n);
  }

  lemma CreditBelow(limit: int, rate: nat, maximum: nat, n: nat, level: nat)
    requires level <= maximum
    ensures Credited(limit, rate, maximum, n) < level <==> limit + n * rate < level
  {
  }

  /** A bucket that is not overfull gets the credit for all ticks that count. */
  lemma {:induction false} ThroughIs(s: Level, rate: nat, maximum: nat, times: seq<u32>)
    requires InType(s.limit) && 1 <= rate <= maximum <= SSIZE_MAX && s.limit <= maximum
    ensures Through(s, rate, maximum, times) ==
      Level(Credited(s.limit, rate, maximum, Elapsed(s.last, times)), LastCredit(s.last, times))
    decreases |times|
  {
    hide Credited, Refreshed;
    if times == [] {
      CreditLess(s.limit, rate, maximum, 0);
    } else {
      var front, t := times[..|times| - 1], times[|times| - 1];
      ThroughIs(s, rate, maximum, front);
      var mid := Through(s, rate, maximum, front);
      CreditLess(s.limit, rate, maximum, Elapsed(s.last, front));
      RefreshedIsUpdated(mid, rate, maximum, t);
      CreditSplits(s.limit, rate, maximum, Elapsed(s.last, front), TicksSince(mid.last, t));
    }
  }

  /** It stays below a level, whatever the times, exactly while the ticks that count are
      too few. */
  lemma {:induction false} BelowIff(s: Level, rate: nat, maximum: nat, level: nat, times: seq<u32>)
    requires InType(s.limit) && 1 <= rate <= maximum <= SSIZE_MAX && s.limit <= maximum && level <= maximum
    ensures StaysBelow(s, rate, maximum, level, times) <==> times == [] || s.limit + Elapsed(s.last, times) * rate < level
    decreases |times|
  {
    hide Credited, Through;
    if times != [] {
      var front := times[..|times| - 1];
      BelowIff(s, rate, maximum, level, front);
      var fewer, all := Elapsed(s.last, front), Elapsed(s.last, times);
      ThroughIs(s, rate, maximum, times);
      CreditBelow(s.limit, rate, maximum, all, level);
      MulLess(fewer, all, rate);
      assert fewer * rate == rate * fewer && all * rate == rate * all;
    }
  }

  /** Every update takes effect. */
  predicate Timely(last: u32, times: seq<u32>) {
    times != [] ==>
      Timely(last, times[..|times| - 1]) && Credits(LastCredit(last, times[..|times| - 1]), times[|times| - 1])
  }

  lemma {:induction false} TimelyCounts(last: u32, times: seq<u32>)
    requires Timely(last, times)
    ensures Elapsed(last, times) >= |times|
  {
    hide LastCredit;
    if times != [] {
      TimelyCounts(last, times[..|times| - 1]);
    }
  }

  /** If every update takes effect, no more of them are needed than the limit is below
      the level. */
  lemma WokenInTime(s: Level, rate: nat, maximum: nat, level: nat, times: seq<u32>)
    requires InType(s.limit) && 1 <= rate <= maximum <= SSIZE_MAX && s.limit <= maximum && level <= maximum
    requires Timely(s.last, times) && times != [] && |times| >= level - s.limit
    ensures !StaysBelow(s, rate, maximum, level, times)
  {
    BelowIff(s, rate, maximum, level, times);
    TimelyCounts(s.last, times);
    MulLess(1, rate, Elapsed(s.last, times));
  }

  /** ev_token_bucket_get_tick, for a time in milliseconds and ticks of `perTick` of them. */
  function GetTick(msec: nat, perTick: nat): u32
    requires perTick > 0
  {
    msec / perTick % U32
  }

  /** When ticks get another length, or the clock is set, an update at time `t` takes effect
      exactly if its tick is ahead of the last one, as numbers, by at most INT_MAX. */
  lemma TicksCompare(msec: nat, perTick: nat, t: nat, newPerTick: nat)
    requires perTick > 0 && newPerTick > 0
    ensures Credits(GetTick(msec, perTick), GetTick(t, newPerTick)) <==> 0 < (t / newPerTick - msec / perTick) % U32 <= INT_MAX
  {
    ModDiff(msec / perTick, t / newPerTick);
  }

  /** If at `now` the clock is behind the last update, updates take effect exactly from when
      it has caught up, and for INT_MAX ticks. */
  lemma BehindWaits(last: u32, now: u32, t: u32)
    requires TicksSince(last, now) > INT_MAX
    ensures Credits(last, t) <==> TicksSince(now, last) < TicksSince(now, t) <= TicksSince(now, last) + INT_MAX
  {
  }

  /** As long as it has not caught up nothing is credited. */
  lemma {:induction false} NoneWhileBehind(last: u32, now: u32, times: seq<u32>)
    requires TicksSince(last, now) > INT_MAX && forall i | 0 <= i < |times| :: TicksSince(now, times[i]) <= TicksSince(now, last)
    ensures Elapsed(last, times) == 0 && LastCredit(last, times) == last
  {
    hide Credits;
    if times != [] {
      NoneWhileBehind(last, now, times[..|times| - 1]);
      BehindWaits(last, now, times[|times| - 1]);
    }
  }

  /** A second per tick, and then two: a bucket that was last updated in November 2023 gets
      nothing for as long as the time since 1970 has not doubled. */
  lemma LongerTick(t: nat)
    requires 1_700_000_000_000 <= t < 3_400_000_002_000
    ensures !Credits(GetTick(1_700_000_000_000, 1000), GetTick(t, 2000))
  {
    TicksCompare(1_700_000_000_000, 1000, t, 2000);
    assert 850_000_000 <= t / 2000 <= 1_700_000_000;
  }

  /** The timer does nothing for what is suspended exactly if its update takes no effect. */
  lemma StuckIff(s: Snap, now: u32)
    requires SnapOk(s) && Within(s) && s.timerSet
    requires (s.readSuspended ==> s.read.limit <= 0) && (s.writeSuspended ==> s.write.limit <= 0)
    ensures Next(s, Timer(now)) == s <==> !Credits(s.read.last, now)
  {
    hide Refilled;
  }

  /** After a change of the configuration at tick `now` of the new one, while something is
      suspended and the clock is behind, the timer does nothing exactly until it has
      caught up. */
  lemma ConfiguredSticks(s: Snap, cfg: Cfg, now: u32, t: u32)
    requires SnapOk(s) && s.cfg.Some? && s.cfg != Some(cfg) && Configured(s, Some(cfg), now).timerSet
    requires TicksSince(s.read.last, now) > INT_MAX
    ensures var r := Configured(s, Some(cfg), now);
      Next(r, Timer(t)) == r <==>
        !(TicksSince(now, s.read.last) < TicksSince(now, t) <= TicksSince(now, s.read.last) + INT_MAX)
  {
    hide Fired;
    var r := Configured(s, Some(cfg), now);
    StuckIff(r, t);
    BehindWaits(s.read.last, now, t);
  }

  /** A run after which nobody is woken until a million ticks have gone by again. */
  lemma StaysStuck(now: u32)
    requires 1_000_000 <= now <= 2_000_000
    ensures var s := Reached([Configure(Some(Cfg(0, 1, 1, 1, 1)), 2_000_000), ReadBytes(1), Configure(Some(Cfg(1, 1, 1, 1, 1)), 1_000_000)]);
      s.readSuspended && s.timerSet && Next(s, Timer(now)) == s
  {
    var start, spend, change := Configure(Some(Cfg(0, 1, 1, 1, 1)), 2_000_000), ReadBytes(1), Configure(Some(Cfg(1, 1, 1, 1, 1)), 1_000_000);
    Three(start, spend, change);
    RunKeeps([start, spend, change]);
    hide Reached, Fired;
    var s := Next(Next(Next(Snap(None, Level(0, 0), Level(0, 0), false, false, false), start), spend), change);
    assert s.read == Level(0, 2_000_000) && s.readSuspended && s.write == Level(1, 2_000_000) && !s.writeSuspended;
    StillBehind(now);
    hide Next, Credits;
    StuckIff(s, now);
  }

  lemma StillBehind(now: u32)
    requires now <= 2_000_000
    ensures !Credits(2_000_000, now)
  {
  }

  lemma SnapTimer(s: Snap)
    requires SnapOk(s)
    ensures s.timerSet == (s.readSuspended || s.writeSuspended)
  {
  }

  class Bufferevent {
    var cfg: Option<Cfg>
    const limit: Bucket
    var readSuspended: bool
    var writeSuspended: bool
    var timerSet: bool

    function State(): Snap
      reads this, limit
    {
      Snap(cfg, limit.Read(), limit.Write(), readSuspended, writeSuspended, timerSet)
    }

    predicate Valid()
      reads this, limit
    {
      SnapOk(State())
    }

    constructor ()
      ensures Valid() && fresh(limit) && State() == Reached([])
    {
      cfg, readSuspended, writeSuspended, timerSet := None, false, false, false;
      limit := new Bucket();
    }

    /** bufferevent_set_rate_limit. The timer is set up anew, which is allowed only
        while it is not pending. */
    method SetRateLimit(newCfg: Option<Cfg>, now: u32)
      requires Valid()
      modifies this, limit
      ensures Valid() && cfg == newCfg && State() == Configured(old(State()), newCfg, now)
      ensures newCfg != old(cfg) ==> Exhausts(State()) && Within(State())
      ensures newCfg.None? || newCfg == old(cfg) ==> limit.Read() == old(limit.Read()) && limit.Write() == old(limit.Write())
      ensures newCfg.None? ==> !readSuspended && !writeSuspended && !timerSet
      ensures newCfg.Some? && newCfg != old(cfg) ==>
        && readSuspended == (limit.readLimit <= 0) && writeSuspended == (limit.writeLimit <= 0)
        && timerSet == (readSuspended || writeSuspended)
        && limit.readLimit == (if old(cfg).None? then newCfg.value.readRate
                               else if old(limit.readLimit) > newCfg.value.readMaximum then newCfg.value.readMaximum
                               else old(limit.readLimit))
        && limit.writeLimit == (if old(cfg).None? then newCfg.value.writeRate
                                else if old(limit.writeLimit) > newCfg.value.writeMaximum then newCfg.value.writeMaximum
                                else old(limit.writeLimit))
        && limit.lastUpdated == (if old(cfg).None? then now else old(limit.lastUpdated))
      ensures newCfg == old(cfg) ==> readSuspended == old(readSuspended) && writeSuspended == old(writeSuspended)
      ensures newCfg.Some? && newCfg != old(cfg) && timerSet && TicksSince(limit.lastUpdated, now) > INT_MAX ==>
        forall t: u32 {:trigger Timer(t)} :: Next(State(), Timer(t)) == State() <==>
          !(TicksSince(now, limit.lastUpdated) < TicksSince(now, t) <= TicksSince(now, limit.lastUpdated) + INT_MAX)
    {
      if newCfg.None? {
        cfg := None;
        readSuspended, writeSuspended := false, false;
        timerSet := false;
        return;
      }
      if newCfg == cfg {
        return;
      }
      var reinit := cfg.Some?;
      cfg := newCfg;
      limit.Init(newCfg.value, now, reinit);
      if reinit {
        timerSet := false;
      }
      assert !timerSet;
      readSuspended := !(limit.readLimit > 0);
      writeSuspended := !(limit.writeLimit > 0);
      if readSuspended || writeSuspended {
        timerSet := true;
      }
      ghost var s := old(State());
      if timerSet && TicksSince(limit.lastUpdated, now) > INT_MAX {
        forall t: u32
          ensures Next(State(), Timer(t)) == State() <==>
            !(TicksSince(now, limit.lastUpdated) < TicksSince(now, t) <= TicksSince(now, limit.lastUpdated) + INT_MAX)
        {
          ConfiguredSticks(s, newCfg.value, now, t);
        }
      }
    }

    /** _bufferevent_decrement_read_buckets, without the group. */
    method DecrementReadBuckets(bytes: int)
      requires Valid() && (cfg.Some? ==> InType(limit.readLimit - bytes))
      modifies this, limit
      ensures Valid() && State() == Next(old(State()), ReadBytes(bytes)) && cfg == old(cfg)
      ensures cfg.Some? ==> readSuspended == (limit.readLimit <= 0) && limit.readLimit == old(limit.readLimit) - bytes
      ensures limit.Write() == old(limit.Write()) && writeSuspended == old(writeSuspended) && timerSet == (readSuspended || writeSuspended)
    {
      if cfg.None? {
        return;
      }
      limit.readLimit := limit.readLimit - bytes;
      if limit.readLimit <= 0 {
        readSuspended := true;
        timerSet := true;
      } else if readSuspended {
        if !writeSuspended {
          timerSet := false;
        }
        readSuspended := false;
      }
    }

    /** bufferevent_decrement_read_limit: acts only when the limit crosses zero. */
    method DecrementReadLimit(decr: int)
      requires Valid() && cfg.Some? && InType(limit.readLimit - decr)
      modifies this, limit
      ensures Valid() && State() == Next(old(State()), TakeRead(decr)) && limit.readLimit == old(limit.readLimit) - decr
      ensures readSuspended == if old(limit.readLimit) > 0 && limit.readLimit <= 0 then true
                              else if old(limit.readLimit) <= 0 && limit.readLimit > 0 then false else old(readSuspended)
      ensures writeSuspended == old(writeSuspended) && limit.Write() == old(limit.Write()) && timerSet == (readSuspended || writeSuspended)
      ensures old(Exhausts(State())) ==> readSuspended == (limit.readLimit <= 0 || (old(limit.readLimit) > 0 && old(readSuspended)))
    {
      var oldLimit := limit.readLimit;
      limit.readLimit := limit.readLimit - decr;
      if oldLimit > 0 && limit.readLimit <= 0 {
        readSuspended := true;
        timerSet := true;
      } else if oldLimit <= 0 && limit.readLimit > 0 {
        if !writeSuspended {
          timerSet := false;
        }
        readSuspended := false;
      }
    }

    /** _bufferevent_decrement_write_buckets, without the group. */
    method DecrementWriteBuckets(bytes: int)
      requires Valid() && (cfg.Some? ==> InType(limit.writeLimit - bytes))
      modifies this, limit
      ensures Valid() && State() == Next(old(State()), WroteBytes(bytes)) && cfg == old(cfg)
      ensures cfg.Some? ==> writeSuspended == (limit.writeLimit <= 0) && limit.writeLimit == old(limit.writeLimit) - bytes
      ensures limit.Read() == old(limit.Read()) && readSuspended == old(readSuspended) && timerSet == (readSuspended || writeSuspended)
    {
      if cfg.None? {
        return;
      }
      limit.writeLimit := limit.writeLimit - bytes;
      if limit.writeLimit <= 0 {
        writeSuspended := true;
        timerSet := true;
      } else if writeSuspended {
        if !readSuspended {
          timerSet := false;
        }
        writeSuspended := false;
      }
    }

    /** bufferevent_decrement_write_limit: acts only when the limit crosses zero. */
    method DecrementWriteLimit(decr: int)
      requires Valid() && cfg.Some? && InType(limit.writeLimit - decr)
      modifies this, limit
      ensures Valid() && State() == Next(old(State()), TakeWrite(decr)) && limit.writeLimit == old(limit.writeLimit) - decr
      ensures writeSuspended == if old(limit.writeLimit) > 0 && limit.writeLimit <= 0 then true
                              else if old(limit.writeLimit) <= 0 && limit.writeLimit > 0 then false else old(writeSuspended)
      ensures readSuspended == old(readSuspended) && limit.Read() == old(limit.Read()) && timerSet == (readSuspended || writeSuspended)
      ensures old(Exhausts(State())) ==> writeSuspended == (limit.writeLimit <= 0 || (old(limit.writeLimit) > 0 && old(writeSuspended)))
    {
      var oldLimit := limit.writeLimit;
      limit.writeLimit := limit.writeLimit - decr;
      if oldLimit > 0 && limit.writeLimit <= 0 {
        writeSuspended := true;
        timerSet := true;
      } else if oldLimit <= 0 && limit.writeLimit > 0 {
        if !readSuspended {
          timerSet := false;
        }
        writeSuspended := false;
      }
    }

    /** _bufferevent_get_rlim_max: bufferevent_update_buckets, and what may be read or
        written now. `share` is what the group allows, if there is one. Once the limit is
        used up the direction is suspended. */
    method GetMax(isWrite: bool, now: u32, share: Option<int>) returns (r: int)
      requires Valid()
      modifies limit
      ensures Valid() && State() == Next(old(State()), Ask(isWrite, now))
      ensures var own := if cfg.None? then 16384 else if isWrite then limit.writeLimit else limit.readLimit;
        && 0 <= r <= NonNegative(own) && (share.Some? ==> r <= NonNegative(share.value))
        && (r == NonNegative(own) || (share.Some? && r == NonNegative(share.value)))
      ensures cfg.Some? && Exhausts(State()) && r == 0 && (share.Some? ==> share.value > 0) ==> if isWrite then writeSuspended else readSuspended
    {
      ghost var s := State();
      NextOk(s, Ask(isWrite, now));
      r := MAX_TO_READ_EVER;
      if cfg.Some? {
        if now != limit.lastUpdated {
          var _ := limit.Update(cfg.value, now);
        }
        r := if isWrite then limit.writeLimit else limit.readLimit;
      }
      if share.Some? && r > share.value {
        r := share.value;
      }
      if r < 0 {
        r := 0;
      }
    }

    /** The refill timer fires: _bev_refill_callback. */
    method Fire(now: u32)
      requires Valid() && timerSet
      modifies this, limit
      ensures Valid() && State() == Next(old(State()), Timer(now)) && cfg == old(cfg) && cfg.Some?
      ensures readSuspended == (old(readSuspended) && limit.readLimit <= 0)
      ensures writeSuspended == (old(writeSuspended) && limit.writeLimit <= 0)
      ensures old(Within(State())) ==>
        && limit.Within(cfg.value)
        && limit.Read() == Updated(old(limit.Read()), cfg.value.readRate, cfg.value.readMaximum, now)
        && limit.Write() == Updated(old(limit.Write()), cfg.value.writeRate, cfg.value.writeMaximum, now)
    {
      hide Refreshed, Updated;
      NextOk(State(), Timer(now));
      timerSet := false;
      var _ := limit.Update(cfg.value, now);
      var again := false;
      if readSuspended {
        if limit.readLimit > 0 {
          readSuspended := false;
        } else {
          again := true;
        }
      }
      if writeSuspended {
        if limit.writeLimit > 0 {
          writeSuspended := false;
        } else {
          again := true;
        }
      }
      if again {
        timerSet := true;
      }
    }

    /** When nothing more is spent and the timer fires at `times`, a direction stays
        suspended exactly as long as its limit stays below one, and the timer is pending
        exactly as long as one does. */
    method WakeUp(times: seq<u32>) returns (firings: nat)
      requires Valid() && cfg.Some?
      modifies this, limit
      ensures Valid() && cfg == old(cfg) && firings <= |times|
      ensures timerSet == ((old(readSuspended) && StaysBelow(old(limit.Read()), cfg.value.readRate, cfg.value.readMaximum, 1, times))
                           || (old(writeSuspended) && StaysBelow(old(limit.Write()), cfg.value.writeRate, cfg.value.writeMaximum, 1, times)))
      ensures timerSet ==> firings == |times|
      ensures limit.Read() == Through(old(limit.Read()), cfg.value.readRate, cfg.value.readMaximum, times[..firings])
      ensures limit.Write() == Through(old(limit.Write()), cfg.value.writeRate, cfg.value.writeMaximum, times[..firings])
      ensures readSuspended == (old(readSuspended) && StaysBelow(old(limit.Read()), cfg.value.readRate, cfg.value.readMaximum, 1, times[..firings]))
      ensures writeSuspended == (old(writeSuspended) && StaysBelow(old(limit.Write()), cfg.value.writeRate, cfg.value.writeMaximum, 1, times[..firings]))
      ensures firings > 0 ==>
        || (old(readSuspended) && StaysBelow(old(limit.Read()), cfg.value.readRate, cfg.value.readMaximum, 1, times[..firings - 1]))
        || (old(writeSuspended) && StaysBelow(old(limit.Write()), cfg.value.writeRate, cfg.value.writeMaximum, 1, times[..firings - 1]))
    {
      hide Updated, Refreshed, SnapOk, StaysBelow, Through;
      firings := 0;
      ghost var r, w, c := limit.Read(), limit.Write(), cfg.value;
      ThroughNone(r, c.readRate, c.readMaximum, times);
      ThroughNone(w, c.writeRate, c.writeMaximum, times);
      SnapTimer(State());
      while timerSet && firings < |times|
        invariant Valid() && cfg == old(cfg) && firings <= |times|
        invariant timerSet == (readSuspended || writeSuspended)
        invariant limit.Read() == Through(r, c.readRate, c.readMaximum, times[..firings])
        invariant limit.Write() == Through(w, c.writeRate, c.writeMaximum, times[..firings])
        invariant readSuspended == (old(readSuspended) && StaysBelow(r, c.readRate, c.readMaximum, 1, times[..firings]))
        invariant writeSuspended == (old(writeSuspended) && StaysBelow(w, c.writeRate, c.writeMaximum, 1, times[..firings]))
        invariant firings > 0 ==>
            (old(readSuspended) && StaysBelow(r, c.readRate, c.readMaximum, 1, times[..firings - 1]))
            || (old(writeSuspended) && StaysBelow(w, c.writeRate, c.writeMaximum, 1, times[..firings - 1]))
      {
        ThroughNext(r, c.readRate, c.readMaximum, 1, times, firings);
        ThroughNext(w, c.writeRate, c.writeMaximum, 1, times, firings);
        Fire(times[firings]);
        SnapTimer(State());
        firings := firings + 1;
      }
      if StaysBelow(r, c.readRate, c.readMaximum, 1, times) {
        BelowBefore(r, c.readRate, c.readMaximum, 1, times, firings);
      }
      if StaysBelow(w, c.writeRate, c.writeMaximum, 1, times) {
        BelowBefore(w, c.writeRate, c.writeMaximum, 1, times, firings);
      }
      assert firings == |times| ==> times[..firings] == times;
    }
  }

  method RunOne(b: Bufferevent, op: Op)
    requires b.Valid()
    modifies b, b.limit
    ensures b.Valid() && b.State() == Next(old(b.State()), op)
  {
    match op {
      case Configure(cfg, now) => b.SetRateLimit(cfg, now);
      case ReadBytes(n) =>
        if InType(b.limit.readLimit - n) {
          b.DecrementReadBuckets(n);
        }
      case WroteBytes(n) =>
        if InType(b.limit.writeLimit - n) {
          b.DecrementWriteBuckets(n);
        }
      case TakeRead(n) =>
        if b.cfg.Some? && InType(b.limit.readLimit - n) {
          b.DecrementReadLimit(n);
        }
      case TakeWrite(n) =>
        if b.cfg.Some? && InType(b.limit.writeLimit - n) {
          b.DecrementWriteLimit(n);
        }
      case Ask(isWrite, now) => var _ := b.GetMax(isWrite, now, None);
      case Timer(now) =>
        if b.timerSet {
          b.Fire(now);
        }
    }
  }

  /** A bufferevent over any run. An operation that would make a limit leave its type is
      not made. */
  method Run(ops: seq<Op>) returns (b: Bufferevent)
    ensures fresh(b) && b.Valid() && b.State() == Reached(ops)
  {
    hide Next;
    b := new Bufferevent();
    assert ops[..0] == [];
    for i := 0 to |ops|
      invariant fresh(b) && fresh(b.limit) && b.Valid() && b.State() == Reached(ops[..i])
    {
      assert ops[..i + 1][..i] == ops[..i];
      RunOne(b, ops[i]);
    }
    assert ops[..|ops|] == ops;
  }
}
