/** The resolver: its requests in flight and waiting, and the name servers they go
    to. */
module DnsRequests {
  import opened Bytes
  import opened Buckets
  import opened DnsRequestLists

  /** What a resolver holds: its lists, servers and cap, and which requests there are. */
  datatype Snap = Snap(heads: seq<seq<Request>>, waiting: seq<Request>, servers: seq<nat>, cap: nat, ids: set<nat>)

  /** Requests in flight are where their ids say and have servers, those that wait have
      none, and all together they are the requests that there are, each once. */
  ghost predicate SnapOk(s: Snap) {
    && BucketsOk(s.heads, s.servers) && Unique(All(s.heads))
    && Tagged(All(s.heads) + multiset(s.waiting), s.ids)
    && NoServers(s.waiting)
  }

  /** All that are in flight are put back, and no bucket holds any. */
  lemma SuspendOk(s: Snap, none: seq<seq<Request>>)
    requires SnapOk(s) && |none| == |s.heads| && forall b | 0 <= b < |none| :: none[b] == []
    ensures SnapOk(Snap(none, Suspended(Flat(s.heads)) + s.waiting, [], s.cap, s.ids))
    ensures All(none) == multiset{} && |Flat(s.heads)| == |All(s.heads)|
  {
    hide All, Unique, Tagged, BucketsOk, Flat, Suspended, NoServers;
    SuspendedTagged(s.heads, s.waiting, s.ids);
    FlatAll(s.heads);
    assert |multiset(Flat(s.heads))| == |Flat(s.heads)|;
    SuspendedNs(Flat(s.heads), s.waiting);
    HeadsExist(s.heads, s.servers);
    NoneInflight(none, [], Suspended(Flat(s.heads)) + s.waiting);
  }

  /** The first of those that waited are gone. */
  predicate IsSuffix(rest: seq<Request>, was: seq<Request>) {
    |rest| <= |was| && rest == was[|was| - |rest|..]
  }

  /** Nothing waits that could go out. */
  ghost predicate Quiet(s: Snap) {
    s.servers == [] || |All(s.heads)| >= s.cap || s.waiting == []
  }

  /** A packet was sent, could not be sent for now, or cannot be sent to the server. */
  datatype Send = SENT | LATER | BROKEN

  /** Every request of one of the old buckets goes to the end of its new one. */
  method MoveAll(heads: seq<seq<Request>>, bucket: seq<Request>, ghost i: nat, ghost n: nat, ghost servers: seq<nat>)
    returns (newHeads: seq<seq<Request>>)
    requires n > 0 && BucketsOk(heads, servers) && BucketOk(bucket, i, n, servers)
    ensures |newHeads| == |heads| && BucketsOk(newHeads, servers)
    ensures All(newHeads) == All(heads) + multiset(bucket)
  {
    hide All, BucketsOk, BucketOk;
    newHeads := heads;
    HeadsExist(heads, servers);
    var c := bucket;
    while c != []
      invariant |newHeads| == |heads| && BucketsOk(newHeads, servers) && BucketOk(c, i, n, servers)
      invariant All(newHeads) + multiset(c) == All(heads) + multiset(bucket)
      decreases |c|
    {
      var b := c[0].transId % |newHeads|;
      MoveToEnd(newHeads, c, b);
      MoveOk(newHeads, c, i, n, servers);
      newHeads := newHeads[b := newHeads[b] + [c[0]]];
      c := c[1..];
    }
  }

  method Index(q: seq<Request>, r: Request) returns (i: nat)
    requires r in q
    ensures i < |q| && q[i] == r
  {
    i := 0;
    while q[i] != r
      invariant i < |q| && r in q[i..]
      decreases |q| - i
    {
      i := i + 1;
    }
  }

  class DnsBase {
    var heads: seq<seq<Request>>
    var waiting: seq<Request>
    var inflight: nat
    var waitingCount: nat
    var maxInflight: nat
    var servers: seq<nat>
    var down: set<nat>
    var good: nat
    /** What becomes of each try to send, and how many there were. */
    const net: nat -> Send
    var tries: nat
    ghost var ids: set<nat>

    predicate ServersOk()
      reads this
    {
      Distinct(servers) && good == |Up(servers, down)|
    }

    /** The lists as they are. */
    ghost function State(): Snap
      reads this
    {
      Snap(heads, waiting, servers, maxInflight, ids)
    }

    /** The counters equal the sizes of the lists. */
    ghost predicate Valid()
      reads this
    {
      && ServersOk() && SnapOk(State())
      && inflight == |All(heads)| && waitingCount == |waiting|
      && 1 <= maxInflight <= MAX_CAP && inflight <= MAX_CAP && |heads| == (maxInflight + 4) / 5
    }

    /** nameserver_pick: a server that is up, if one is; the list is turned so that
        the next one is another. */
    method NameserverPick() returns (r: Option<nat>)
      requires ServersOk()
      modifies this`servers
      ensures ServersOk() && forall s :: s in servers <==> s in old(servers)
      ensures r.None? <==> servers == []
      ensures r.Some? ==> r.value in servers
      ensures r.Some? && good > 0 ==> |servers| == |old(servers)| && r.value == servers[|servers| - 1] && r.value !in down
      ensures r.Some? && good > 0 ==>
        exists k {:trigger old(servers)[k]} :: (0 <= k < |old(servers)| && r.value == old(servers)[k]
          && servers == old(servers)[k + 1..] + old(servers)[..k + 1] && forall j | 0 <= j < k :: old(servers)[j] in down)
      ensures r.Some? && good == 0 ==> servers == old(servers)[1..] + [old(servers)[0]] && r.value == servers[0]
    {
      if servers == [] {
        return None;
      }
      ghost var was := servers;
      if good == 0 {
        RotatedSame(servers, 1);
        servers := servers[1..] + servers[..1];
        SameUp(was, servers, down);
        return Some(servers[0]);
      }
      var k := 0;
      while servers[k] in down
        invariant 0 <= k < |servers| && servers == was && forall j | 0 <= j < k :: servers[j] in down
        decreases |servers| - k
      {
        if k + 1 == |servers| {
          NoneUp(servers, down);
        }
        k := k + 1;
      }
      r := Some(servers[k]);
      RotatedSame(servers, k + 1);
      servers := servers[k + 1..] + servers[..k + 1];
      SameUp(was, servers, down);
    }

    /** The same, where all else is right and stays so. */
    method PickServer() returns (r: Option<nat>)
      requires Valid()
      modifies this`servers
      ensures Valid() && forall s :: s in servers <==> s in old(servers)
      ensures r.None? <==> servers == []
      ensures r.Some? ==> r.value in servers && (good > 0 ==> r.value !in down)
    {
      hide All, Unique, Tagged, BucketsOk, NoServers, Distinct, Up, Rotated;
      ghost var was := servers;
      r := NameserverPick();
      SameServers(heads, was, servers);
    }

    /** request_find_from_trans_id: only one bucket has to be searched. */
    method Find(transId: nat) returns (r: Option<nat>)
      requires BucketsOk(heads, servers)
      ensures r.Some? ==> r.value < |heads[transId % |heads|]| && heads[transId % |heads|][r.value].transId == transId
      ensures r.None? ==> forall s | s in All(heads) :: s.transId != transId
    {
      var b := transId % |heads|;
      var c := heads[b];
      for i := 0 to |c|
        invariant forall j | 0 <= j < i :: c[j].transId != transId
      {
        if c[i].transId == transId {
          return Some(i);
        }
      }
      NotInOthers(heads, servers, transId);
      return None;
    }

    /** transaction_id_pick, with the random source replaced by a search: an id that no
        request in flight has. */
    method TransactionIdPick() returns (id: nat)
      requires BucketsOk(heads, servers) && |All(heads)| <= MAX_CAP
      ensures id < 0xffff && forall s | s in All(heads) :: s.transId != id
    {
      ghost var free := SomeFree(heads);
      id := 0;
      while true
        invariant id <= free && forall t: nat | t < id :: t in TransIds(Flat(heads))
        decreases free - id
      {
        var r := Find(id);
        if r.None? {
          return;
        }
        InTransIds(heads, id % |heads|, r.value);
        id := id + 1;
      }
    }

    /** A request goes to the end of the bucket of its transaction id. */
    method InsertInflight(r: Request) returns (b: nat)
      requires BucketsOk(heads, servers) && Unique(All(heads)) && r.transId < MAX_ID && r.ns.Some? && r.ns.value in servers
      requires forall s | s in All(heads) :: s.transId != r.transId
      modifies this`heads
      ensures BucketsOk(heads, servers) && Unique(All(heads)) && |heads| == |old(heads)|
      ensures All(heads) == All(old(heads)) + multiset{r}
      ensures b < |heads| && heads[b] == old(heads)[b] + [r]
    {
      hide All, Unique;
      b := r.transId % |heads|;
      AllGain(heads, b, heads[b] + [r], r);
      UniqueAdd(All(heads), r);
      heads := heads[b := heads[b] + [r]];
    }

    /** evdns_request_transmit. A server that cannot be sent to is taken for failed; the
        request counts as sent all the same, even if it is now at another server. */
    method Transmit(b: nat, i: nat)
      requires Valid() && b < |heads| && i < |heads[b]|
      modifies this`heads, this`servers, this`down, this`good, this`tries
      ensures Valid() && AllKin(heads, old(heads)) && tries == old(tries) + 1
      ensures old(down) <= down && forall s :: s in servers <==> s in old(servers)
      ensures b < |heads| && i < |heads[b]| && OthersStay(heads, old(heads), b, i)
      ensures var r := old(heads)[b][i];
        match net(old(tries))
        case LATER => heads == old(heads)[b := old(heads)[b][i := r.(transmitMe := true)]] && servers == old(servers) && down == old(down)
        case SENT =>
          heads == old(heads)[b := old(heads)[b][i := r.(transmitMe := false, txCount := r.txCount + 1)]]
          && servers == old(servers) && down == old(down)
        case BROKEN =>
          r.ns.Some? && r.ns.value in down
          && heads[b][i] == Request(r.id, r.transId, heads[b][i].ns, r.txCount + 1, false)
    {
      hide All, Unique, Tagged, BucketsOk, BucketOk, NoServers, OthersStay;
      ghost var was := heads;
      InBucket(heads, servers, b, i);
      var r := heads[b][i];
      KinChange(heads, b, i, r.(transmitMe := true));
      Change(b, i, r.(transmitMe := true));
      var outcome := net(tries);
      tries := tries + 1;
      ghost var first := heads;
      SameAsSame(heads);
      OthersSame(first, was, heads, b, i, heads[b][i], heads[b][i]);
      if outcome == LATER {
        assert heads[b][i := heads[b][i]] == heads[b];
        assert heads[b := heads[b]] == heads;
        return;
      }
      if outcome == BROKEN {
        ghost var mid := heads;
        NameserverFailed(r.ns.value);
        assert SameRequests(heads[b], mid[b]);
        assert heads[b][i] == mid[b][i].(ns := heads[b][i].ns);
        SameIsKin(heads, mid);
        KinTrans(heads, mid, was);
      }
      InBucket(heads, servers, b, i);
      var done := heads[b][i].(txCount := r.txCount + 1, transmitMe := false);
      KinChange(heads, b, i, done);
      KinTrans(heads[b := heads[b][i := done]], heads, was);
      ChangedTwice(was, b, i, r.(transmitMe := true), done);
      OthersSame(first, was, heads, b, i, first[b][i], done);
      Change(b, i, done);
    }

    /** evdns_transmit: tries all requests again that could not be sent. */
    method TransmitAll()
      requires Valid()
      modifies this`heads, this`servers, this`down, this`good, this`tries
      ensures Valid() && AllKin(heads, old(heads)) && tries >= old(tries)
      ensures old(down) <= down && forall s :: s in servers <==> s in old(servers)
    {
      hide All, Unique, Tagged, BucketsOk, BucketOk, NoServers, AllKin, Kin;
      KinSelf(heads);
      var b := 0;
      while b < |heads|
        invariant Valid() && AllKin(heads, old(heads)) && tries >= old(tries) && b <= |heads| == |old(heads)|
        invariant old(down) <= down && forall s :: s in servers <==> s in old(servers)
      {
        var i := 0;
        KinLen(heads, old(heads), b);
        while i < |heads[b]|
          invariant Valid() && AllKin(heads, old(heads)) && tries >= old(tries) && b < |heads| == |old(heads)|
          invariant i <= |heads[b]| == |old(heads)[b]|
          invariant old(down) <= down && forall s :: s in servers <==> s in old(servers)
        {
          if heads[b][i].transmitMe {
            ghost var mid := heads;
            Transmit(b, i);
            KinTrans(heads, mid, old(heads));
            KinLen(heads, mid, b);
          }
          i := i + 1;
        }
        b := b + 1;
      }
    }

    /** The first request that waits goes out to a server. */
    method Promote(ns: nat)
      requires Valid() && inflight < maxInflight && waitingCount > 0 && ns in servers
      modifies this`heads, this`waiting, this`inflight, this`waitingCount, this`servers, this`down, this`good, this`tries
      ensures Valid() && waiting == old(waiting)[1..] && inflight == old(inflight) + 1
      ensures tries > old(tries) && old(down) <= down && forall s :: s in servers <==> s in old(servers)
    {
      hide All, Unique, Tagged, BucketsOk;
      var req := waiting[0];
      ghost var was := waiting;
      waiting := waiting[1..];
      waitingCount := waitingCount - 1;
      inflight := inflight + 1;
      var id := TransactionIdPick();
      var sent := req.(transId := id, ns := Some(ns));
      MoveTagged(All(heads), req, was, sent, ids);
      var b := InsertInflight(sent);
      Transmit(b, |heads[b]| - 1);
      TransmitAll();
    }

    /** evdns_requests_pump_waiting_queue: the first requests that wait go out, in order,
        until the cap is reached, none wait, or there is no server. */
    method Pump()
      requires Valid()
      modifies this`heads, this`waiting, this`inflight, this`waitingCount, this`servers, this`down, this`good, this`tries
      ensures Valid()
      ensures inflight <= if old(inflight) > maxInflight then old(inflight) else maxInflight
      ensures servers == [] || inflight >= maxInflight || waiting == []
      ensures exists k {:trigger old(waiting)[k..]} :: (0 <= k <= |old(waiting)| && waiting == old(waiting)[k..]
        && inflight == old(inflight) + k)
      ensures IsSuffix(waiting, old(waiting)) && inflight + |waiting| == old(inflight + |waiting|)
      ensures old(servers) == [] ==> waiting == old(waiting)
      ensures forall s :: s in servers <==> s in old(servers)
    {
      hide All, Unique, Tagged, BucketsOk;
      ghost var k, was := 0, waiting;
      assert was[0..] == was;
      while inflight < maxInflight && waitingCount > 0
        invariant Valid() && 0 <= k <= |was| && waiting == was[k..] && inflight == old(inflight) + k
        invariant inflight <= if old(inflight) > maxInflight then old(inflight) else maxInflight
        invariant old(servers) == [] ==> k == 0
        invariant forall s :: s in servers <==> s in old(servers)
        decreases waitingCount
      {
        var req := waiting[0];
        var ns := PickServer();
        if ns.None? {
          return;
        }
        Promote(ns.value);
        k := k + 1;
        assert was[k - 1..][1..] == was[k..];
      }
    }

    /** Nothing waits that could go out. */
    predicate Idle()
      reads this
    {
      servers == [] || inflight >= maxInflight || waiting == []
    }

    /** The part of request_new that picks an id and a server, if the cap allows it. */
    method Issue() returns (transId: nat, ns: Option<nat>)
      requires Valid()
      modifies this`servers
      ensures Valid() && forall s :: s in servers <==> s in old(servers)
      ensures ns.Some? <==> inflight < maxInflight && servers != []
      ensures inflight >= maxInflight ==> transId == 0xffff
      ensures ns.Some? ==> ns.value in servers && transId < MAX_ID && forall s | s in All(heads) :: s.transId != transId
    {
      hide All, Unique, Tagged, BucketsOk;
      transId, ns := MAX_ID, None;
      if inflight < maxInflight {
        transId := TransactionIdPick();
        ns := PickServer();
      }
    }

    /** request_new and request_submit: a request goes out at once if the cap allows it
        and there is a server, and waits otherwise. */
    method Submit(id: nat)
      requires Valid() && id !in ids
      modifies this
      ensures Valid() && ids == old(ids) + {id} && (old(Idle()) ==> Idle()) && maxInflight == old(maxInflight)
      ensures inflight == old(inflight) + (if old(inflight) < maxInflight && servers != [] then 1 else 0)
      ensures waitingCount + inflight == old(waitingCount + inflight) + 1 && old(waiting) <= waiting
      ensures if old(inflight) < maxInflight && old(servers) != [] then waiting == old(waiting)
              else waiting != [] && waiting == old(waiting) + [Request(id, waiting[|waiting| - 1].transId, None, 0, false)]
      ensures old(inflight) >= maxInflight ==> waiting[|waiting| - 1].transId == 0xffff
      ensures old(inflight) < maxInflight && servers != [] ==>
        var later := net(old(tries)) == LATER;
        exists b, i | 0 <= b < |heads| && 0 <= i < |heads[b]| ::
          heads[b][i] == Request(id, heads[b][i].transId, heads[b][i].ns, if later then 0 else 1, later)
      ensures forall s :: s in servers <==> s in old(servers)
    {
      hide All, Unique, Tagged, BucketsOk, NoServers, InflightOk;
      var transId, ns := Issue();
      assert (old(servers) != [] ==> old(servers)[0] in servers) && (servers != [] ==> servers[0] in old(servers));
      if ns.Some? {
        SubmitInflight(Request(id, transId, ns, 0, false));
      } else {
        SubmitWaiting(Request(id, transId, ns, 0, false));
      }
    }

    method SubmitInflight(r: Request)
      requires Valid() && r.id !in ids && inflight < MAX_CAP && r.transId < MAX_ID && r.ns.Some? && r.ns.value in servers
      requires forall s | s in All(heads) :: s.transId != r.transId
      modifies this`heads, this`inflight, this`ids, this`servers, this`down, this`good, this`tries
      ensures Valid() && ids == old(ids) + {r.id} && inflight == old(inflight) + 1
      ensures
        var later := net(old(tries)) == LATER;
        exists b, i | 0 <= b < |heads| && 0 <= i < |heads[b]| ::
          heads[b][i] == Request(r.id, r.transId, heads[b][i].ns, if later then r.txCount else r.txCount + 1, later)
      ensures forall s :: s in servers <==> s in old(servers)
    {
      hide All, Unique, Tagged, BucketsOk;
      ghost var before := All(heads);
      TaggedAdd(All(heads) + multiset(waiting), ids, r);
      ids := ids + {r.id};
      var b := InsertInflight(r);
      Swap(before, multiset(waiting), multiset{r});
      inflight := inflight + 1;
      ghost var i := |heads[b]| - 1;
      Transmit(b, |heads[b]| - 1);
      assert heads[b][i].id == r.id;
    }

    method SubmitWaiting(r: Request)
      requires Valid() && r.id !in ids && r.ns.None?
      modifies this`waiting, this`waitingCount, this`ids
      ensures Valid() && ids == old(ids) + {r.id} && waiting == old(waiting) + [r]
    {
      hide All, Unique, Tagged, BucketsOk;
      TaggedAdd(All(heads) + multiset(waiting), ids, r);
      ids := ids + {r.id};
      Append(All(heads), waiting, r);
      waiting := waiting + [r];
      waitingCount := waitingCount + 1;
    }

    /** request_finished for a request in flight: others that wait take its place. */
    method FinishInflight(b: nat, i: nat)
      requires Valid() && b < |heads| && i < |heads[b]|
      modifies this
      ensures Valid() && ids == old(ids) - {old(heads[b][i]).id} && Idle() && maxInflight == old(maxInflight)
      ensures inflight <= if old(inflight) > maxInflight then old(inflight) else maxInflight
      ensures IsSuffix(waiting, old(waiting)) && inflight + |waiting| == old(inflight + |waiting|) - 1
      ensures forall s :: s in servers <==> s in old(servers)
    {
      hide All, Unique, Tagged, BucketOk, IsSuffix;
      var r := heads[b][i];
      var c := heads[b][..i] + heads[b][i + 1..];
      TakenOut(heads[b], i);
      AllLose(heads, b, c, r);
      ghost var less := heads[b := c];
      Swap(All(less), multiset{r}, multiset(waiting));
      TaggedRemove(All(less) + multiset(waiting), ids, r);
      UniqueRemove(All(less), r);
      BucketLess(heads[b], b, |heads|, servers, i);
      heads := heads[b := c];
      ids := ids - {r.id};
      inflight := inflight - 1;
      Pump();
    }

    /** A request that waits is taken out. */
    method DropWaiting(i: nat)
      requires Valid() && i < |waiting|
      modifies this`waiting, this`waitingCount, this`ids
      ensures Valid() && ids == old(ids) - {old(waiting[i]).id} && waiting == old(waiting[..i] + waiting[i + 1..])
    {
      hide All, Unique, Tagged, BucketsOk;
      var r := waiting[i];
      TakenOut(waiting, i);
      ghost var less := waiting[..i] + waiting[i + 1..];
      UnionAssoc(All(heads), multiset(less), multiset{r});
      TaggedRemove(All(heads) + multiset(less), ids, r);
      waiting := waiting[..i] + waiting[i + 1..];
      waitingCount := waitingCount - 1;
      ids := ids - {r.id};
    }

    /** request_finished for a request that waits. */
    method FinishWaiting(i: nat)
      requires Valid() && i < |waiting|
      modifies this
      ensures Valid() && ids == old(ids) - {old(waiting[i]).id} && Idle() && maxInflight == old(maxInflight)
      ensures inflight <= if old(inflight) > maxInflight then old(inflight) else maxInflight
      ensures IsSuffix(waiting, old(waiting[..i] + waiting[i + 1..])) && inflight + |waiting| == old(inflight + |waiting|) - 1
      ensures forall s :: s in servers <==> s in old(servers)
    {
      hide SnapOk, IsSuffix, Distinct, Up;
      DropWaiting(i);
      Pump();
    }

    /** evdns_base_set_max_requests_inflight: every request in flight is moved to its
        bucket among the new ones, and none is lost. Nothing goes out even if the cap
        is raised. */
    method SetMaxInflight(max: int)
      requires Valid() && max <= MAX_CAP
      modifies this`heads, this`maxInflight
      ensures Valid() && maxInflight == (if max < 1 then 1 else max) && All(heads) == old(All(heads))
      ensures old(Idle()) ==> (!Idle() <==> servers != [] && waiting != [] && inflight < if max < 1 then 1 else max)
    {
      hide All, Unique, Tagged, BucketOk;
      var cap := if max < 1 then 1 else max;
      var n := (cap + 4) / 5;
      var newHeads: seq<seq<Request>> := seq(n, _ => []);
      var oldHeads := heads;
      AllNone(newHeads);
      EmptyBuckets(newHeads, servers);
      var i := 0;
      assert oldHeads[0..] == oldHeads;
      while i < |oldHeads|
        invariant i <= |oldHeads| && |newHeads| == n && BucketsOk(newHeads, servers)
        invariant unchanged(this)
        invariant All(newHeads) + All(oldHeads[i..]) == All(oldHeads)
      {
        FirstBucket(oldHeads, i);
        assert BucketOk(oldHeads[i], i, |oldHeads|, servers);
        UnionAssoc(All(newHeads), multiset(oldHeads[i]), All(oldHeads[i + 1..]));
        newHeads := MoveAll(newHeads, oldHeads[i], i, |oldHeads|, servers);
        i := i + 1;
      }
      NoBuckets(oldHeads, i);
      assert All(newHeads) == All(oldHeads);
      heads := newHeads;
      maxInflight := cap;
    }

    /** evdns_base_clear_nameservers_and_suspend: every request in flight goes back to
        the front of the waiting queue, before those that waited; none is lost. */
    method ClearNameserversAndSuspend()
      requires Valid()
      modifies this
      ensures Valid() && servers == [] && ids == old(ids)
      ensures old(servers) != [] ==> inflight == 0 && waiting == Suspended(Flat(old(heads))) + old(waiting)
      ensures old(servers) != [] ==> |waiting| == old(inflight) + |old(waiting)|
      ensures old(servers) != [] ==> forall i {:trigger waiting[i]} | 0 <= i < old(inflight) ::
        waiting[i] == Request(Flat(old(heads))[old(inflight) - 1 - i].id, 0, None, 0, false)
      ensures old(servers) == [] ==> waiting == old(waiting) && heads == old(heads) && inflight == old(inflight)
      ensures maxInflight == old(maxInflight)
    {
      hide All, SnapOk, Flat, Suspended;
      if servers == [] {
        return;
      }
      ghost var was := State();
      NoneUp([], {});
      servers, down, good := [], {}, 0;
      SuspendAll();
      inflight := 0;
      SuspendOk(was, heads);
    }

    /** The loop over the buckets. A request is put at the end of the waiting list and
        the head of that circular list is moved back by one. */
    method SuspendAll()
      modifies this`heads, this`waiting, this`waitingCount
      ensures waiting == Suspended(Flat(old(heads))) + old(waiting) && waitingCount == old(waitingCount) + |Flat(old(heads))|
      ensures forall i {:trigger waiting[i]} | 0 <= i < |Flat(old(heads))| ::
        waiting[i] == Request(Flat(old(heads))[|Flat(old(heads))| - 1 - i].id, 0, None, 0, false)
      ensures |heads| == |old(heads)| && forall b | 0 <= b < |heads| :: heads[b] == []
    {
      hide Flat, Suspended;
      ghost var hs, ws := heads, waiting;
      var b := 0;
      assert hs[..0] == [];
      FlatNone<Request>([]);
      SuspendedNone(ws);
      while b < |heads|
        invariant b <= |heads| == |hs| && (forall a | b <= a < |hs| :: heads[a] == hs[a])
        invariant forall a | 0 <= a < b :: heads[a] == []
        invariant waiting == Suspended(Flat(hs[..b])) + ws && waitingCount == old(waitingCount) + |Flat(hs[..b])|
      {
        FlatSnoc(hs, b);
        SuspendedConcat(Flat(hs[..b]), heads[b]);
        Assoc(Suspended(heads[b]), Suspended(Flat(hs[..b])), ws);
        SuspendBucket(b);
        heads := heads[b := []];
        b := b + 1;
      }
      assert hs[..b] == hs;
      SuspendedAll(Flat(hs));
    }

    method SuspendBucket(b: nat)
      requires b < |heads|
      modifies this`waiting, this`waitingCount
      ensures waiting == Suspended(heads[b]) + old(waiting) && waitingCount == old(waitingCount) + |heads[b]|
    {
      hide Suspended;
      var c := heads[b];
      SuspendedNone(waiting);
      assert c[..0] == [];
      for i := 0 to |c|
        invariant waiting == Suspended(c[..i]) + old(waiting) && waitingCount == old(waitingCount) + i
      {
        SuspendedSnoc(c[..i], c[i]);
        assert c[..i + 1] == c[..i] + [c[i]];
        waitingCount := waitingCount + 1;
        waiting := [Idled(c[i])] + waiting;
      }
      assert c[..|c|] == c;
    }

    /** A request in flight changes, but not which one it is. */
    method Change(b: nat, i: nat, r: Request)
      requires Valid() && b < |heads| && i < |heads[b]|
      requires r.id == heads[b][i].id && r.transId == heads[b][i].transId && r.ns.Some? && r.ns.value in servers
      modifies this`heads
      ensures Valid() && heads == old(heads)[b := old(heads)[b][i := r]]
    {
      hide All, Unique, Tagged;
      var was := heads[b][i];
      ghost var rest := heads[b := heads[b][..i] + heads[b][i + 1..]];
      ReplaceOne(heads, b, i, r);
      Swap(All(rest), multiset{was}, multiset(waiting));
      Swap(All(rest), multiset{r}, multiset(waiting));
      TaggedReplace(All(rest) + multiset(waiting), ids, was, r);
      UniqueRemove(All(rest), was);
      UniqueAdd(All(rest), r);
      assert |All(rest) + multiset{r}| == |All(rest) + multiset{was}|;
      ChangedOk(heads, servers, b, i, r);
      heads := heads[b := heads[b][i := r]];
    }

    /** nameserver_failed: requests that were not sent yet go to servers that are up. */
    method NameserverFailed(s: nat)
      requires Valid() && s in servers
      modifies this`heads, this`servers, this`down, this`good
      ensures Valid() && down == old(down) + {s} && (forall x :: x in servers <==> x in old(servers))
      ensures |heads| == |old(heads)| && forall b | 0 <= b < |heads| :: SameRequests(heads[b], old(heads)[b])
      ensures good > 0 && s !in old(down) ==>
        forall b, i {:trigger heads[b][i]} | 0 <= b < |heads| && 0 <= i < |heads[b]| :: heads[b][i].txCount == 0 ==> heads[b][i].ns != Some(s)
    {
      hide All, Unique, Tagged, BucketsOk;
      SameAsSame(heads);
      if s in down {
        return;
      }
      OneLessUp(servers, down, s);
      good := good - 1;
      down := down + {s};
      if good == 0 {
        return;
      }
      var b := 0;
      while b < |heads|
        invariant Valid() && good > 0 && down == old(down) + {s} && b <= |heads| == |old(heads)|
        invariant forall x :: x in servers <==> x in old(servers)
        invariant forall a {:trigger heads[a]} | 0 <= a < |heads| :: SameRequests(heads[a], old(heads)[a])
        invariant forall a {:trigger heads[a]} | 0 <= a < b :: Moved(heads[a], s)
      {
        ghost var hs := heads;
        MoveBucket(b, s);
        SameLists(hs, heads, old(heads), b);
        b := b + 1;
      }
    }

    method MoveBucket(b: nat, s: nat)
      requires Valid() && good > 0 && s in down && s in servers && b < |heads|
      modifies this`heads, this`servers
      ensures Valid() && (forall x :: x in servers <==> x in old(servers))
      ensures |heads| == |old(heads)| && SameRequests(heads[b], old(heads)[b]) && Moved(heads[b], s)
      ensures forall a | 0 <= a < |heads| && a != b :: heads[a] == old(heads)[a]
    {
      hide All, SnapOk, BucketOk, Distinct, Up, InflightOk;
      var i := 0;
      while i < |heads[b]|
        invariant Valid() && |heads| == |old(heads)| && i <= |heads[b]| == |old(heads)[b]|
        invariant forall x :: x in servers <==> x in old(servers)
        invariant forall a | 0 <= a < |heads| && a != b :: heads[a] == old(heads)[a]
        invariant SameRequests(heads[b], old(heads)[b]) && Moved(heads[b][..i], s)
      {
        if heads[b][i].txCount == 0 && heads[b][i].ns == Some(s) {
          var ns := PickServer();
          Change(b, i, heads[b][i].(ns := ns));
        }
        assert heads[b][..i + 1] == heads[b][..i] + [heads[b][i]];
        i := i + 1;
      }
      assert heads[b][..i] == heads[b];
    }

    /** nameserver_up */
    method NameserverUp(s: nat)
      requires Valid() && s in servers
      modifies this`down, this`good
      ensures Valid() && down == old(down) - {s} && Idle() == old(Idle())
    {
      if s !in down {
        return;
      }
      OneLessUp(servers, down - {s}, s);
      assert down - {s} + {s} == down;
      down := down - {s};
      good := good + 1;
    }

    /** _evdns_nameserver_add_impl, for an address whose socket can be opened: a new
        server goes behind the first. Nothing that waits goes out yet. */
    method AddNameserver(s: nat) returns (r: nat)
      requires Valid()
      modifies this`servers, this`down, this`good
      ensures Valid() && r == (if s in old(servers) then 3 else 0)
      ensures r == 3 ==> servers == old(servers) && down == old(down)
      ensures old(Idle()) ==> (!Idle() <==> old(servers) == [] && waiting != [] && inflight < maxInflight)
      ensures r == 0 ==> servers == (if old(servers) == [] then [s] else [old(servers)[0], s] + old(servers)[1..]) && down == old(down) - {s}
    {
      hide All, Unique, Tagged, BucketsOk, NoServers, Up;
      if s in servers {
        return 3;
      }
      ghost var was := servers;
      OneMoreUp(servers, down, s);
      servers := if servers == [] then [s] else [servers[0], s] + servers[1..];
      down := down - {s};
      good := good + 1;
      assert was != [] ==> was == [was[0]] + was[1..];
      SameUp(servers, was + [s], down);
      MoreServers(heads, was, servers);
      return 0;
    }

    /** The request goes to a server, one that is up if one is. */
    method Retransmit(b: nat, i: nat)
      requires Valid() && b < |heads| && i < |heads[b]|
      modifies this`heads, this`servers, this`down, this`good, this`tries
      ensures Valid() && b < |heads| && i < |heads[b]| && tries == old(tries) + 1
      ensures var r := old(heads)[b][i];
        var later := net(old(tries)) == LATER;
        heads[b][i] == Request(r.id, r.transId, heads[b][i].ns, if later then r.txCount else r.txCount + 1, later)
      ensures net(old(tries)) != BROKEN && good > 0 && heads[b][i].ns.Some? ==> heads[b][i].ns.value !in down
      ensures forall s :: s in servers <==> s in old(servers)
    {
      hide All, SnapOk, Distinct, Up, AllKin, OthersStay;
      var _ := PickOne(b, i);
      Transmit(b, i);
    }

    /** A server for a request in flight. */
    method PickOne(b: nat, i: nat) returns (ns: nat)
      requires Valid() && b < |heads| && i < |heads[b]|
      modifies this`heads, this`servers
      ensures Valid() && (good > 0 ==> ns !in down) && forall s :: s in servers <==> s in old(servers)
      ensures heads == old(heads)[b := old(heads)[b][i := old(heads)[b][i].(ns := Some(ns))]]
    {
      hide All, Unique, Tagged, BucketsOk, BucketOk, NoServers, Distinct, Up;
      InBucket(heads, servers, b, i);
      var r := PickServer();
      ns := r.value;
      Change(b, i, heads[b][i].(ns := r));
    }

    /** evdns_request_timeout_callback; `fails` tells whether the server has timed out
        too often. */
    method Timeout(b: nat, i: nat, maxRetransmits: nat, fails: bool)
      requires Valid() && b < |heads| && i < |heads[b]|
      modifies this
      ensures Valid() && maxInflight == old(maxInflight) && forall s :: s in servers <==> s in old(servers)
      ensures inflight <= if old(inflight) > maxInflight then old(inflight) else maxInflight
      ensures old(heads[b][i].txCount) >= maxRetransmits ==> (
        && ids == old(ids) - {old(heads[b][i]).id} && Idle()
        && IsSuffix(waiting, old(waiting)) && inflight + |waiting| == old(inflight + |waiting|) - 1)
      ensures old(heads[b][i].txCount) < maxRetransmits ==> inflight == old(inflight)
      ensures old(heads[b][i].txCount) < maxRetransmits ==>
        && ids == old(ids) && waiting == old(waiting) && b < |heads| && i < |heads[b]| && tries == old(tries) + 1
        && (var r := old(heads[b][i]);
            var later := net(old(tries)) == LATER;
            heads[b][i] == Request(r.id, r.transId, heads[b][i].ns, if later then r.txCount else r.txCount + 1, later))
        && (net(old(tries)) != BROKEN && good > 0 && heads[b][i].ns.Some? ==> heads[b][i].ns.value !in down)
    {
      hide All, Unique, Tagged, BucketsOk, BucketOk, Moved, NoServers, Rotated, AllKin, IsSuffix;
      InBucket(heads, servers, b, i);
      if fails {
        NameserverFailed(heads[b][i].ns.value);
        assert SameRequests(heads[b], old(heads)[b]);
        assert heads[b][i] == old(heads)[b][i].(ns := heads[b][i].ns);
      }
      hide SameRequests;
      if heads[b][i].txCount >= maxRetransmits {
        FinishInflight(b, i);
        return;
      }
      Retransmit(b, i);
    }

    /** evdns_cancel_request finds a request by whether it has a server. */
    method Cancel(r: Request)
      requires Valid() && (r in All(heads) || r in waiting)
      modifies this
      ensures Valid() && ids == old(ids) - {r.id} && Idle()
    {
      hide All, Unique, Tagged, BucketsOk, BucketOk;
      WhereIs(heads, servers, waiting, r);
      if r.ns.Some? {
        var b := r.transId % |heads|;
        var i := Index(heads[b], r);
        FinishInflight(b, i);
      } else {
        var i := Index(waiting, r);
        FinishWaiting(i);
      }
    }

    constructor (net: nat -> Send)
      ensures Valid() && ids == {} && servers == [] && maxInflight == 64 && waiting == [] && inflight == 0 && heads == seq(13, _ => [])
    {
      this.net := net;
      tries := 0;
      heads, waiting, servers := seq(13, _ => []), [], [];
      inflight, waitingCount, maxInflight, good, down := 0, 0, 64, 0, {};
      ids := {};
      new;
      NoneInflight(heads, servers, waiting);
      NoneUp([], {});
    }
  }

  /** What can happen to a resolver. */
  datatype Op =
    | SubmitOp
    | ReplyOp(transId: nat)
    | CancelOp(i: nat)
    | TimeoutOp(transId: nat, maxRetransmits: nat, fails: bool)
    | ResumeOp
    | TransmitOp
    | SetMaxOp(max: int)
    | ClearOp
    | AddServerOp(server: nat)
    | FailOp(server: nat)
    | UpOp(server: nat)

  /** The requests that a step finishes: the one in flight that the reply is for, the
      one that is cancelled, or the one that has timed out too often. */
  ghost function Finished(op: Op, s: Snap): set<nat> {
    match op
    case ReplyOp(t) => set r | r in All(s.heads) && r.transId == t :: r.id
    case CancelOp(i) => if i < |s.waiting| then {s.waiting[i].id} else {}
    case TimeoutOp(t, max, _) => set r | r in All(s.heads) && r.transId == t && r.txCount >= max :: r.id
    case _ => {}
  }

  function CapAfter(op: Op, cap: nat): nat {
    if op.SetMaxOp? && op.max <= MAX_CAP then if op.max < 1 then 1 else op.max else cap
  }

  /** Those that wait before any of them goes out. */
  ghost function Queue(op: Op, s: Snap): seq<Request> {
    match op
    case CancelOp(i) => if i < |s.waiting| then s.waiting[..i] + s.waiting[i + 1..] else s.waiting
    case ClearOp => if s.servers == [] then s.waiting else Suspended(Flat(s.heads)) + s.waiting
    case _ => s.waiting
  }

  /** What a step does to those that wait, and how many are in flight: a new request goes
      out at once or waits last; after one is finished, and on resuming, the first ones go
      out until nothing waits that could; otherwise nothing goes out. */
  ghost predicate Moves(op: Op, id: nat, s: Snap, t: Snap) {
    if op.SubmitOp? then
      if s.servers != [] && |All(s.heads)| < s.cap then t.waiting == s.waiting && |All(t.heads)| == |All(s.heads)| + 1
      else
        && |t.waiting| == |s.waiting| + 1 && t.waiting[..|s.waiting|] == s.waiting && t.waiting[|s.waiting|].id == id
        && |All(t.heads)| == |All(s.heads)|
    else if op.ResumeOp? || Finished(op, s) != {} then
      && IsSuffix(t.waiting, Queue(op, s)) && Quiet(t)
      && |All(t.heads)| + |t.waiting| == |All(s.heads)| + |s.waiting| - if op.ResumeOp? then 0 else 1
    else
      && t.waiting == Queue(op, s)
      && |All(t.heads)| == if op.ClearOp? && s.servers != [] then 0 else |All(s.heads)|
  }

  ghost predicate ServersAfter(op: Op, s: Snap, t: Snap) {
    forall x {:trigger x in t.servers} {:trigger x in s.servers} ::
      x in t.servers <==> !op.ClearOp? && (x in s.servers || (op.AddServerOp? && x == op.server))
  }

  /** What a step does to the requests that there are, to the cap, to the servers, and to
      what waits and what is in flight. */
  ghost predicate Steps(op: Op, id: nat, s: Snap, t: Snap) {
    && t.ids == (if op.SubmitOp? then s.ids + {id} else s.ids - Finished(op, s))
    && t.cap == CapAfter(op, s.cap)
    && |All(t.heads)| <= (if |All(s.heads)| > s.cap then |All(s.heads)| else s.cap)
    && ServersAfter(op, s, t) && Moves(op, id, s, t)
  }

  lemma OnlyOne(heads: seq<seq<Request>>, b: nat, i: nat, max: nat)
    requires Unique(All(heads)) && b < |heads| && i < |heads[b]|
    ensures var r := heads[b][i];
      && (set s | s in All(heads) && s.transId == r.transId :: s.id) == {r.id}
      && (set s | s in All(heads) && s.transId == r.transId && s.txCount >= max :: s.id) == if r.txCount >= max then {r.id} else {}
  {
    AllIn(heads, b, heads[b][i]);
  }

  /** A reply finishes the request that has its transaction id. */
  method Reply(b: DnsBase, t: nat)
    requires b.Valid()
    modifies b
    ensures b.Valid() && Steps(ReplyOp(t), 0, old(b.State()), b.State())
  {
    hide All, Unique, Tagged, BucketsOk, NoServers, IsSuffix, Distinct, Up;
    HeadsExist(b.heads, b.servers);
    var i := b.Find(t);
    if i.Some? {
      OnlyOne(b.heads, t % |b.heads|, i.value, 0);
      b.FinishInflight(t % |b.heads|, i.value);
    }
  }

  method TimeOut(b: DnsBase, t: nat, max: nat, fails: bool)
    requires b.Valid()
    modifies b
    ensures b.Valid() && Steps(TimeoutOp(t, max, fails), 0, old(b.State()), b.State())
  {
    hide All, Unique, Tagged, BucketsOk, NoServers, IsSuffix, Distinct, Up;
    HeadsExist(b.heads, b.servers);
    var i := b.Find(t);
    if i.Some? {
      OnlyOne(b.heads, t % |b.heads|, i.value, max);
      b.Timeout(t % |b.heads|, i.value, max, fails);
    }
  }

  method Cancel(b: DnsBase, i: nat)
    requires b.Valid()
    modifies b
    ensures b.Valid() && Steps(CancelOp(i), 0, old(b.State()), b.State())
  {
    hide All, Unique, Tagged, BucketsOk, NoServers, IsSuffix, Distinct, Up;
    if i < |b.waiting| {
      b.FinishWaiting(i);
    }
  }

  /** The steps that concern the name servers only, and sending again. */
  method Serve(b: DnsBase, op: Op)
    requires b.Valid() && (op.AddServerOp? || op.FailOp? || op.UpOp? || op.TransmitOp?)
    modifies b
    ensures b.Valid() && Steps(op, 0, old(b.State()), b.State())
  {
    hide All, SnapOk, Distinct, Up, SameRequests;
    match op {
      case AddServerOp(s) =>
        var r := b.AddNameserver(s);
      case FailOp(s) =>
        if s in b.servers {
          b.NameserverFailed(s);
        }
      case UpOp(s) =>
        if s in b.servers {
          b.NameserverUp(s);
        }
      case TransmitOp =>
        b.TransmitAll();
    }
  }

  /** One step; a new request gets the number `id`. A step that does not apply does
      nothing. */
  method Step(b: DnsBase, op: Op, id: nat)
    requires b.Valid() && id !in b.ids
    modifies b
    ensures b.Valid() && Steps(op, id, old(b.State()), b.State())
  {
    hide All, SnapOk, Distinct, Up, Suspended, Flat;
    match op {
      case SubmitOp =>
        b.Submit(id);
      case ReplyOp(t) =>
        Reply(b, t);
      case CancelOp(i) =>
        Cancel(b, i);
      case TimeoutOp(t, max, fails) =>
        TimeOut(b, t, max, fails);
      case ResumeOp =>
        b.Pump();
      case SetMaxOp(max) =>
        if max <= MAX_CAP {
          b.SetMaxInflight(max);
        }
      case ClearOp =>
        b.ClearNameserversAndSuspend();
      case _ =>
        Serve(b, op);
    }
  }

  /** A run: every state is right, and each comes from the one before by its step. */
  ghost predicate RunOk(ops: seq<Op>, trace: seq<Snap>) {
    && |trace| == |ops| + 1
    && trace[0] == Snap(seq(13, _ => []), [], [], 64, {})
    && (forall i {:trigger trace[i]} | 0 <= i < |trace| :: SnapOk(trace[i]))
    && forall i: nat {:trigger ops[i]} | i < |ops| :: Steps(ops[i], i, trace[i], trace[i + 1])
  }

  /** Request number `id` was submitted and no step has finished it since. */
  ghost predicate Open(ops: seq<Op>, trace: seq<Snap>, n: nat, id: nat)
    requires n <= |ops| < |trace|
  {
    id < n && ops[id].SubmitOp? && forall i: nat {:trigger Finished(ops[i], trace[i])} | id < i < n :: id !in Finished(ops[i], trace[i])
  }

  /** No request is lost and none comes back: those there are after `n` steps are
      exactly those that were submitted and not finished since. */
  lemma {:induction false} NoneLost(ops: seq<Op>, trace: seq<Snap>, n: nat, id: nat)
    requires RunOk(ops, trace) && n <= |ops|
    ensures id in trace[n].ids <==> Open(ops, trace, n, id)
    decreases n
  {
    hide SnapOk, Finished, Moves, ServersAfter;
    if n > 0 {
      NoneLost(ops, trace, n - 1, id);
      assert Steps(ops[n - 1], n - 1, trace[n - 1], trace[n]);
      FinishedOnly(ops[n - 1], trace[n - 1]);
    }
  }

  lemma FinishedOnly(op: Op, s: Snap)
    ensures Finished(op, s) != {} ==> op.ReplyOp? || op.CancelOp? || op.TimeoutOp?
  {
  }

  /** A step after which something waits that could go out: the cap was raised, or the first
      server was added. */
  ghost predicate Disturbs(op: Op, s: Snap) {
    && s.waiting != []
    && (|| (op.SetMaxOp? && s.servers != [] && |All(s.heads)| < CapAfter(op, s.cap))
        || (op.AddServerOp? && s.servers == [] && |All(s.heads)| < s.cap))
  }

  /** Such a step, and no other, leaves behind what could go out. */
  lemma StepQuiet(op: Op, id: nat, s: Snap, t: Snap)
    requires Steps(op, id, s, t) && Quiet(s)
    ensures Quiet(t) <==> !Disturbs(op, s)
  {
    hide All, Suspended, Flat, IsSuffix;
    NoneServe(s.servers);
    NoneServe(t.servers);
    if op.AddServerOp? {
      assert op.server in t.servers;
    }
  }

  lemma NoneServe(servers: seq<nat>)
    ensures servers == [] <==> forall x :: x !in servers
  {
    if servers != [] {
      assert servers[0] in servers;
    }
  }

  /** Over any run nothing waits that could go out, unless one of its steps was of that
      kind. */
  lemma {:induction false} StaysQuiet(ops: seq<Op>, trace: seq<Snap>, n: nat)
    requires RunOk(ops, trace) && n <= |ops| && forall i: nat {:trigger ops[i]} | i < n :: !Disturbs(ops[i], trace[i])
    ensures Quiet(trace[n])
    decreases n
  {
    hide SnapOk, Steps, Disturbs;
    if n > 0 {
      StaysQuiet(ops, trace, n - 1);
      assert Steps(ops[n - 1], n - 1, trace[n - 1], trace[n]);
      StepQuiet(ops[n - 1], n - 1, trace[n - 1], trace[n]);
    }
  }

  /** The largest cap of a run so far. */
  function LargestCap(ops: seq<Op>, trace: seq<Snap>, n: nat): nat
    requires n < |trace|
    decreases n
  {
    if n == 0 then trace[0].cap
    else
      var c := LargestCap(ops, trace, n - 1);
      if trace[n].cap > c then trace[n].cap else c
  }

  lemma {:induction false} NeverAbove(ops: seq<Op>, trace: seq<Snap>, n: nat)
    requires RunOk(ops, trace) && n <= |ops|
    ensures |All(trace[n].heads)| <= LargestCap(ops, trace, n)
    ensures trace[n].cap <= LargestCap(ops, trace, n)
    decreases n
  {
    hide SnapOk, Finished, Moves, ServersAfter;
    if n == 0 {
      AllNone(trace[0].heads);
    } else {
      NeverAbove(ops, trace, n - 1);
      assert Steps(ops[n - 1], n - 1, trace[n - 1], trace[n]);
    }
  }

  /** Whatever happens, in every order: the counters equal the lists, every request in
      flight is found by its transaction id and has a server, those that wait have
      none, no request is lost or there twice, and no more are in flight than the
      largest cap there was. */
  method Run(net: nat -> Send, ops: seq<Op>) returns (b: DnsBase, ghost trace: seq<Snap>)
    ensures b.Valid() && RunOk(ops, trace) && b.State() == trace[|ops|]
    ensures forall id: nat :: id in b.ids <==> Open(ops, trace, |ops|, id)
    ensures b.inflight <= LargestCap(ops, trace, |ops|)
  {
    hide All, SnapOk, Steps;
    b := new DnsBase(net);
    trace := [b.State()];
    for i := 0 to |ops|
      invariant fresh(b) && b.Valid() && |trace| == i + 1 && trace[i] == b.State()
      invariant trace[0] == Snap(seq(13, _ => []), [], [], 64, {})
      invariant forall j {:trigger trace[j]} | 0 <= j <= i :: SnapOk(trace[j])
      invariant forall j: nat {:trigger ops[j]} | j < i :: Steps(ops[j], j, trace[j], trace[j + 1])
      invariant forall id | id in b.ids :: id < i
    {
      StepsBelow(ops[i], i, b.State());
      Step(b, ops[i], i);
      trace := trace + [b.State()];
    }
    forall id: nat
      ensures id in b.ids <==> Open(ops, trace, |ops|, id)
    {
      NoneLost(ops, trace, |ops|, id);
    }
    NeverAbove(ops, trace, |ops|);
  }

  lemma StepsBelow(op: Op, n: nat, s: Snap)
    requires forall id | id in s.ids :: id < n
    ensures forall t: Snap | Steps(op, n, s, t) :: forall id | id in t.ids :: id < n + 1
  {
  }

  /** A step finishes one request at most. */
  lemma FinishedOne(op: Op, s: Snap, x: nat, y: nat)
    requires SnapOk(s) && x in Finished(op, s) && y in Finished(op, s)
    ensures x == y && (op.ReplyOp? || op.CancelOp? || op.TimeoutOp?)
  {
    hide Tagged, BucketsOk;
  }

  /** A resolver that leaves a request waiting although the cap, which was raised, would
      let it go out. */
  method RaisedCap(net: nat -> Send) returns (b: DnsBase)
    ensures b.Valid() && b.inflight == 1 && |b.waiting| == 1 && b.maxInflight == 2 && b.servers != [] && !b.Idle()
  {
    hide All, SnapOk;
    b := new DnsBase(net);
    var r := b.AddNameserver(1);
    b.SetMaxInflight(1);
    b.Submit(0);
    b.Submit(1);
    b.SetMaxInflight(2);
  }
}
