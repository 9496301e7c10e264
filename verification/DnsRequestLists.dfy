/** The requests of a resolver, in buckets and waiting, and what keeps them apart. */
module DnsRequestLists {
  import opened Bytes
  import opened Buckets

  const MAX_ID: nat := 0xffff
  const MAX_CAP: nat := 65000

  /** A struct request; `id` tells requests apart. */
  datatype Request = Request(id: nat, transId: nat, ns: Option<nat>, txCount: nat, transmitMe: bool)

  predicate InflightOk(r: Request, b: nat, n: nat, servers: seq<nat>)
    requires n > 0
  {
    r.transId < MAX_ID && r.transId % n == b && r.ns.Some? && r.ns.value in servers
  }

  predicate BucketOk(c: seq<Request>, b: nat, n: nat, servers: seq<nat>)
    requires n > 0
  {
    forall i {:trigger c[i]} | 0 <= i < |c| :: InflightOk(c[i], b, n, servers)
  }

  /** Every request in flight is in the bucket of its transaction id and has a server. */
  predicate BucketsOk(heads: seq<seq<Request>>, servers: seq<nat>) {
    |heads| > 0 && forall b {:trigger heads[b]} | 0 <= b < |heads| :: BucketOk(heads[b], b, |heads|, servers)
  }

  /** No two requests in flight have the same transaction id. */
  ghost predicate Unique(ms: multiset<Request>) {
    && (forall r, s {:trigger ms[r], ms[s]} | r in ms && s in ms && r.transId == s.transId :: r == s)
    && (forall r {:trigger ms[r]} :: ms[r] <= 1)
  }

  /** `ids` are the requests that there are, each once. */
  ghost predicate Tagged(ms: multiset<Request>, ids: set<nat>) {
    && (forall r {:trigger ms[r]} | r in ms :: ms[r] == 1 && r.id in ids)
    && (forall r, s {:trigger ms[r], ms[s]} | r in ms && s in ms && r.id == s.id :: r == s)
    && (forall id {:trigger id in ids} | id in ids :: exists r :: r in ms && r.id == id)
  }

  lemma TaggedAdd(ms: multiset<Request>, ids: set<nat>, r: Request)
    requires Tagged(ms, ids) && r.id !in ids
    ensures Tagged(ms + multiset{r}, ids + {r.id})
  {
    var more := ms + multiset{r};
    forall id | id in ids + {r.id}
      ensures exists s :: s in more && s.id == id
    {
      if id == r.id {
        assert r in more;
      } else {
        var s :| s in ms && s.id == id;
        assert s in more;
      }
    }
  }

  lemma TaggedRemove(ms: multiset<Request>, ids: set<nat>, r: Request)
    requires Tagged(ms + multiset{r}, ids)
    ensures r.id in ids && Tagged(ms, ids - {r.id})
  {
    var more := ms + multiset{r};
    assert r in more && more[r] == 1;
    forall s | s in ms
      ensures ms[s] == 1 && s.id in ids - {r.id}
    {
      assert s in more && more[s] == 1;
    }
    forall s, t | s in ms && t in ms && s.id == t.id
      ensures s == t
    {
      assert s in more && t in more;
    }
    forall id | id in ids - {r.id}
      ensures exists s :: s in ms && s.id == id
    {
      var s :| s in more && s.id == id;
      assert s in ms;
    }
  }

  lemma TaggedReplace(ms: multiset<Request>, ids: set<nat>, r: Request, s: Request)
    requires Tagged(ms + multiset{r}, ids) && s.id == r.id
    ensures Tagged(ms + multiset{s}, ids)
  {
    hide Tagged;
    TaggedRemove(ms, ids, r);
    TaggedAdd(ms, ids - {r.id}, s);
    assert ids - {r.id} + {s.id} == ids;
  }

  lemma UniqueAdd(ms: multiset<Request>, r: Request)
    requires Unique(ms) && forall s | s in ms :: s.transId != r.transId
    ensures Unique(ms + multiset{r})
  {
  }

  lemma UniqueRemove(ms: multiset<Request>, r: Request)
    requires Unique(ms + multiset{r})
    ensures Unique(ms) && forall s | s in ms :: s.transId != r.transId
  {
    var more := ms + multiset{r};
    assert r in more && more[r] <= 1;
    forall s | s in ms
      ensures s.transId != r.transId
    {
      assert s in more;
    }
    forall s, t | s in ms && t in ms && s.transId == t.transId
      ensures s == t
    {
      assert s in more && t in more;
    }
    forall s
      ensures ms[s] <= 1
    {
      assert s in ms ==> s in more;
    }
  }

  predicate NoServers(q: seq<Request>) {
    forall i {:trigger q[i]} | 0 <= i < |q| :: q[i].ns.None?
  }

  function Up(servers: seq<nat>, down: set<nat>): set<nat> {
    set s | s in servers && s !in down
  }

  predicate Distinct(q: seq<nat>) {
    forall i, j {:trigger q[i], q[j]} | 0 <= i < j < |q| :: q[i] != q[j]
  }

  /** A circular list seen from `k` places on. */
  function Rotated(q: seq<nat>, k: nat): seq<nat>
    requires k <= |q|
  {
    q[k..] + q[..k]
  }

  lemma RotatedSame(q: seq<nat>, k: nat)
    requires k <= |q| && Distinct(q)
    ensures Distinct(Rotated(q, k)) && forall x :: x in Rotated(q, k) <==> x in q
  {
    var r := Rotated(q, k);
    forall i, j | 0 <= i < j < |r|
      ensures r[i] != r[j]
    {
      assert r[i] == q[if i < |q| - k then i + k else i - (|q| - k)];
      assert r[j] == q[if j < |q| - k then j + k else j - (|q| - k)];
    }
    assert q == q[..k] + q[k..];
  }

  lemma InBucket(heads: seq<seq<Request>>, servers: seq<nat>, b: nat, i: nat)
    requires BucketsOk(heads, servers) && b < |heads| && i < |heads[b]|
    ensures InflightOk(heads[b][i], b, |heads|, servers)
  {
    assert BucketOk(heads[b], b, |heads|, servers);
  }

  lemma WhereIs(heads: seq<seq<Request>>, servers: seq<nat>, waiting: seq<Request>, r: Request)
    requires BucketsOk(heads, servers) && NoServers(waiting) && (r in All(heads) || r in waiting)
    ensures |heads| > 0 && (if r.ns.Some? then r in heads[r.transId % |heads|] else r in waiting)
  {
    if r in All(heads) {
      var b := AllFrom(heads, r);
      assert BucketOk(heads[b], b, |heads|, servers);
      var i :| 0 <= i < |heads[b]| && heads[b][i] == r;
    }
  }

  lemma Twice<T>(bs: seq<T>, b: nat, x: T, y: T)
    requires b < |bs|
    ensures bs[b := x][b := y] == bs[b := y]
  {
  }

  lemma ChangedTwice<T>(bs: seq<seq<T>>, b: nat, i: nat, x: T, y: T)
    requires b < |bs| && i < |bs[b]|
    ensures var mid := bs[b := bs[b][i := x]]; mid[b := mid[b][i := y]] == bs[b := bs[b][i := y]]
  {
    Twice(bs[b], i, x, y);
    Twice(bs, b, bs[b][i := x], bs[b][i := y]);
  }

  lemma ReplaceOne<T>(bs: seq<seq<T>>, b: nat, i: nat, r: T)
    requires b < |bs| && i < |bs[b]|
    ensures var rest := bs[b := bs[b][..i] + bs[b][i + 1..]];
      All(bs) == All(rest) + multiset{bs[b][i]} && All(bs[b := bs[b][i := r]]) == All(rest) + multiset{r}
  {
    hide All;
    var c := bs[b];
    var d := c[i := r];
    TakenOut(c, i);
    AllLose(bs, b, c[..i] + c[i + 1..], c[i]);
    TakenOut(d, i);
    assert d[..i] == c[..i] && d[i + 1..] == c[i + 1..];
    AllLose(bs[b := d], b, c[..i] + c[i + 1..], r);
    Twice(bs, b, d, c[..i] + c[i + 1..]);
  }

  lemma ChangedOk(heads: seq<seq<Request>>, servers: seq<nat>, b: nat, i: nat, r: Request)
    requires BucketsOk(heads, servers) && b < |heads| && i < |heads[b]|
    requires r.transId == heads[b][i].transId && r.ns.Some? && r.ns.value in servers
    ensures BucketsOk(heads[b := heads[b][i := r]], servers)
  {
    assert BucketOk(heads[b], b, |heads|, servers);
    assert InflightOk(heads[b][i], b, |heads|, servers);
  }

  /** The same requests, perhaps at other servers. */
  predicate SameRequests(now: seq<Request>, was: seq<Request>) {
    |now| == |was| && forall i {:trigger now[i]} | 0 <= i < |now| :: now[i] == was[i].(ns := now[i].ns)
  }

  predicate Moved(c: seq<Request>, s: nat) {
    forall i {:trigger c[i]} | 0 <= i < |c| :: c[i].txCount == 0 ==> c[i].ns != Some(s)
  }

  lemma SameAsSame(heads: seq<seq<Request>>)
    ensures forall b {:trigger heads[b]} | 0 <= b < |heads| :: SameRequests(heads[b], heads[b])
  {
  }

  lemma SameLists(was: seq<seq<Request>>, now: seq<seq<Request>>, first: seq<seq<Request>>, b: nat)
    requires |now| == |was| == |first| && b < |now| && SameRequests(now[b], was[b])
    requires forall a | 0 <= a < |now| && a != b :: now[a] == was[a]
    requires forall a {:trigger was[a]} | 0 <= a < |was| :: SameRequests(was[a], first[a])
    ensures forall a {:trigger now[a]} | 0 <= a < |now| :: SameRequests(now[a], first[a])
  {
    assert SameRequests(was[b], first[b]);
  }

  lemma OneLessUp(servers: seq<nat>, down: set<nat>, s: nat)
    requires s in servers && s !in down
    ensures |Up(servers, down + {s})| == |Up(servers, down)| - 1
  {
    assert Up(servers, down) == Up(servers, down + {s}) + {s};
  }

  lemma OneMoreUp(servers: seq<nat>, down: set<nat>, s: nat)
    requires s !in servers
    ensures |Up(servers + [s], down - {s})| == |Up(servers, down)| + 1
  {
    assert Up(servers + [s], down - {s}) == Up(servers, down) + {s};
  }

  lemma MoreServers(heads: seq<seq<Request>>, was: seq<nat>, now: seq<nat>)
    requires BucketsOk(heads, was) && forall s | s in was :: s in now
    ensures BucketsOk(heads, now)
  {
    forall b | 0 <= b < |heads|
      ensures BucketOk(heads[b], b, |heads|, now)
    {
      assert BucketOk(heads[b], b, |heads|, was);
    }
  }

  /** A request that goes back to waiting. */
  function Idled(r: Request): Request {
    Request(r.id, 0, None, 0, false)
  }

  function Suspended(q: seq<Request>): (r: seq<Request>)
    ensures |r| == |q|
  {
    if q == [] then [] else Suspended(q[1..]) + [Idled(q[0])]
  }

  /** They wait in the opposite order: untried, with no transaction id, at no server, and
      not to be sent again. */
  lemma {:induction false} SuspendedAt(q: seq<Request>, k: nat)
    requires k < |q|
    ensures Suspended(q)[k] == Request(q[|q| - 1 - k].id, 0, None, 0, false)
  {
    if k < |q| - 1 {
      SuspendedAt(q[1..], k);
    }
  }

  lemma SuspendedAll(q: seq<Request>)
    ensures forall k {:trigger Suspended(q)[k]} | 0 <= k < |q| ::
      Suspended(q)[k] == Request(q[|q| - 1 - k].id, 0, None, 0, false)
  {
    hide Suspended;
    forall k | 0 <= k < |q|
      ensures Suspended(q)[k] == Request(q[|q| - 1 - k].id, 0, None, 0, false)
    {
      SuspendedAt(q, k);
    }
  }

  lemma SuspendedNone(q: seq<Request>)
    ensures Suspended([]) + q == q
  {
  }

  lemma {:induction false} SuspendedConcat(a: seq<Request>, b: seq<Request>)
    ensures Suspended(a + b) == Suspended(b) + Suspended(a)
  {
    if a == [] {
      assert a + b == b;
      assert Suspended(b) + [] == Suspended(b);
    } else {
      SuspendedConcat(a[1..], b);
      assert (a + b)[1..] == a[1..] + b;
      Assoc(Suspended(b), Suspended(a[1..]), [Idled(a[0])]);
    }
  }

  lemma SuspendedSnoc(q: seq<Request>, r: Request)
    ensures Suspended(q + [r]) == [Idled(r)] + Suspended(q)
  {
    SuspendedConcat(q, [r]);
    assert [r][1..] == [];
  }

  lemma {:induction false} SuspendedNs(q: seq<Request>, ws: seq<Request>)
    requires NoServers(ws)
    ensures NoServers(Suspended(q) + ws)
  {
    if q != [] {
      SuspendedNs(q[1..], [Idled(q[0])] + ws);
      Assoc(Suspended(q[1..]), [Idled(q[0])], ws);
    }
  }

  /** The same requests are there, suspended. */
  lemma {:induction false} SuspendedTag(q: seq<Request>, ms: multiset<Request>, ids: set<nat>)
    requires Tagged(multiset(q) + ms, ids)
    ensures Tagged(multiset(Suspended(q)) + ms, ids)
    decreases |q|
  {
    hide Tagged;
    if q != [] {
      var rest := q[1..];
      var r := q[0];
      assert q == [r] + rest;
      assert multiset(q) + ms == (multiset(rest) + ms) + multiset{r};
      TaggedReplace(multiset(rest) + ms, ids, r, Idled(r));
      assert (multiset(rest) + ms) + multiset{Idled(r)} == multiset(rest) + (ms + multiset{Idled(r)});
      SuspendedTag(rest, ms + multiset{Idled(r)}, ids);
      assert multiset(Suspended(q)) + ms == multiset(Suspended(rest)) + (ms + multiset{Idled(r)});
    }
  }

  lemma SuspendedTagged(heads: seq<seq<Request>>, waiting: seq<Request>, ids: set<nat>)
    requires Tagged(All(heads) + multiset(waiting), ids)
    ensures Tagged(multiset(Suspended(Flat(heads)) + waiting), ids)
  {
    hide Tagged;
    FlatAll(heads);
    SuspendedTag(Flat(heads), multiset(waiting), ids);
    assert multiset(Suspended(Flat(heads)) + waiting) == multiset(Suspended(Flat(heads))) + multiset(waiting);
  }

  lemma NoneInflight(heads: seq<seq<Request>>, servers: seq<nat>, waiting: seq<Request>)
    requires |heads| > 0 && forall b | 0 <= b < |heads| :: heads[b] == []
    ensures All(heads) == multiset{} && BucketsOk(heads, servers) && Unique(All(heads))
    ensures All(heads) + multiset(waiting) == multiset(waiting)
  {
    AllNone(heads);
    EmptyBuckets(heads, servers);
  }

  lemma HeadsExist(heads: seq<seq<Request>>, servers: seq<nat>)
    requires BucketsOk(heads, servers)
    ensures |heads| > 0
  {
  }

  lemma SameUp(q: seq<nat>, r: seq<nat>, down: set<nat>)
    requires forall x :: x in r <==> x in q
    ensures Up(q, down) == Up(r, down)
  {
  }

  lemma NoneUp(q: seq<nat>, down: set<nat>)
    requires forall i | 0 <= i < |q| :: q[i] in down
    ensures |Up(q, down)| == 0
  {
    assert Up(q, down) == {};
  }

  lemma NotInOthers(heads: seq<seq<Request>>, servers: seq<nat>, transId: nat)
    requires BucketsOk(heads, servers)
    requires forall j | 0 <= j < |heads[transId % |heads|]| :: heads[transId % |heads|][j].transId != transId
    ensures forall s | s in All(heads) :: s.transId != transId
  {
    forall s | s in All(heads)
      ensures s.transId != transId
    {
      var b := AllFrom(heads, s);
      assert BucketOk(heads[b], b, |heads|, servers);
      var j :| 0 <= j < |heads[b]| && heads[b][j] == s;
    }
  }

  function TransIds(q: seq<Request>): (s: set<nat>)
    ensures |s| <= |q|
  {
    if q == [] then {} else {q[0].transId} + TransIds(q[1..])
  }

  lemma {:induction false} TransIdsHas(q: seq<Request>, r: Request)
    requires r in q
    ensures r.transId in TransIds(q)
  {
    if q[0] != r {
      TransIdsHas(q[1..], r);
    }
  }

  lemma InTransIds(heads: seq<seq<Request>>, b: nat, i: nat)
    requires b < |heads| && i < |heads[b]|
    ensures heads[b][i].transId in TransIds(Flat(heads))
  {
    var r := heads[b][i];
    AllIn(heads, b, r);
    FlatAll(heads);
    assert r in multiset(Flat(heads));
    TransIdsHas(Flat(heads), r);
  }

  lemma SomeFree(heads: seq<seq<Request>>) returns (w: nat)
    requires |All(heads)| <= MAX_CAP
    ensures w < MAX_ID && w !in TransIds(Flat(heads))
  {
    FlatAll(heads);
    assert |multiset(Flat(heads))| == |Flat(heads)|;
    if forall t: nat | t < MAX_ID :: t in TransIds(Flat(heads)) {
      TooManyIds(Flat(heads));
      assert false;
    }
    w :| w < MAX_ID && w !in TransIds(Flat(heads));
  }

  lemma TooManyIds(q: seq<Request>)
    requires forall t: nat | t < MAX_ID :: t in TransIds(q)
    ensures |q| >= MAX_ID
  {
    Below(MAX_ID, TransIds(q));
  }

  lemma {:induction false} Below(n: nat, s: set<nat>)
    requires forall t: nat | t < n :: t in s
    ensures |s| >= n
    decreases n
  {
    if n > 0 {
      Below(n - 1, s - {n - 1});
    }
  }

  lemma SameServers(heads: seq<seq<Request>>, was: seq<nat>, now: seq<nat>)
    requires BucketsOk(heads, was) && forall s :: s in now <==> s in was
    ensures BucketsOk(heads, now)
  {
    forall b | 0 <= b < |heads|
      ensures BucketOk(heads[b], b, |heads|, now)
    {
      assert BucketOk(heads[b], b, |heads|, was);
    }
  }

  /** The first request that waits is sent: it is the same request still. */
  lemma MoveTagged(ms: multiset<Request>, r: Request, q: seq<Request>, s: Request, ids: set<nat>)
    requires q != [] && q[0] == r && s.id == r.id && Tagged(ms + multiset(q), ids)
    ensures Tagged(ms + multiset{s} + multiset(q[1..]), ids)
  {
    hide Tagged;
    assert q == [r] + q[1..];
    assert ms + multiset(q) == (ms + multiset(q[1..])) + multiset{r};
    TaggedReplace(ms + multiset(q[1..]), ids, r, s);
    assert ms + multiset{s} + multiset(q[1..]) == (ms + multiset(q[1..])) + multiset{s};
  }

  lemma Swap<T>(a: multiset<T>, b: multiset<T>, c: multiset<T>)
    ensures a + b + c == a + c + b
  {
  }

  lemma Append(ms: multiset<Request>, q: seq<Request>, r: Request)
    ensures ms + multiset(q + [r]) == ms + multiset(q) + multiset{r}
  {
  }

  lemma BucketLess(c: seq<Request>, b: nat, n: nat, servers: seq<nat>, i: nat)
    requires n > 0 && BucketOk(c, b, n, servers) && i < |c|
    ensures BucketOk(c[..i] + c[i + 1..], b, n, servers)
  {
    var r := c[..i] + c[i + 1..];
    forall j | 0 <= j < |r|
      ensures InflightOk(r[j], b, n, servers)
    {
      assert r[j] == c[if j < i then j else j + 1];
    }
  }

  lemma EmptyBuckets(heads: seq<seq<Request>>, servers: seq<nat>)
    requires |heads| > 0 && forall b | 0 <= b < |heads| :: heads[b] == []
    ensures BucketsOk(heads, servers)
  {
  }

  lemma FirstBucket<T>(bs: seq<seq<T>>, i: nat)
    requires i < |bs|
    ensures All(bs[i..]) == multiset(bs[i]) + All(bs[i + 1..])
  {
    assert bs[i..][1..] == bs[i + 1..];
  }

  lemma NoBuckets<T>(bs: seq<seq<T>>, i: nat)
    requires i == |bs|
    ensures All(bs[i..]) == multiset{}
  {
  }

  lemma MoveToEnd<T>(bs: seq<seq<T>>, c: seq<T>, b: nat)
    requires c != [] && b < |bs|
    ensures All(bs[b := bs[b] + [c[0]]]) + multiset(c[1..]) == All(bs) + multiset(c)
  {
    AllGain(bs, b, bs[b] + [c[0]], c[0]);
    assert c == [c[0]] + c[1..];
    UnionAssoc(All(bs), multiset{c[0]}, multiset(c[1..]));
  }

  lemma MoveOk(bs: seq<seq<Request>>, c: seq<Request>, i: nat, n: nat, servers: seq<nat>)
    requires c != [] && n > 0 && BucketOk(c, i, n, servers) && BucketsOk(bs, servers)
    ensures var b := c[0].transId % |bs|;
      BucketsOk(bs[b := bs[b] + [c[0]]], servers) && BucketOk(c[1..], i, n, servers)
  {
    var b := c[0].transId % |bs|;
    var r := bs[b := bs[b] + [c[0]]];
    assert InflightOk(c[0], i, n, servers);
    forall a | 0 <= a < |r|
      ensures BucketOk(r[a], a, |r|, servers)
    {
      assert BucketOk(bs[a], a, |bs|, servers);
    }
    forall j | 0 <= j < |c[1..]|
      ensures InflightOk(c[1..][j], i, n, servers)
    {
      assert c[1..][j] == c[j + 1];
    }
  }

  /** The same requests in the same places, whatever became of them. */
  predicate Kin(now: seq<Request>, was: seq<Request>) {
    |now| == |was| && forall i {:trigger now[i]} | 0 <= i < |now| :: now[i].id == was[i].id && now[i].transId == was[i].transId
  }

  /** Every request but one is as it was, perhaps at another server. */
  predicate OthersStay(now: seq<seq<Request>>, was: seq<seq<Request>>, b: nat, i: nat) {
    forall a, j {:trigger now[a][j]} | 0 <= a < |now| && a < |was| && 0 <= j < |now[a]| && j < |was[a]| && (a != b || j != i) ::
      now[a][j] == was[a][j].(ns := now[a][j].ns)
  }

  lemma OthersSame(mid: seq<seq<Request>>, was: seq<seq<Request>>, now: seq<seq<Request>>, b: nat, i: nat, x: Request, y: Request)
    requires b < |was| && i < |was[b]| && mid == was[b := was[b][i := x]]
    requires |now| == |mid| && forall a {:trigger now[a]} | 0 <= a < |now| :: SameRequests(now[a], mid[a])
    ensures b < |now| && i < |now[b]| && OthersStay(now[b := now[b][i := y]], was, b, i)
  {
    assert SameRequests(now[b], mid[b]);
    forall a, j | 0 <= a < |now| && 0 <= j < |now[a]| && j < |was[a]| && (a != b || j != i)
      ensures now[a][j] == was[a][j].(ns := now[a][j].ns)
    {
      assert SameRequests(now[a], mid[a]);
      assert mid[a][j] == was[a][j];
    }
  }

  predicate AllKin(now: seq<seq<Request>>, was: seq<seq<Request>>) {
    |now| == |was| && forall b {:trigger now[b]} | 0 <= b < |now| :: Kin(now[b], was[b])
  }

  lemma KinSelf(heads: seq<seq<Request>>)
    ensures AllKin(heads, heads)
  {
  }

  lemma KinLen(now: seq<seq<Request>>, was: seq<seq<Request>>, b: nat)
    requires AllKin(now, was) && b < |was|
    ensures |now| == |was| && |now[b]| == |was[b]|
  {
    assert Kin(now[b], was[b]);
  }

  lemma KinTrans(a: seq<seq<Request>>, b: seq<seq<Request>>, c: seq<seq<Request>>)
    requires AllKin(a, b) && AllKin(b, c)
    ensures AllKin(a, c)
  {
    forall i | 0 <= i < |a|
      ensures Kin(a[i], c[i])
    {
      assert Kin(a[i], b[i]) && Kin(b[i], c[i]);
    }
  }

  lemma KinChange(heads: seq<seq<Request>>, b: nat, i: nat, r: Request)
    requires b < |heads| && i < |heads[b]| && r.id == heads[b][i].id && r.transId == heads[b][i].transId
    ensures AllKin(heads[b := heads[b][i := r]], heads)
  {
  }

  lemma SameIsKin(now: seq<seq<Request>>, was: seq<seq<Request>>)
    requires |now| == |was| && forall b {:trigger now[b]} | 0 <= b < |now| :: SameRequests(now[b], was[b])
    ensures AllKin(now, was)
  {
    forall b | 0 <= b < |now|
      ensures Kin(now[b], was[b])
    {
      assert SameRequests(now[b], was[b]);
    }
  }
}
