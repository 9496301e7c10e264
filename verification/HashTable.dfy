/** A chained hash table that grows through a list of primes. */
module HashTable {
  import opened Bytes
  import opened Buckets

  /** An element: its key, and which of the elements with that key it is. */
  datatype Elem<K> = Elem(key: K, id: nat)

  const PRIMES: seq<nat> := [
    53, 97, 193, 389,
    769, 1543, 3079, 6151,
    12289, 24593, 49157, 98317,
    196613, 393241, 786433, 1572869,
    3145739, 6291469, 12582917, 25165843,
    50331653, 100663319, 201326611, 402653189,
    805306457, 1610612741
  ]
  const LAST: nat := 25

  /** The load factor is one half. */
  function LoadLimit(len: nat): nat {
    len / 2
  }

  lemma PrimesGrow(i: nat, j: nat)
    requires i < j <= LAST
    ensures PRIMES[i] + 40 < PRIMES[j]
  {
  }

  lemma LimitPositive(i: nat)
    requires i <= LAST
    ensures LoadLimit(PRIMES[i]) >= 26
  {
    if i > 0 {
      PrimesGrow(0, i);
    }
  }

  // Buckets

  /** Elements that belong into bucket `b` of `len`. */
  predicate InBucket<K>(hash: K -> nat, c: seq<Elem<K>>, b: nat, len: nat)
    requires len > 0
  {
    forall i {:trigger c[i]} | 0 <= i < |c| :: hash(c[i].key) % len == b
  }

  predicate Placed<K>(hash: K -> nat, bs: seq<seq<Elem<K>>>) {
    forall b {:trigger bs[b]} | 0 <= b < |bs| :: InBucket(hash, bs[b], b, |bs|)
  }

  /** The buckets hold exactly the elements of the map, each once. */
  ghost predicate Holds<K>(bs: seq<seq<Elem<K>>>, view: map<K, Elem<K>>) {
    && All(bs) == multiset(view.Values)
    && forall k {:trigger view[k]} | k in view :: view[k].key == k
  }

  lemma ViewSize<K>(view: map<K, Elem<K>>)
    requires forall k {:trigger view[k]} | k in view :: view[k].key == k
    ensures |view.Values| == |view|
    decreases |view|
  {
    if view != map[] {
      var k :| k in view;
      var rest := view - {k};
      assert forall j | j in rest :: rest[j] == view[j];
      ViewSize(rest);
      assert view[k] !in rest.Values;
      assert view.Values == rest.Values + {view[k]};
      assert view.Keys == rest.Keys + {k};
      assert |view.Keys| == |view| && |rest.Keys| == |rest|;
    }
  }

  /** The elements of one old bucket go to the fronts of their new ones. */
  method Scatter<K>(hash: K -> nat, moved: array<seq<Elem<K>>>, bucket: seq<Elem<K>>)
    requires moved.Length > 0 && Placed(hash, moved[..])
    modifies moved
    ensures Placed(hash, moved[..]) && All(moved[..]) == old(All(moved[..])) + multiset(bucket)
  {
    hide All;
    var elm := bucket;
    while elm != []
      invariant Placed(hash, moved[..])
      invariant All(moved[..]) + multiset(elm) == old(All(moved[..])) + multiset(bucket)
    {
      var b2 := hash(elm[0].key) % moved.Length;
      MoveOne(moved[..], elm, b2);
      moved[b2] := [elm[0]] + moved[b2];
      elm := elm[1..];
    }
  }

  method Rehash<K>(hash: K -> nat, table: array<seq<Elem<K>>>, newLen: nat) returns (moved: array<seq<Elem<K>>>)
    requires newLen > 0
    ensures fresh(moved) && moved.Length == newLen
    ensures Placed(hash, moved[..]) && All(moved[..]) == All(table[..])
  {
    hide All;
    moved := new seq<Elem<K>>[newLen](_ => []);
    AllNone(moved[..]);
    AllNone<Elem<K>>([]);
    assert table[table.Length..] == [];
    var b := 0;
    while b < table.Length
      invariant b <= table.Length && Placed(hash, moved[..]) && All(moved[..]) + All(table[b..]) == All(table[..])
    {
      AllSplit(table[b..], 0);
      assert table[b..][1..] == table[b + 1..];
      AllNone<Elem<K>>([]);
      Scatter(hash, moved, table[b]);
      b := b + 1;
    }
  }

  /** Taking element `i` out of one bucket and moving it to the front of another. */
  lemma MoveBetween<K>(bs: seq<seq<Elem<K>>>, b: nat, i: nat, b2: nat)
    requires b < |bs| && b2 < |bs| && b != b2 && i < |bs[b]|
    ensures var less := bs[b := bs[b][..i] + bs[b][i + 1..]];
      All(less[b2 := [bs[b][i]] + less[b2]]) == All(bs)
  {
    hide All;
    var c := bs[b];
    var less := bs[b := c[..i] + c[i + 1..]];
    var x := [c[i]] + less[b2];
    AllUpdate(bs, b, c[..i] + c[i + 1..]);
    AllUpdate(less, b2, x);
    assert c == c[..i] + [c[i]] + c[i + 1..];
    assert multiset(c) == multiset(c[..i] + c[i + 1..]) + multiset{c[i]};
    assert multiset(x) == multiset{c[i]} + multiset(less[b2]);
    Exchange(All(bs), All(less), All(less[b2 := x]), multiset(c[..i] + c[i + 1..]), multiset{c[i]}, multiset(less[b2]));
  }

  /** The bucket array after realloc and memset: the old buckets and then empty ones. */
  method Extended<K>(table: array<seq<Elem<K>>>, newLen: nat) returns (longer: array<seq<Elem<K>>>)
    requires newLen >= table.Length
    ensures fresh(longer) && longer.Length == newLen && All(longer[..]) == All(table[..])
    ensures forall b {:trigger longer[b]} | table.Length <= b < newLen :: longer[b] == []
  {
    longer := new seq<Elem<K>>[newLen](_ => []);
    forall b | 0 <= b < table.Length {
      longer[b] := table[b];
    }
    AllNone(longer[table.Length..]);
    assert longer[..] == table[..] + longer[table.Length..];
    AllConcat(table[..], longer[table.Length..]);
  }

  method RehashInPlace<K>(hash: K -> nat, table: array<seq<Elem<K>>>, newLen: nat) returns (longer: array<seq<Elem<K>>>)
    requires newLen > 0 && newLen >= table.Length
    ensures fresh(longer) && longer.Length == newLen
    ensures Placed(hash, longer[..]) && All(longer[..]) == All(table[..])
  {
    hide All;
    longer := Extended(table, newLen);
    var b := 0;
    while b < table.Length
      invariant b <= table.Length
      invariant forall a {:trigger longer[a]} | 0 <= a < b || table.Length <= a < newLen :: InBucket(hash, longer[a], a, newLen)
      invariant All(longer[..]) == All(table[..])
    {
      var i := 0;
      while i < |longer[b]|
        invariant i <= |longer[b]|
        invariant forall a {:trigger longer[a]} | 0 <= a < b || table.Length <= a < newLen :: InBucket(hash, longer[a], a, newLen)
        invariant InBucket(hash, longer[b][..i], b, newLen)
        invariant All(longer[..]) == All(table[..])
        decreases |longer[b]| - i
      {
        var e := longer[b][i];
        var b2 := hash(e.key) % newLen;
        if b2 == b {
          assert longer[b][..i + 1] == longer[b][..i] + [e];
          i := i + 1;
        } else {
          MoveBetween(longer[..], b, i, b2);
          longer[b] := longer[b][..i] + longer[b][i + 1..];
          longer[b2] := [e] + longer[b2];
        }
      }
      assert longer[b][..i] == longer[b];
      b := b + 1;
    }
  }

  /** The index of the prime that a table of prime number `idx` grows to. */
  function NextPrime(idx: int, size: nat): (r: int)
    requires -1 <= idx < LAST && size < LoadLimit(PRIMES[LAST])
    ensures idx < r <= LAST && size < LoadLimit(PRIMES[r])
    ensures forall k | idx < k < r :: LoadLimit(PRIMES[k]) <= size
    decreases LAST - idx
  {
    if LoadLimit(PRIMES[idx + 1]) <= size then NextPrime(idx + 1, size) else idx + 1
  }

  method FindPrime(idx: int, size: nat) returns (r: int)
    requires -1 <= idx < LAST && size < LoadLimit(PRIMES[LAST])
    ensures r == NextPrime(idx, size) && idx < r <= LAST && size < PRIMES[r] / 2
    ensures forall k | idx < k < r :: PRIMES[k] / 2 <= size
  {
    r := idx + 1;
    while LoadLimit(PRIMES[r]) <= size
      invariant idx < r <= LAST && NextPrime(idx, size) == NextPrime(r - 1, size)
      decreases LAST - r
    {
      r := r + 1;
    }
    assert forall k | idx < k < r :: LoadLimit(PRIMES[k]) <= size;
  }

  /** The position of the first element with key `k` in a bucket, or the bucket's end. */
  function Scan<K(==)>(c: seq<Elem<K>>, k: K): (i: nat)
    ensures i <= |c| && (i < |c| ==> c[i].key == k)
    ensures forall j | 0 <= j < i :: c[j].key != k
  {
    if c == [] || c[0].key == k then 0 else 1 + Scan(c[1..], k)
  }

  /** The element of a key is in the bucket of that key. */
  lemma InItsBucket<K>(hash: K -> nat, bs: seq<seq<Elem<K>>>, view: map<K, Elem<K>>, k: K)
    requires |bs| > 0 && Placed(hash, bs) && Holds(bs, view) && k in view
    ensures view[k] in bs[hash(k) % |bs|]
  {
    hide All;
    assert view[k] in multiset(view.Values);
    var b := AllFrom(bs, view[k]);
    assert InBucket(hash, bs[b], b, |bs|);
  }

  /** In buckets that hold the map `view`, the bucket of a key holds the element of
      that key, if there is one, and no other with that key. */
  lemma ScanFinds<K>(hash: K -> nat, bs: seq<seq<Elem<K>>>, view: map<K, Elem<K>>, k: K)
    requires |bs| > 0 && Placed(hash, bs) && Holds(bs, view)
    ensures var c := bs[hash(k) % |bs|];
      if k in view then Scan(c, k) < |c| && c[Scan(c, k)] == view[k] else Scan(c, k) == |c|
  {
    hide All, Scan;
    var b := hash(k) % |bs|;
    var c := bs[b];
    var i := Scan(c, k);
    if i < |c| {
      AllIn(bs, b, c[i]);
      assert c[i] in view.Values;
    }
    if k in view {
      InItsBucket(hash, bs, view, k);
    }
  }

  lemma SetInsert<T>(s: set<T>, e: T)
    requires e !in s
    ensures multiset(s + {e}) == multiset(s) + multiset{e}
  {
  }

  lemma ValuesInsert<K>(view: map<K, Elem<K>>, e: Elem<K>)
    requires e.key !in view && forall k {:trigger view[k]} | k in view :: view[k].key == k
    ensures multiset(view[e.key := e].Values) == multiset(view.Values) + multiset{e}
  {
    var more := view[e.key := e];
    forall v | v in view.Values + {e}
      ensures v in more.Values
    {
      if v != e {
        var j :| j in view && view[j] == v;
        assert more[j] == v;
      } else {
        assert more[e.key] == e;
      }
    }
    assert more.Values == view.Values + {e};
    SetInsert(view.Values, e);
  }

  lemma HoldsInsert<K>(bs: seq<seq<Elem<K>>>, view: map<K, Elem<K>>, b: nat, x: seq<Elem<K>>, e: Elem<K>)
    requires b < |bs| && Holds(bs, view) && e.key !in view
    requires multiset(x) == multiset(bs[b]) + multiset{e}
    ensures Holds(bs[b := x], view[e.key := e]) && |view[e.key := e]| == |view| + 1
  {
    hide All;
    AllUpdate(bs, b, x);
    Drop(All(bs[b := x]), multiset(bs[b]), All(bs), multiset{e});
    ValuesInsert(view, e);
  }

  lemma HoldsRemove<K>(bs: seq<seq<Elem<K>>>, view: map<K, Elem<K>>, b: nat, x: seq<Elem<K>>, e: Elem<K>)
    requires b < |bs| && Holds(bs, view) && e.key in view && view[e.key] == e
    requires multiset(bs[b]) == multiset(x) + multiset{e}
    ensures Holds(bs[b := x], view - {e.key}) && |view| == |view - {e.key}| + 1
  {
    hide All;
    var less := view - {e.key};
    AllUpdate(bs, b, x);
    Drop(All(bs), multiset(x), All(bs[b := x]), multiset{e});
    assert view == less[e.key := e];
    ValuesInsert(less, e);
    Cancel(All(bs[b := x]), multiset(less.Values), multiset{e});
  }

  lemma HoldsReplace<K>(bs: seq<seq<Elem<K>>>, view: map<K, Elem<K>>, b: nat, i: nat, e: Elem<K>)
    requires b < |bs| && i < |bs[b]| && Holds(bs, view) && e.key in view && view[e.key] == bs[b][i]
    ensures Holds(bs[b := bs[b][i := e]], view[e.key := e]) && |view[e.key := e]| == |view|
  {
    hide All;
    var c := bs[b];
    var x := c[..i] + c[i + 1..];
    var less := view - {e.key};
    assert c == c[..i] + [c[i]] + c[i + 1..];
    assert c[i := e] == c[..i] + [e] + c[i + 1..];
    HoldsRemove(bs, view, b, x, c[i]);
    HoldsInsert(bs[b := x], less, b, c[i := e], e);
    assert bs[b := x][b := c[i := e]] == bs[b := c[i := e]];
    assert less[e.key := e] == view[e.key := e];
  }

  class Table<K(==)> {
    const hash: K -> nat
    var table: array<seq<Elem<K>>>
    var nEntries: nat
    var loadLimit: nat
    var primeIdx: int
    ghost var view: map<K, Elem<K>>

    predicate Sized()
      reads this
    {
      if primeIdx == -1 then table.Length == 0 && loadLimit == 0
      else 0 <= primeIdx <= LAST && table.Length == PRIMES[primeIdx] && loadLimit == LoadLimit(PRIMES[primeIdx])
    }

    /** The table stands for the map `view`. */
    ghost predicate Rep()
      reads this, table
    {
      Sized() && Placed(hash, table[..]) && Holds(table[..], view)
    }

    /** The count is right, and only a table of the largest size may be overfull. */
    ghost predicate Valid()
      reads this, table
    {
      Rep() && nEntries == |view| && (primeIdx < LAST ==> nEntries <= loadLimit)
    }

    constructor (hash: K -> nat)
      ensures Valid() && view == map[] && fresh(table)
    {
      this.hash := hash;
      table := new seq<Elem<K>>[0];
      nEntries, loadLimit, primeIdx := 0, 0, -1;
      view := map[];
      new;
      AllNone(table[..]);
    }

    /** HT_GROW; `inPlace` when only reallocation has memory to give. */
    method Grow(size: nat, inPlace: bool)
      requires Rep() && (primeIdx == LAST || loadLimit > size || size < LoadLimit(PRIMES[LAST]))
      modifies this
      ensures Rep() && view == old(view) && nEntries == old(nEntries)
      ensures table == old(table) || fresh(table)
      ensures old(primeIdx) == LAST || old(loadLimit) > size ==> table == old(table) && primeIdx == old(primeIdx)
      ensures old(primeIdx) < LAST && old(loadLimit) <= size ==>
        && old(primeIdx) < primeIdx <= LAST && table.Length == PRIMES[primeIdx] && size < table.Length / 2
        && forall k | old(primeIdx) < k < primeIdx :: PRIMES[k] / 2 <= size
      ensures loadLimit == table.Length / 2
    {
      hide All, Placed, NextPrime;
      if primeIdx == LAST || loadLimit > size {
        return;
      }
      var newIdx := FindPrime(primeIdx, size);
      if 0 <= primeIdx {
        PrimesGrow(primeIdx, newIdx);
      }
      if inPlace {
        table := RehashInPlace(hash, table, PRIMES[newIdx]);
      } else {
        table := Rehash(hash, table, PRIMES[newIdx]);
      }
      primeIdx, loadLimit := newIdx, LoadLimit(PRIMES[newIdx]);
    }

    /** FIND_P: the bucket of a key and the place in it where the search stops. */
    method FindP(k: K) returns (b: nat, i: nat)
      requires Rep() && table.Length > 0
      ensures b == hash(k) % table.Length && i == Scan(table[b], k)
      ensures if k in view then i < |table[b]| && table[b][i] == view[k] else i == |table[b]|
    {
      hide All;
      b := hash(k) % table.Length;
      i := 0;
      var c := table[b];
      while i < |c| && c[i].key != k
        invariant i <= |c| && Scan(c, k) == i + Scan(c[i..], k)
      {
        i := i + 1;
      }
      ScanFinds(hash, table[..], view, k);
    }

    method Find(k: K) returns (r: Option<Elem<K>>)
      requires Rep()
      ensures r == if k in view then Some(view[k]) else None
    {
      hide All;
      if table.Length == 0 {
        EmptyView(table[..], view);
        return None;
      }
      var b, i := FindP(k);
      return if i < |table[b]| then Some(table[b][i]) else None;
    }

    /** Makes room for one element more when the table is full or not allocated. */
    method MakeRoom(inPlace: bool)
      requires Valid()
      modifies this
      ensures Valid() && view == old(view) && nEntries == old(nEntries)
      ensures table == old(table) || fresh(table)
      ensures table.Length > 0 && (primeIdx < LAST ==> nEntries < loadLimit)
      ensures loadLimit == table.Length / 2 && (old(nEntries) < old(table.Length) / 2 ==> table == old(table))
    {
      hide Placed, Holds;
      if 0 <= primeIdx < LAST {
        PrimesGrow(primeIdx, LAST);
      }
      if table.Length == 0 || nEntries >= loadLimit {
        Grow(nEntries + 1, inPlace);
      }
    }

    /** HT_INSERT, for an element whose key is not in the table. */
    method Insert(e: Elem<K>, inPlace: bool)
      requires Valid() && e.key !in view
      modifies this, table
      ensures Valid() && view == old(view)[e.key := e] && nEntries == old(nEntries) + 1
      ensures table == old(table) || fresh(table)
      ensures loadLimit == table.Length / 2 && (old(nEntries) < old(table.Length) / 2 ==> table == old(table))
    {
      hide All, Holds;
      MakeRoom(inPlace);
      nEntries := nEntries + 1;
      var b := hash(e.key) % table.Length;
      HoldsInsert(table[..], view, b, [e] + table[b], e);
      ghost var bs := table[..];
      table[b] := [e] + table[b];
      assert table[..] == bs[b := [e] + bs[b]];
      view := view[e.key := e];
    }

    /** HT_REPLACE. Replacing an element by itself counts it twice. */
    method Replace(e: Elem<K>, inPlace: bool) returns (r: Option<Elem<K>>)
      requires Valid()
      modifies this, table
      ensures Rep() && view == old(view)[e.key := e]
      ensures r == if e.key in old(view) && old(view)[e.key] != e then Some(old(view)[e.key]) else None
      ensures nEntries == old(nEntries) + if r.Some? then 0 else 1
      ensures Valid() <==> !(e.key in old(view) && old(view)[e.key] == e)
      ensures table == old(table) || fresh(table)
    {
      hide All, Holds, Scan;
      MakeRoom(inPlace);
      var b, i := FindP(e.key);
      ghost var bs := table[..];
      if i < |table[b]| {
        HoldsReplace(bs, view, b, i, e);
        var prior := table[b][i];
        table[b] := table[b][i := e];
        assert table[..] == bs[b := bs[b][i := e]];
        view := view[e.key := e];
        if prior != e {
          return Some(prior);
        }
      } else {
        HoldsInsert(bs, view, b, bs[b] + [e], e);
        table[b] := table[b] + [e];
        assert table[..] == bs[b := bs[b] + [e]];
        view := view[e.key := e];
      }
      nEntries := nEntries + 1;
      return None;
    }

    /** Takes element `i` out of bucket `b`. */
    method Unlink(b: nat, i: nat)
      requires Valid() && b < table.Length && i < |table[b]| && table[b][i] in view.Values
      modifies this, table
      ensures Valid() && view == old(view) - {old(table[b][i]).key}
      ensures table == old(table) && table[..] == old(table[..][b := table[b][..i] + table[b][i + 1..]])
    {
      hide All, Holds;
      var e := table[b][i];
      ghost var c := table[b];
      ghost var bs := table[..];
      InView(bs, view);
      assert c == c[..i] + [e] + c[i + 1..];
      HoldsRemove(bs, view, b, c[..i] + c[i + 1..], e);
      table[b] := table[b][..i] + table[b][i + 1..];
      assert table[..] == bs[b := c[..i] + c[i + 1..]];
      nEntries := nEntries - 1;
      view := view - {e.key};
    }

    /** HT_REMOVE */
    method Remove(k: K) returns (r: Option<Elem<K>>)
      requires Valid()
      modifies this, table
      ensures Valid() && view == old(view) - {k} && table == old(table)
      ensures r == if k in old(view) then Some(old(view)[k]) else None
    {
      hide All, Holds, Scan, Placed;
      if table.Length == 0 {
        EmptyView(table[..], view);
        return None;
      }
      var b, i := FindP(k);
      if i == |table[b]| {
        return None;
      }
      r := Some(table[b][i]);
      Unlink(b, i);
    }

    /** The scan shared by HT_START, HT_NEXT and HT_NEXT_RMV. */
    method FirstFrom(b0: nat) returns (r: Option<Pos>)
      requires b0 <= table.Length
      ensures At(table[..], r) && Rest(table[..], r) == Flat(table[..][b0..])
    {
      hide Flat;
      var b := b0;
      while b < table.Length
        invariant b0 <= b <= table.Length && Flat(table[..][b..]) == Flat(table[..][b0..])
      {
        FlatFrom(table[..], b);
        if table[b] != [] {
          return Some(Pos(b, 0));
        }
        b := b + 1;
      }
      FlatNone(table[..][b..]);
      return None;
    }

    method Start() returns (r: Option<Pos>)
      ensures At(table[..], r) && Rest(table[..], r) == Flat(table[..])
    {
      assert table[..][0..] == table[..];
      r := FirstFrom(0);
    }

    method Next(pos: Pos) returns (r: Option<Pos>)
      requires Rep() && At(table[..], Some(pos))
      ensures At(table[..], r) && [table[pos.bucket][pos.index]] + Rest(table[..], r) == Rest(table[..], Some(pos))
    {
      hide All, Flat, Holds, Placed, Rest, PRIMES;
      InPlace(hash, table[..], pos);
      RestNext(table[..], pos);
      if pos.index + 1 < |table[pos.bucket]| {
        return Some(Pos(pos.bucket, pos.index + 1));
      }
      r := FirstFrom(hash(table[pos.bucket][pos.index].key) % table.Length + 1);
    }

    /** Removes the element at a position and returns the next position. */
    method NextRmv(pos: Pos) returns (r: Option<Pos>)
      requires Valid() && At(table[..], Some(pos)) && table[pos.bucket][pos.index] in view.Values
      modifies this, table
      ensures Valid() && view == old(view) - {old(table[pos.bucket][pos.index]).key} && table == old(table)
      ensures At(table[..], r) && [old(table[pos.bucket][pos.index])] + Rest(table[..], r) == old(Rest(table[..], Some(pos)))
    {
      hide All, Flat, Holds;
      var e := table[pos.bucket][pos.index];
      assert table[..][pos.bucket][pos.index] == e;
      RestStep(table[..], pos);
      RestUnlink(table[..], pos);
      Unlink(pos.bucket, pos.index);
      if pos.index < |table[pos.bucket]| {
        return Some(pos);
      }
      r := FirstFrom(hash(e.key) % table.Length + 1);
    }

    /** HT_FOREACH visits every element once. */
    method Foreach() returns (visited: seq<Elem<K>>)
      requires Rep()
      ensures multiset(visited) == multiset(view.Values)
    {
      hide All, Flat, Placed;
      visited := [];
      FlatAll(table[..]);
      var pos := Start();
      while pos.Some?
        invariant At(table[..], pos) && visited + Rest(table[..], pos) == Flat(table[..])
        decreases |Rest(table[..], pos)|
      {
        var e := table[pos.value.bucket][pos.value.index];
        ghost var rest := Rest(table[..], pos);
        pos := Next(pos.value);
        Assoc(visited, [e], Rest(table[..], pos));
        visited := visited + [e];
      }
      assert visited + [] == visited;
    }

    /** Iteration that takes out, with HT_NEXT_RMV, the elements that `p` is true of. */
    method RemoveWhere(p: Elem<K> -> bool) returns (visited: seq<Elem<K>>)
      requires Valid()
      modifies this, table
      ensures Valid() && multiset(visited) == multiset(old(view).Values)
      ensures view == map k | k in old(view) && !p(old(view)[k]) :: old(view)[k]
    {
      hide All, Flat, Placed, Holds;
      visited := [];
      ghost var v := view;
      FlatAll(table[..]);
      InView(table[..], view);
      HoldsAll(table[..], view);
      ghost var flat := Flat(table[..]);
      WithoutNone(v, p);
      var pos := Start();
      while pos.Some?
        invariant Valid() && table == old(table) && v == old(view)
        invariant At(table[..], pos) && visited + Rest(table[..], pos) == flat
        invariant view == Without(v, visited, p)
        decreases |Rest(table[..], pos)|
      {
        var e := table[pos.value.bucket][pos.value.index];
        ghost var rest := Rest(table[..], pos);
        assert table[..][pos.value.bucket][pos.value.index] == e;
        ElemInView(table[..], view, pos.value);
        WithoutStep(v, visited, e, p);
        if p(e) {
          pos := NextRmv(pos.value);
        } else {
          pos := Next(pos.value);
        }
        Assoc(visited, [e], Rest(table[..], pos));
        visited := visited + [e];
      }
      assert visited + [] == visited;
      WithoutAll(v, visited, p);
    }

    /** What REP_IS_BAD looks for. */
    predicate RepLooksGood()
      reads this, table
    {
      if table.Length == 0 then nEntries == 0 && loadLimit == 0 && primeIdx == -1
      else
        && 0 <= primeIdx <= LAST && loadLimit != 0 && nEntries <= loadLimit
        && table.Length == PRIMES[primeIdx] && loadLimit == LoadLimit(table.Length)
        && Placed(hash, table[..]) && nEntries == |Flat(table[..])|
    }

    /** A valid table looks good unless it is overfull, which only a table of the
        largest size can be. */
    lemma ValidLooksGood()
      requires Valid()
      ensures RepLooksGood() <==> nEntries <= loadLimit
      ensures |view| <= LoadLimit(PRIMES[LAST]) ==> RepLooksGood()
    {
      hide All, Flat;
      var bs := table[..];
      FlatAll(bs);
      InView(bs, view);
      HoldsAll(bs, view);
      ViewSize(view);
      assert |multiset(Flat(bs))| == |Flat(bs)| && |multiset(view.Values)| == |view.Values|;
      if 0 <= primeIdx {
        LimitPositive(primeIdx);
      } else {
        FlatNone(bs);
      }
    }

    method RepIsBad() returns (r: nat)
      requires primeIdx <= LAST
      ensures r == 0 <==> RepLooksGood()
    {
      hide Flat;
      if table.Length == 0 {
        return if nEntries == 0 && loadLimit == 0 && primeIdx == -1 then 0 else 1;
      }
      if primeIdx < 0 || loadLimit == 0 {
        return 2;
      }
      if nEntries > loadLimit {
        return 3;
      }
      if table.Length != PRIMES[primeIdx] {
        return 4;
      }
      if loadLimit != LoadLimit(table.Length) {
        return 5;
      }
      var n, i := 0, 0;
      FlatNone<Elem<K>>([]);
      assert table[..][..0] == [];
      while i < table.Length
        invariant i <= table.Length && n == |Flat(table[..][..i])|
        invariant forall b {:trigger table[b]} | 0 <= b < i :: InBucket(hash, table[b], b, table.Length)
      {
        var k := 0;
        while k < |table[i]|
          invariant k <= |table[i]| && n == |Flat(table[..][..i])| + k
          invariant InBucket(hash, table[i][..k], i, table.Length)
        {
          if hash(table[i][k].key) % table.Length != i {
            assert !InBucket(hash, table[..][i], i, table.Length);
            return 10000 + i;
          }
          n, k := n + 1, k + 1;
        }
        assert table[i][..k] == table[i];
        FlatSnoc(table[..], i);
        i := i + 1;
      }
      assert table[..][..i] == table[..];
      return if n != nEntries then 6 else 0;
    }
  }

  lemma EmptyView<K>(bs: seq<seq<Elem<K>>>, view: map<K, Elem<K>>)
    requires Holds(bs, view) && bs == []
    ensures view == map[]
  {
    assert |multiset(view.Values)| == |view.Values|;
    ViewSize(view);
  }

  lemma InView<K>(bs: seq<seq<Elem<K>>>, view: map<K, Elem<K>>)
    requires Holds(bs, view)
    ensures forall k | k in view :: view[k].key == k
  {
  }

  /** A place in the table: a bucket and an index in it. */
  datatype Pos = Pos(bucket: nat, index: nat)

  predicate At<K>(bs: seq<seq<Elem<K>>>, pos: Option<Pos>) {
    pos.Some? ==> pos.value.bucket < |bs| && pos.value.index < |bs[pos.value.bucket]|
  }

  /** The elements from a position on. */
  ghost function Rest<K>(bs: seq<seq<Elem<K>>>, pos: Option<Pos>): seq<Elem<K>>
    requires At(bs, pos)
  {
    match pos
    case None => []
    case Some(Pos(b, i)) => bs[b][i..] + Flat(bs[b + 1..])
  }

  lemma FlatFrom<K>(bs: seq<seq<Elem<K>>>, b: nat)
    requires b < |bs|
    ensures Flat(bs[b..]) == bs[b] + Flat(bs[b + 1..])
    ensures bs[b] != [] ==> Rest(bs, Some(Pos(b, 0))) == Flat(bs[b..])
  {
    assert bs[b..][1..] == bs[b + 1..];
  }

  lemma InPlace<K>(hash: K -> nat, bs: seq<seq<Elem<K>>>, pos: Pos)
    requires Placed(hash, bs) && At(bs, Some(pos))
    ensures hash(bs[pos.bucket][pos.index].key) % |bs| == pos.bucket
  {
    assert InBucket(hash, bs[pos.bucket], pos.bucket, |bs|);
  }

  lemma RestStep<K>(bs: seq<seq<Elem<K>>>, pos: Pos)
    requires At(bs, Some(pos))
    ensures var Pos(b, i) := pos;
      Rest(bs, Some(pos)) == [bs[b][i]] + (bs[b][i + 1..] + Flat(bs[b + 1..]))
  {
    var Pos(b, i) := pos;
    assert bs[b][i..] == [bs[b][i]] + bs[b][i + 1..];
    Assoc([bs[b][i]], bs[b][i + 1..], Flat(bs[b + 1..]));
  }

  lemma RestNext<K>(bs: seq<seq<Elem<K>>>, pos: Pos)
    requires At(bs, Some(pos))
    ensures var Pos(b, i) := pos;
      if i + 1 < |bs[b]| then Rest(bs, Some(pos)) == [bs[b][i]] + Rest(bs, Some(Pos(b, i + 1)))
      else Rest(bs, Some(pos)) == [bs[b][i]] + Flat(bs[b + 1..])
  {
    hide Flat;
    var Pos(b, i) := pos;
    RestStep(bs, pos);
    assert i + 1 == |bs[b]| ==> bs[b][i + 1..] + Flat(bs[b + 1..]) == Flat(bs[b + 1..]);
  }

  lemma RestUnlink<K>(bs: seq<seq<Elem<K>>>, pos: Pos)
    requires At(bs, Some(pos))
    ensures var Pos(b, i) := pos;
      var less := bs[b := bs[b][..i] + bs[b][i + 1..]];
      less[b][i..] == bs[b][i + 1..] && less[b + 1..] == bs[b + 1..]
  {
  }

  lemma HoldsAll<K>(bs: seq<seq<Elem<K>>>, view: map<K, Elem<K>>)
    requires Holds(bs, view)
    ensures All(bs) == multiset(view.Values)
  {
  }

  lemma ElemInView<K>(bs: seq<seq<Elem<K>>>, view: map<K, Elem<K>>, pos: Pos)
    requires Holds(bs, view) && At(bs, Some(pos))
    ensures var e := bs[pos.bucket][pos.index]; e in view.Values && e.key in view && view[e.key] == e
  {
    AllIn(bs, pos.bucket, bs[pos.bucket][pos.index]);
    assert bs[pos.bucket][pos.index] in multiset(view.Values);
  }

  /** The map without the visited elements that `p` is true of. */
  ghost function Without<K>(v: map<K, Elem<K>>, visited: seq<Elem<K>>, p: Elem<K> -> bool): map<K, Elem<K>> {
    map k | k in v && !(v[k] in visited && p(v[k])) :: v[k]
  }

  lemma WithoutNone<K>(v: map<K, Elem<K>>, p: Elem<K> -> bool)
    ensures Without(v, [], p) == v
  {
  }

  lemma WithoutStep<K>(v: map<K, Elem<K>>, visited: seq<Elem<K>>, e: Elem<K>, p: Elem<K> -> bool)
    requires e.key in v && v[e.key] == e && forall k | k in v :: v[k].key == k
    ensures Without(v, visited + [e], p) == if p(e) then Without(v, visited, p) - {e.key} else Without(v, visited, p)
  {
  }

  lemma WithoutAll<K>(v: map<K, Elem<K>>, visited: seq<Elem<K>>, p: Elem<K> -> bool)
    requires multiset(visited) == multiset(v.Values)
    ensures Without(v, visited, p) == map k | k in v && !p(v[k]) :: v[k]
  {
    forall k | k in v
      ensures v[k] in visited
    {
      assert v[k] in multiset(visited);
    }
  }

  // Runs

  datatype Op<K> = FIND(key: K) | INSERT(elem: Elem<K>, inPlace: bool) | REPLACE(elem: Elem<K>, inPlace: bool) | REMOVE(key: K)

  /** What the finite map `m` answers to an operation. */
  function Lookup<K(==)>(m: map<K, Elem<K>>, k: K): Option<Elem<K>> {
    if k in m then Some(m[k]) else None
  }

  function Answer<K(==)>(m: map<K, Elem<K>>, op: Op<K>): Option<Elem<K>> {
    match op
    case FIND(k) => Lookup(m, k)
    case INSERT(_, _) => None
    case REPLACE(e, _) => Lookup(m, e.key)
    case REMOVE(k) => Lookup(m, k)
  }

  function Next<K(==)>(m: map<K, Elem<K>>, op: Op<K>): map<K, Elem<K>> {
    match op
    case FIND(_) => m
    case INSERT(e, _) => m[e.key := e]
    case REPLACE(e, _) => m[e.key := e]
    case REMOVE(k) => m - {k}
  }

  /** The caller keeps the rules: no insertion of a key that is there, no replacement of
      an element by itself. */
  predicate Allowed<K(==)>(m: map<K, Elem<K>>, ops: seq<Op<K>>)
    decreases |ops|
  {
    ops == []
    || ((match ops[0]
         case INSERT(e, _) => e.key !in m
         case REPLACE(e, _) => Lookup(m, e.key) != Some(e)
         case _ => true)
        && Allowed(Next(m, ops[0]), ops[1..]))
  }

  function Answers<K(==)>(m: map<K, Elem<K>>, ops: seq<Op<K>>): seq<Option<Elem<K>>>
    decreases |ops|
  {
    if ops == [] then [] else [Answer(m, ops[0])] + Answers(Next(m, ops[0]), ops[1..])
  }

  function Final<K(==)>(m: map<K, Elem<K>>, ops: seq<Op<K>>): map<K, Elem<K>>
    decreases |ops|
  {
    if ops == [] then m else Final(Next(m, ops[0]), ops[1..])
  }

  method Call<K(==)>(t: Table<K>, op: Op<K>) returns (r: Option<Elem<K>>)
    requires t.Valid() && Allowed(t.view, [op])
    modifies t, t.table
    ensures t.Valid() && t.view == Next(old(t.view), op) && r == Answer(old(t.view), op)
    ensures t.table == old(t.table) || fresh(t.table)
  {
    hide All, Holds, Placed, Scan;
    match op {
      case FIND(k) =>
        r := t.Find(k);
      case INSERT(e, inPlace) =>
        t.Insert(e, inPlace);
        r := None;
      case REPLACE(e, inPlace) =>
        r := t.Replace(e, inPlace);
      case REMOVE(k) =>
        r := t.Remove(k);
    }
  }

  /** Whatever the hash function and however the table grows, a run of operations gives
      the answers of a finite map, and the table looks good after it unless it holds more
      than the largest size is for. */
  method Run<K(==)>(hash: K -> nat, ops: seq<Op<K>>) returns (answers: seq<Option<Elem<K>>>, t: Table<K>)
    requires Allowed(map[], ops)
    ensures answers == Answers(map[], ops)
    ensures t.Valid() && t.view == Final(map[], ops)
    ensures |Final(map[], ops)| <= LoadLimit(PRIMES[LAST]) ==> t.RepLooksGood()
  {
    hide All, Holds, Placed, Scan;
    t := new Table(hash);
    answers := [];
    assert ops[0..] == ops;
    for i := 0 to |ops|
      invariant fresh(t) && fresh(t.table) && t.Valid() && Allowed(t.view, ops[i..])
      invariant answers + Answers(t.view, ops[i..]) == Answers(map[], ops)
      invariant Final(t.view, ops[i..]) == Final(map[], ops)
    {
      assert ops[i..][0] == ops[i] && ops[i..][1..] == ops[i + 1..];
      assert [ops[i]][1..] == [];
      var r := Call(t, ops[i]);
      Assoc(answers, [r], Answers(t.view, ops[i + 1..]));
      answers := answers + [r];
    }
    t.ValidLooksGood();
  }

  /** A table with one element that counts two. */
  method ReplaceTwice<K(==)>(hash: K -> nat, e: Elem<K>) returns (t: Table<K>)
    ensures t.view == map[e.key := e] && t.nEntries == 2
  {
    t := new Table(hash);
    t.Insert(e, false);
    var r := t.Replace(e, false);
  }
}
