/** Sequences of sequences: the buckets of a table. */
module Buckets {
  import opened Bytes

  /** All elements of some buckets. */
  ghost function All<T>(bs: seq<seq<T>>): multiset<T> {
    if bs == [] then multiset{} else multiset(bs[0]) + All(bs[1..])
  }

  lemma UnionAssoc<T>(x: multiset<T>, y: multiset<T>, z: multiset<T>)
    ensures x + y + z == x + (y + z)
  {
  }

  lemma {:induction false} AllConcat<T>(a: seq<seq<T>>, b: seq<seq<T>>)
    ensures All(a + b) == All(a) + All(b)
  {
    if a == [] {
      assert a + b == b;
    } else {
      assert (a + b)[0] == a[0] && (a + b)[1..] == a[1..] + b;
      calc {
        All(a + b);
        multiset(a[0]) + All(a[1..] + b);
        { AllConcat(a[1..], b); }
        multiset(a[0]) + (All(a[1..]) + All(b));
        { UnionAssoc(multiset(a[0]), All(a[1..]), All(b)); }
        All(a) + All(b);
      }
    }
  }

  lemma AllSplit<T>(bs: seq<seq<T>>, b: nat)
    requires b < |bs|
    ensures All(bs) == All(bs[..b]) + multiset(bs[b]) + All(bs[b + 1..])
  {
    AllConcat(bs[..b], bs[b..]);
    assert bs == bs[..b] + bs[b..] && bs[b..][1..] == bs[b + 1..];
  }

  lemma AllUpdate<T>(bs: seq<seq<T>>, b: nat, x: seq<T>)
    requires b < |bs|
    ensures All(bs[b := x]) + multiset(bs[b]) == All(bs) + multiset(x)
  {
    AllSplit(bs, b);
    AllSplit(bs[b := x], b);
    assert bs[b := x][..b] == bs[..b] && bs[b := x][b + 1..] == bs[b + 1..];
  }

  lemma {:induction false} AllIn<T>(bs: seq<seq<T>>, b: nat, e: T)
    requires b < |bs|
    ensures e in bs[b] ==> e in All(bs)
  {
    AllSplit(bs, b);
  }

  lemma {:induction false} AllFrom<T>(bs: seq<seq<T>>, e: T) returns (b: nat)
    requires e in All(bs)
    ensures b < |bs| && e in bs[b]
  {
    if e in bs[0] {
      b := 0;
    } else {
      b := AllFrom(bs[1..], e);
      b := b + 1;
    }
  }

  lemma {:induction false} AllNone<T>(bs: seq<seq<T>>)
    requires forall b | 0 <= b < |bs| :: bs[b] == []
    ensures All(bs) == multiset{}
  {
    if bs != [] {
      AllNone(bs[1..]);
    }
  }

  /** Moving the first element of `c` to the front of a bucket. */
  lemma MoveOne<T>(bs: seq<seq<T>>, c: seq<T>, b: nat)
    requires c != [] && b < |bs|
    ensures All(bs[b := [c[0]] + bs[b]]) + multiset(c[1..]) == All(bs) + multiset(c)
  {
    var x := [c[0]] + bs[b];
    AllUpdate(bs, b, x);
    assert c == [c[0]] + c[1..];
    assert multiset(x) == multiset{c[0]} + multiset(bs[b]);
    assert multiset(c) == multiset{c[0]} + multiset(c[1..]);
    Regroup(All(bs[b := x]), multiset(bs[b]), All(bs), multiset{c[0]}, multiset(c[1..]));
  }

  lemma Regroup<T>(p: multiset<T>, x: multiset<T>, q: multiset<T>, e: multiset<T>, rest: multiset<T>)
    requires p + x == q + (e + x)
    ensures p + rest == q + (e + rest)
  {
    assert p == q + e by {
      forall t: T
        ensures p[t] == (q + e)[t]
      {
        assert (p + x)[t] == (q + (e + x))[t];
      }
    }
    UnionAssoc(q, e, rest);
  }

  lemma Drop<T>(p: multiset<T>, x: multiset<T>, q: multiset<T>, e: multiset<T>)
    requires p + x == q + (x + e)
    ensures p == q + e
  {
    forall t: T
      ensures p[t] == (q + e)[t]
    {
      assert (p + x)[t] == (q + (x + e))[t];
    }
  }

  lemma Exchange<T>(all: multiset<T>, less: multiset<T>, now: multiset<T>, rest: multiset<T>, e: multiset<T>, x: multiset<T>)
    requires less + (rest + e) == all + rest && now + x == less + (e + x)
    ensures now == all
  {
    forall t: T
      ensures now[t] == all[t]
    {
      assert (less + (rest + e))[t] == (all + rest)[t];
      assert (now + x)[t] == (less + (e + x))[t];
    }
  }

  lemma Cancel<T>(p: multiset<T>, q: multiset<T>, e: multiset<T>)
    requires p + e == q + e
    ensures p == q
  {
    forall t: T
      ensures p[t] == q[t]
    {
      assert (p + e)[t] == (q + e)[t];
    }
  }

  function Flat<T>(bs: seq<seq<T>>): seq<T> {
    if bs == [] then [] else bs[0] + Flat(bs[1..])
  }

  lemma FlatNone<T>(bs: seq<seq<T>>)
    ensures bs == [] ==> Flat(bs) == []
  {
  }

  lemma {:induction false} FlatConcat<T>(a: seq<seq<T>>, b: seq<seq<T>>)
    ensures Flat(a + b) == Flat(a) + Flat(b)
  {
    if a == [] {
      assert a + b == b;
    } else {
      FlatConcat(a[1..], b);
      assert (a + b)[1..] == a[1..] + b;
      Assoc(a[0], Flat(a[1..]), Flat(b));
    }
  }

  lemma FlatSnoc<T>(bs: seq<seq<T>>, i: nat)
    requires i < |bs|
    ensures Flat(bs[..i + 1]) == Flat(bs[..i]) + bs[i]
  {
    assert bs[..i + 1] == bs[..i] + [bs[i]];
    FlatConcat(bs[..i], [bs[i]]);
    assert [bs[i]][1..] == [];
  }

  lemma {:induction false} FlatAll<T>(bs: seq<seq<T>>)
    ensures multiset(Flat(bs)) == All(bs)
  {
    if bs != [] {
      FlatAll(bs[1..]);
      assert multiset(bs[0] + Flat(bs[1..])) == multiset(bs[0]) + multiset(Flat(bs[1..]));
    }
  }

  /** A bucket gains one element. */
  lemma AllGain<T>(bs: seq<seq<T>>, b: nat, x: seq<T>, e: T)
    requires b < |bs| && multiset(x) == multiset(bs[b]) + multiset{e}
    ensures All(bs[b := x]) == All(bs) + multiset{e}
  {
    AllUpdate(bs, b, x);
    Drop(All(bs[b := x]), multiset(bs[b]), All(bs), multiset{e});
  }

  /** A bucket loses one element. */
  lemma AllLose<T>(bs: seq<seq<T>>, b: nat, x: seq<T>, e: T)
    requires b < |bs| && multiset(bs[b]) == multiset(x) + multiset{e}
    ensures All(bs) == All(bs[b := x]) + multiset{e}
  {
    AllUpdate(bs, b, x);
    Drop(All(bs), multiset(x), All(bs[b := x]), multiset{e});
  }

  lemma TakenOut<T>(c: seq<T>, i: nat)
    requires i < |c|
    ensures multiset(c) == multiset(c[..i] + c[i + 1..]) + multiset{c[i]}
  {
    assert c == c[..i] + [c[i]] + c[i + 1..];
  }
}
