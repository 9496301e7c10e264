/** The evbuffer: a byte queue kept as a linked list of partly filled chains. */
module EvBuffers {
  import opened Bytes
  import opened Chains

  ghost predicate EmptyFrom(cs: seq<Chain>, k: nat) {
    forall i {:trigger cs[i].off} | k <= i < |cs| :: cs[i].off == 0
  }

  /** `slot` is the last chain with data, or the first chain when all are empty. */
  ghost predicate LastWithData(cs: seq<Chain>, slot: nat) {
    && EmptyFrom(cs, slot + 1)
    && (0 < slot < |cs| ==> cs[slot].off > 0)
  }

  /** The slot finds the last chain of all, no chain before it is empty, and
      every chain may be written. */
  ghost predicate Compact(cs: seq<Chain>, slot: nat) {
    && (cs != [] ==> slot == |cs| - 1)
    && (forall i {:trigger cs[i].off} | 0 <= i < |cs| - 1 :: cs[i].off > 0)
    && (forall i {:trigger cs[i].immutable} | 0 <= i < |cs| :: !cs[i].immutable)
  }

  /** Every chain has data and may be written. */
  ghost predicate Packed(cs: seq<Chain>) {
    && (forall i {:trigger cs[i].off} | 0 <= i < |cs| :: cs[i].off > 0)
    && (forall i {:trigger cs[i].immutable} | 0 <= i < |cs| :: !cs[i].immutable)
  }

  /** `v` is the first empty chain from number `k` on. */
  ghost predicate IsVictim(cs: seq<Chain>, k: nat, v: nat) {
    && k <= v <= |cs|
    && (forall i {:trigger cs[i].off} | k <= i < v :: cs[i].off > 0)
    && (v < |cs| ==> cs[v].off == 0)
  }

  /** Changing one chain changes just its bytes. */
  lemma UpdateContent(cs: seq<Chain>, k: nat, c: Chain)
    requires k < |cs|
    ensures Content(cs[k := c]) == Content(cs[..k]) + Data(c) + Content(cs[k + 1..])
    ensures Content(cs) == Content(cs[..k]) + Data(cs[k]) + Content(cs[k + 1..])
  {
    forall ds | ds == cs || ds == cs[k := c]
      ensures Content(ds) == Content(cs[..k]) + Data(ds[k]) + Content(cs[k + 1..])
    {
      ContentSplit(ds, k + 1);
      ContentAt(ds, k);
      assert ds[..k] == cs[..k] && ds[k + 1..] == cs[k + 1..];
    }
  }

  lemma GrowLastContent(cs: seq<Chain>, c: Chain, d: seq<byte>)
    requires cs != [] && Data(c) == Data(cs[|cs| - 1]) + d
    ensures Content(cs[|cs| - 1 := c]) == Content(cs) + d
  {
    var k := |cs| - 1;
    UpdateContent(cs, k, c);
    assert cs[k + 1..] == [];
    Assoc(Content(cs[..k]), Data(cs[k]), d);
  }

  /** evbuffer_add can put `n` bytes into the last chain. */
  ghost predicate FitsLast(cs: seq<Chain>, n: nat)
    requires cs != []
  {
    var c := cs[|cs| - 1];
    !c.immutable && (n <= SpaceLen(c) || ShouldRealign(c, n))
  }

  /** Spilling into a new chain, after the last chain has `grown` or not, finds
      the grown chain among those it takes for empty. */
  ghost predicate SpillAborts(cs: seq<Chain>, slot: nat, grown: bool)
    requires slot < |cs|
  {
    slot < |cs| - 1 && grown && !(cs[slot].off > 0 && slot + 2 == |cs|)
  }

  /** Spilling leaves the slot at the last chain with data. */
  ghost predicate SpillTracks(cs: seq<Chain>, slot: nat, grown: bool)
    requires slot < |cs|
  {
    slot == |cs| - 1 || if grown then cs[slot].off > 0 else cs[slot].off == 0
  }

  /** The states and sizes for which evbuffer_add fails an assertion. */
  ghost predicate AddAborts(cs: seq<Chain>, slot: nat, n: nat)
    requires slot < |cs| || cs == []
  {
    cs != [] && !FitsLast(cs, n) && SpillAborts(cs, slot, SpaceLen(cs[|cs| - 1]) > 0)
  }

  /** The states and sizes for which evbuffer_add keeps track of the last chain
      with data. */
  ghost predicate AddTracks(cs: seq<Chain>, slot: nat, n: nat)
    requires slot < |cs| || cs == []
  {
    || cs == [] || n == 0
    || if FitsLast(cs, n) then slot == |cs| - 1 else SpillTracks(cs, slot, SpaceLen(cs[|cs| - 1]) > 0)
  }

  /** The chain behind the slot is empty, but not all behind it are. */
  ghost predicate Gapped(cs: seq<Chain>, slot: nat) {
    slot + 1 < |cs| && cs[slot + 1].off == 0 && !EmptyFrom(cs, slot + 1)
  }

  /** Buffers that keep the invariant, and sizes, for which evbuffer_add loses track of
      the last chain with data, and for which it fails an assertion. */
  lemma AddFails() returns (loses: seq<Chain>, aborts: seq<Chain>)
    ensures LastWithData(loses, 0) && loses != [] && !AddTracks(loses, 0, 10)
    ensures LastWithData(aborts, 0) && aborts != [] && AddAborts(aborts, 0, 2000)
  {
    var b: seq<byte> := seq(976, _ => 0);
    loses := [Chain(b, 0, 1, false), Chain(b, 0, 0, false)];
    aborts := loses + [Chain(b, 0, 0, false)];
  }

  /** Adding nothing behind a read-only chain puts an empty chain there, and adding a byte
      then loses the slot. */
  lemma NothingLoses() returns (cs: seq<Chain>, empty: Chain)
    ensures LastWithData(cs, 0) && |cs| == 1 && !FitsLast(cs, 0) && !AddAborts(cs, 0, 0) && AddTracks(cs, 0, 0)
    ensures empty.off == 0 && LastWithData(cs + [empty], 0) && !AddTracks(cs + [empty], 0, 1)
  {
    cs, empty := [Chain([0], 0, 1, true)], Chain([0], 0, 0, false);
  }

  /** The list `es` and the slot `k` after `filled` took the place of the last
      chain of `cs` and `c` was inserted at `v`. */
  lemma SpillShape(cs: seq<Chain>, slot: nat, filled: Chain, ds: seq<Chain>, v: nat, c: Chain, es: seq<Chain>, k: nat)
    requires slot < |cs| && LastWithData(cs, slot)
    requires filled.off >= cs[|cs| - 1].off
    requires filled.off > cs[|cs| - 1].off ==> c.off > 0
    requires ds == cs[|cs| - 1 := filled] && IsVictim(ds, slot, v) && es == ds[..v] + [c]
    requires k == if c.off > 0 && v == |cs| then v else slot
    ensures EmptyFrom(ds, v) ==>
      (LastWithData(es, k) <==> c.off == 0 || SpillTracks(cs, slot, filled.off > cs[|cs| - 1].off))
    ensures EmptyFrom(ds, v) <==> !SpillAborts(cs, slot, filled.off > cs[|cs| - 1].off)
    ensures Compact(ds, slot) && !c.immutable && c.off > 0 ==> Compact(es, k)
  {
    assert es[|es| - 1] == c && ds[|cs| - 1] == filled;
    if slot < |cs| - 1 && cs[slot].off > 0 {
      assert ds[slot + 1].off == 0 || slot + 2 == |cs|;
      assert v > slot;
    }
  }

  /** A gap stays when the last chain grows, and a new chain is then put over it. */
  lemma GapShape(cs: seq<Chain>, slot: nat, c: Chain, v: nat)
    requires Gapped(cs, slot) && c.off >= cs[|cs| - 1].off
    ensures Gapped(cs[|cs| - 1 := c], slot) && !LastWithData(cs[|cs| - 1 := c], slot)
    ensures IsVictim(cs[|cs| - 1 := c], slot, v) ==> !EmptyFrom(cs[|cs| - 1 := c], v)
  {
    var ds := cs[|cs| - 1 := c];
    var i :| slot + 1 <= i < |cs| && cs[i].off != 0;
    assert ds[i].off > 0 && ds[slot + 1].off == 0;
  }

  lemma GrowFirstContent(cs: seq<Chain>, c: Chain, d: seq<byte>)
    requires cs != [] && Data(c) == d + Data(cs[0])
    ensures Content(cs[0 := c]) == d + Content(cs)
  {
    UpdateContent(cs, 0, c);
    assert cs[..0] == [];
    Assoc(d, Data(cs[0]), Content(cs[1..]));
  }

  /** An empty chain counts as empty at the end: all its room is in front. */
  function FrontRoom(c: Chain): (r: Chain)
    requires !c.immutable
    ensures Data(r) == Data(c) && !r.immutable
    ensures c.off == 0 ==> r.misalign > 0
  {
    if c.off == 0 then c.(misalign := |c.buffer|) else c
  }

  /** What evbuffer_prepend adds to the count of bytes added: it leaves out the
      bytes that go to a new chain. */
  ghost function PrependCounted(cs: seq<Chain>, n: nat): nat {
    if cs == [] then n
    else if cs[0].immutable then cs[0].misalign
    else if n <= FrontRoom(cs[0]).misalign then n
    else FrontRoom(cs[0]).misalign
  }

  /** The count is right exactly if no new chain is made, or the room in front of a
      read-only chain happens to be the size of the data. */
  lemma PrependCounts(cs: seq<Chain>, n: nat)
    ensures PrependCounted(cs, n) == n <==>
      cs == [] || (if cs[0].immutable then cs[0].misalign == n else n <= FrontRoom(cs[0]).misalign)
  {
  }

  /** The states in which evbuffer_prepend keeps track of the last chain with
      data. */
  ghost predicate PrependTracks(cs: seq<Chain>, slot: nat) {
    !(cs != [] && cs[0].immutable && cs[0].off == 0 && slot == 0)
  }

  /** A buffer with a read-only chain that is empty, whose slot is lost when bytes are put
      in front. */
  lemma PrependLoses() returns (cs: seq<Chain>)
    ensures LastWithData(cs, 0) && cs != [] && !PrependTracks(cs, 0)
  {
    cs := [Chain([0], 1, 0, true)];
  }

  /** A buffer for which ten bytes are put in front and one is counted. */
  lemma PrependMiscounts() returns (cs: seq<Chain>)
    ensures LastWithData(cs, 0) && cs != [] && PrependTracks(cs, 0) && PrependCounted(cs, 10) == 1
  {
    var b: seq<byte> := seq(976, _ => 0);
    cs := [Chain(b, 1, 5, false)];
  }

  /** The list after the first chain became `first`, and after `c` then went
      before it. */
  lemma PrependShape(cs: seq<Chain>, slot: nat, first: Chain, c: Chain)
    requires slot < |cs| && LastWithData(cs, slot) && first.off >= cs[0].off
    ensures var ds := cs[0 := first];
      && LastWithData(ds, slot)
      && (LastWithData([c] + ds, slot + 1) <==> slot > 0 || first.off > 0)
      && (Compact(cs, slot) && !first.immutable ==> Compact(ds, slot))
      && (Compact(cs, slot) && !first.immutable && !c.immutable && c.off > 0 && first.off > 0 ==>
           Compact([c] + ds, slot + 1))
  {
    var ds := cs[0 := first];
    assert forall i | 0 <= i < |ds| :: ([c] + ds)[i + 1] == ds[i];
    assert forall i | 1 <= i < |ds| + 1 :: ([c] + ds)[i] == ds[i - 1];
  }

  lemma GrowShape(cs: seq<Chain>, slot: nat, c: Chain)
    requires slot < |cs| && LastWithData(cs, slot) && c.off > cs[|cs| - 1].off
    ensures LastWithData(cs[|cs| - 1 := c], slot) <==> slot == |cs| - 1
    ensures Compact(cs, slot) && !c.immutable ==> Compact(cs[|cs| - 1 := c], slot)
  {
    assert cs[|cs| - 1 := c][|cs| - 1] == c;
  }

  /** All data is in the chains up to the last one with data. */
  lemma NoDataAfter(cs: seq<Chain>, slot: nat)
    requires slot < |cs| && LastWithData(cs, slot)
    ensures Content(cs[..slot + 1]) == Content(cs)
  {
    assert AllEmpty(cs[slot + 1..]);
    ContentEmpty(cs[slot + 1..]);
    ContentSplit(cs, slot + 1);
  }

  /** What is left after `k` whole chains and `n` bytes of the next are gone. */
  lemma DrainContent(cs: seq<Chain>, k: nat, n: nat)
    requires k < |cs| && n <= cs[k].off
    ensures |Content(cs[..k])| + n <= |Content(cs)|
    ensures Content([TrimFront(cs[k], n)] + cs[k + 1..]) == Content(cs)[|Content(cs[..k])| + n..]
  {
    var c := TrimFront(cs[k], n);
    assert Content([c] + cs[k + 1..]) == Data(c) + Content(cs[k + 1..]) by {
      ContentAppend([c], cs[k + 1..]);
      ContentOne(c);
    }
    assert Content(cs) == Content(cs[..k]) + (Data(cs[k]) + Content(cs[k + 1..])) by {
      ContentSplit(cs, k);
      ContentAt(cs, k);
    }
    DropInto(Content(cs[..k]), Data(cs[k]), Content(cs[k + 1..]), n);
  }

  lemma DrainShape(cs: seq<Chain>, slot: nat, k: nat, n: nat)
    requires LastWithData(cs, slot) && k <= slot < |cs| && n < cs[k].off
    ensures LastWithData([TrimFront(cs[k], n)] + cs[k + 1..], slot - k)
    ensures Compact(cs, slot) ==> Compact([TrimFront(cs[k], n)] + cs[k + 1..], slot - k)
  {
    var ds := [TrimFront(cs[k], n)] + cs[k + 1..];
    assert forall i | 1 <= i < |ds| :: ds[i] == cs[i + k];
  }

  /** The first `k` chains and `n` bytes of the next are a prefix of the whole. */
  lemma CopyContent(cs: seq<Chain>, k: nat, n: nat)
    requires k < |cs| && n <= cs[k].off
    ensures |Content(cs[..k])| + n <= |Content(cs)|
    ensures Content(cs[..k]) + Data(cs[k])[..n] == Content(cs)[..|Content(cs[..k])| + n]
  {
    assert Content(cs) == Content(cs[..k]) + (Data(cs[k]) + Content(cs[k + 1..])) by {
      ContentSplit(cs, k);
      ContentAt(cs, k);
    }
    TakeInto(Content(cs[..k]), Data(cs[k]), Content(cs[k + 1..]), n);
  }

  /** A list with data has data where the slot leads. */
  lemma SomeData(cs: seq<Chain>, slot: nat)
    requires LastWithData(cs, slot) && (cs != [] ==> slot < |cs|)
    requires |Content(cs)| > 0
    ensures cs != [] && cs[slot].off > 0
  {
    if cs == [] || cs[slot].off == 0 {
      ContentEmpty(cs);
    }
  }

  lemma AppendShape(cs: seq<Chain>, ds: seq<Chain>, slot: nat)
    requires slot < |ds| && LastWithData(ds, slot) && ds[slot].off > 0
    ensures LastWithData(cs + ds, |cs| + slot)
  {
    assert forall i | |cs| <= i < |cs| + |ds| :: (cs + ds)[i] == ds[i - |cs|];
  }

  lemma CompactAppend(cs: seq<Chain>, j: nat, ds: seq<Chain>, k: nat)
    requires LastWithData(cs, j) && LastWithData(ds, k) && (cs != [] ==> j < |cs|) && (ds != [] ==> k < |ds|)
    requires |Content(cs)| > 0 && |Content(ds)| > 0
    requires Compact(cs, j) && Compact(ds, k)
    ensures Compact(cs + ds, |cs| + k)
  {
    SomeData(cs, j);
    assert forall i | |cs| <= i < |cs| + |ds| :: (cs + ds)[i] == ds[i - |cs|];
  }

  /** The slot moved from `j` over chains with data, as far as it could. */
  ghost predicate IsAdvance(cs: seq<Chain>, j: nat, k: nat) {
    && j <= k
    && (forall i {:trigger cs[i].off} | j < i <= k && i < |cs| :: cs[i].off > 0)
    && (cs != [] ==> k < |cs|)
    && (k + 1 < |cs| ==> cs[k + 1].off == 0)
    && (cs == [] ==> j == k)
  }

  lemma CutTail(cs: seq<Chain>, v: nat)
    requires v <= |cs| && EmptyFrom(cs, v)
    ensures Content(cs[..v]) == Content(cs)
  {
    ContentSplit(cs, v);
    assert AllEmpty(cs[v..]);
    ContentEmpty(cs[v..]);
  }

  /** What evbuffer_free_trailing_empty_chains leaves. */
  function Trimmed(ds: seq<Chain>, slot: nat): seq<Chain>
    requires slot < |ds| || ds == []
  {
    if slot < |ds| && ds[slot].off > 0 then ds[..slot + 1] else ds[..if ds == [] then 0 else slot]
  }

  lemma VictimTrims(ds: seq<Chain>, slot: nat, v: nat)
    requires LastWithData(ds, slot) && (if ds == [] then slot == 0 else slot < |ds|) && IsVictim(ds, slot, v)
    ensures ds[..v] == Trimmed(ds, slot)
  {
    if slot + 1 < |ds| {
      assert ds[slot + 1].off == 0;
    }
  }

  /** After the empty end of `ds` gave way to `cs`, the slot advances to the end of the
      data, or to a gap. */
  lemma ReceiveShape(ds: seq<Chain>, slot: nat, cs: seq<Chain>, k: nat)
    requires LastWithData(ds, slot) && (if ds == [] then slot == 0 else slot < |ds|) && cs != []
    requires IsAdvance(Trimmed(ds, slot) + cs, slot, k)
    ensures LastWithData(Trimmed(ds, slot) + cs, k) || Gapped(Trimmed(ds, slot) + cs, k)
    ensures (forall i {:trigger cs[i].off} | 0 <= i < |cs| :: cs[i].off > 0) ==>
      k == |Trimmed(ds, slot) + cs| - 1 && LastWithData(Trimmed(ds, slot) + cs, k)
    ensures Compact(ds, slot) && Packed(cs) ==> Compact(Trimmed(ds, slot) + cs, k)
  {
    var v, es := |Trimmed(ds, slot)|, Trimmed(ds, slot) + cs;
    assert forall i | v <= i < |es| :: es[i] == cs[i - v];
    assert slot > 0 ==> es[slot].off > 0;
  }

  /** No empty chain precedes the last one with data. */
  ghost predicate NoGaps(cs: seq<Chain>, slot: nat) {
    forall i {:trigger cs[i].off} | 0 <= i < slot && i < |cs| :: cs[i].off > 0
  }

  ghost predicate AtEnd(cs: seq<Chain>, slot: nat) {
    cs != [] ==> slot == |cs| - 1
  }

  /** The first chain can hold the first `n` bytes without a new allocation. */
  ghost predicate OneChainHolds(cs: seq<Chain>, n: nat) {
    cs != [] && |cs[0].buffer| - cs[0].misalign >= n
  }

  lemma FirstContent(cs: seq<Chain>, n: nat)
    requires cs != [] && n <= cs[0].off
    ensures n <= |Content(cs)| && Data(cs[0])[..n] == Content(cs)[..n]
  {
    CopyContent(cs, 0, n);
    assert cs[..0] == [];
  }

  /** `t` in place of the first `k` chains; `n` bytes less in the next one. */
  function Pulled(cs: seq<Chain>, k: nat, n: nat, t: Chain): seq<Chain>
    requires k < |cs| ==> n <= cs[k].off
  {
    if k < |cs| then [t] + [TrimFront(cs[k], n)] + cs[k + 1..] else [t]
  }

  lemma PullContentPart(cs: seq<Chain>, k: nat, n: nat, u: Chain)
    requires k < |cs| && n <= cs[k].off && Data(u) == Content(cs[..k]) + Data(cs[k])[..n]
    ensures Content(Pulled(cs, k, n, u)) == Content(cs)
  {
    var rest := [TrimFront(cs[k], n)] + cs[k + 1..];
    DrainContent(cs, k, n);
    CopyContent(cs, k, n);
    assert Content([u] + rest) == Data(u) + Content(rest) by {
      ContentAppend([u], rest);
      ContentOne(u);
    }
    TakeDrop(Content(cs), |Content(cs[..k])| + n);
    assert [u] + [TrimFront(cs[k], n)] + cs[k + 1..] == [u] + rest;
  }

  lemma PullContent(cs: seq<Chain>, k: nat, n: nat, t: Chain)
    requires k <= |cs| && Data(t) == Content(cs[..k]) && (k < |cs| ==> n <= cs[k].off)
    ensures k == |cs| ==> Content(Pulled(cs, k, n, t)) == Content(cs)
    ensures k < |cs| ==> forall u: Chain | Data(u) == Data(t) + Data(cs[k])[..n] ::
      Content(Pulled(cs, k, n, u)) == Content(cs)
  {
    if k == |cs| {
      ContentOne(t);
      assert cs[..k] == cs;
    } else {
      forall u: Chain | Data(u) == Data(t) + Data(cs[k])[..n]
        ensures Content(Pulled(cs, k, n, u)) == Content(cs)
      {
        PullContentPart(cs, k, n, u);
      }
    }
  }

  lemma PullShape(cs: seq<Chain>, slot: nat, k: nat, n: nat, t: Chain)
    requires slot < |cs| && LastWithData(cs, slot) && 1 <= k <= |cs|
    requires k < |cs| ==> n < cs[k].off
    ensures slot < k ==> k == |cs|
    ensures LastWithData(Pulled(cs, k, n, t), if slot < k then 0 else slot + 1 - k)
    ensures t.off > 0 && !t.immutable && Compact(cs, slot) ==>
      Compact(Pulled(cs, k, n, t), if slot < k then 0 else slot + 1 - k)
  {
    var ds := Pulled(cs, k, n, t);
    assert k < |cs| ==> forall i | 2 <= i < |ds| :: ds[i] == cs[i + k - 1];
    assert k < |cs| ==> cs[k].off > 0;
  }

  /** Done; refused without effect; or stopped by a failed assertion. */
  datatype Outcome = Done | Refused | Aborted

  lemma CutEmptyTail(cs: seq<Chain>, v: nat, c: Chain)
    requires v <= |cs| && EmptyFrom(cs, v)
    ensures Content(cs[..v] + [c]) == Content(cs) + Data(c)
  {
    assert Content(cs) == Content(cs[..v]) by {
      ContentSplit(cs, v);
      assert AllEmpty(cs[v..]);
      ContentEmpty(cs[v..]);
    }
    ContentAppend(cs[..v], [c]);
    ContentOne(c);
  }

  /** The first `k` chains, and no more, hold no more than `n` bytes. */
  ghost predicate IsWhole(cs: seq<Chain>, k: nat, n: nat) {
    k < |cs| && |Content(cs[..k])| <= n < |Content(cs[..k])| + cs[k].off
  }

  /** The chains of a buffer when it has taken over `cs`, which it does if they have data. */
  ghost function Taken(ds: seq<Chain>, slot: nat, cs: seq<Chain>): seq<Chain>
    requires slot < |ds| || ds == []
  {
    if Content(cs) == [] then ds else Trimmed(ds, slot) + cs
  }

  /** `s` is where the slot of the buffer is then. */
  ghost predicate IsTaken(ds: seq<Chain>, slot: nat, cs: seq<Chain>, s: nat)
    requires slot < |ds| || ds == []
  {
    if Content(cs) == [] then s == slot else IsAdvance(Taken(ds, slot, cs), slot, s) && s < |Taken(ds, slot, cs)|
  }

  /** The rest cannot be added without meeting chains that are not empty. */
  ghost predicate TakeAborts(ds: seq<Chain>, slot: nat, cs: seq<Chain>, s: nat, left: nat)
    requires (slot < |ds| || ds == []) && IsTaken(ds, slot, cs, s)
  {
    var es := Taken(ds, slot, cs);
    if LastWithData(es, s) then AddAborts(es, s, left) else es != [] && !FitsLast(es, left)
  }

  ghost predicate TakeTracks(ds: seq<Chain>, slot: nat, cs: seq<Chain>, s: nat, left: nat)
    requires (slot < |ds| || ds == []) && IsTaken(ds, slot, cs, s)
  {
    LastWithData(Taken(ds, slot, cs), s) && AddTracks(Taken(ds, slot, cs), s, left)
  }

  lemma FirstEmpty(cs: seq<Chain>, k: nat)
    requires 0 < k <= |cs| && Content(cs[..k]) == []
    ensures cs[0].off == 0
  {
    assert Content(cs[..k]) == Data(cs[0]) + Content(cs[..k][1..]);
  }

  lemma AtEndAdds(cs: seq<Chain>, slot: nat, n: nat)
    requires slot < |cs| || cs == []
    ensures AtEnd(cs, slot) ==> !AddAborts(cs, slot, n) && AddTracks(cs, slot, n)
  {
  }

  /** Nothing goes wrong if no empty chain precedes data in the one buffer, and the slot of
      the other is at its end. */
  lemma RemoveKeeps(cs: seq<Chain>, slot: nat, ds: seq<Chain>, dslot: nat, k: nat, n: nat, s: nat)
    requires slot < |cs| && LastWithData(cs, slot) && NoGaps(cs, slot) && IsWhole(cs, k, n)
    requires LastWithData(ds, dslot) && AtEnd(ds, dslot) && (if ds == [] then dslot == 0 else dslot < |ds|)
    requires IsTaken(ds, dslot, cs[..k], s)
    ensures Content(cs[..k]) != [] || !(0 < k == slot)
    ensures !TakeAborts(ds, dslot, cs[..k], s, n - |Content(cs[..k])|) && TakeTracks(ds, dslot, cs[..k], s, n - |Content(cs[..k])|)
  {
    hide Content, Trimmed, AddAborts, AddTracks, IsAdvance;
    assert forall i | 0 <= i < k :: cs[i].off > 0;
    AtEndAdds(Taken(ds, dslot, cs[..k]), s, n - |Content(cs[..k])|);
    if Content(cs[..k]) == [] {
      if k > 0 {
        FirstEmpty(cs, k);
      }
    } else {
      if cs[..k] == [] {
        ContentEmpty(cs[..k]);
      }
      ReceiveShape(ds, dslot, cs[..k], s);
    }
  }

  /** A buffer that keeps the invariant, but whose slot is lost when a byte is moved to
      another one. */
  lemma RemoveLoses() returns (cs: seq<Chain>)
    ensures |cs| == 2 && LastWithData(cs, 1) && IsWhole(cs, 1, 1) && Content(cs[..1]) == []
  {
    var empty := Chain([0], 0, 0, false);
    cs := [empty, Chain([0, 0], 0, 2, false)];
    assert cs[..1] == [empty];
    ContentOne(empty);
  }

  /** A buffer that keeps the invariant, from which three bytes cannot be moved to an
      empty one without failing an assertion. */
  lemma RemoveAborts() returns (cs: seq<Chain>)
    ensures |cs| == 4 && LastWithData(cs, 3) && IsWhole(cs, 3, 3)
    ensures IsTaken([], 0, cs[..3], 0) && TakeAborts([], 0, cs[..3], 0, 1)
  {
    hide Content, Trimmed, FitsLast, IsAdvance, AddAborts;
    var empty, one := Chain([0], 0, 0, false), Chain([0], 0, 1, false);
    var front := [one, empty, one];
    cs := front + [Chain([0, 0], 0, 2, false)];
    assert cs[..3] == front;
    AfterGap(one, empty);
    assert front[2].off == 1;
  }

  lemma AfterGap(one: Chain, empty: Chain)
    requires one == Chain([0], 0, 1, false) && empty.off == 0
    ensures var front := [one, empty, one];
      |Content(front)| == 2 && Trimmed([], 0) + front == front && IsAdvance(front, 0, 0) && !FitsLast(front, 1)
  {
    hide Content;
    var front := [one, empty, one];
    assert front == [one] + ([empty] + [one]);
    ContentAppend([one], [empty] + [one]);
    ContentAppend([empty], [one]);
    ContentOne(one);
    ContentOne(empty);
    assert front[1].off == 0;
  }

  /** Chains in front that are empty stay in front of the trimmed one. */
  lemma EmptyShape(cs: seq<Chain>, slot: nat, k: nat, n: nat)
    requires LastWithData(cs, slot) && k <= slot < |cs| && n < cs[k].off && Content(cs[..k]) == []
    ensures var ds := cs[k := TrimFront(cs[k], n)];
      && n <= |Content(cs)| && Content(ds) == Content(cs)[n..]
      && (LastWithData(ds, if slot == k then 0 else slot) <==> !(0 < k == slot))
      && (Compact(cs, slot) ==> k == 0 && Compact(ds, if slot == k then 0 else slot))
  {
    hide Content, Data;
    var c := TrimFront(cs[k], n);
    var ds := cs[k := c];
    DrainContent(cs, k, n);
    UpdateContent(cs, k, c);
    ContentAppend([c], cs[k + 1..]);
    ContentOne(c);
    if k > 0 {
      ContentAt(cs, 0);
      FirstEmpty(cs, k);
    }
  }

  lemma WholeIsPacked(cs: seq<Chain>, slot: nat, k: nat)
    requires k < |cs|
    ensures Compact(cs, slot) ==> Packed(cs[..k])
  {
  }

  class EvBuffer {
    /** The linked list of chains. */
    var chains: seq<Chain>
    /** Points at the pointer to the last chain with data. */
    var lastWithDatap: Slot
    var totalLen: nat
    var nAddForCb: int
    var nDelForCb: int
    var freezeStart: bool
    var freezeEnd: bool

    /** `lastWithDatap` points into the list, and the length is right. */
    ghost predicate Linked()
      reads this
    {
      && (if chains == [] then lastWithDatap == Head else lastWithDatap.Index() < |chains|)
      && totalLen == |Content(chains)|
    }

    /** The documented invariant. */
    ghost predicate Valid()
      reads this
    {
      Linked() && LastWithData(chains, lastWithDatap.Index())
    }

    /** The bytes of the queue, front first. */
    ghost function Contents(): seq<byte>
      reads this
    {
      Content(chains)
    }

    constructor ()
      ensures Valid() && chains == [] && Contents() == []
      ensures !freezeStart && !freezeEnd
    {
      chains, lastWithDatap, totalLen := [], Head, 0;
      nAddForCb, nDelForCb := 0, 0;
      freezeStart, freezeEnd := false, false;
    }

    /** evbuffer_chain_insert: puts `c` at the end of the list, in place of the
        empty chains found from the slot on, of which `v` is the first.  False
        stands for the failure of the source's assertion that chains from `v` on
        are all empty. */
    method ChainInsert(c: Chain) returns (asserted: bool, ghost v: nat)
      requires Linked()
      modifies this`chains, this`lastWithDatap, this`totalLen
      ensures Linked()
      ensures IsVictim(old(chains), old(lastWithDatap).Index(), v)
      ensures asserted <==> EmptyFrom(old(chains), v)
      ensures !asserted ==> unchanged(this)
      ensures asserted ==>
        && chains == old(chains)[..v] + [c]
        && Contents() == old(Contents()) + Data(c)
        && lastWithDatap.Index() == (if c.off > 0 && v == |old(chains)| then v else old(lastWithDatap).Index())
    {
      hide Content, Data, Append, CopyTo, Align;
      var ch := lastWithDatap.Index();
      while ch < |chains| && chains[ch].off != 0
        invariant lastWithDatap.Index() <= ch <= |chains|
        invariant forall j | lastWithDatap.Index() <= j < ch :: chains[j].off > 0
      {
        ch := ch + 1;
      }
      v := ch;
      var i := ch;
      while i < |chains|
        invariant ch <= i <= |chains| && forall j | ch <= j < i :: chains[j].off == 0
      {
        if chains[i].off != 0 {
          return false, v;
        }
        i := i + 1;
      }
      CutEmptyTail(chains, ch, c);
      if chains != [] && ch == |chains| && c.off > 0 {
        lastWithDatap := NextOf(ch - 1);
      }
      chains := chains[..ch] + [c];
      totalLen := totalLen + c.off;
      return true, v;
    }

    /** The last chain becomes `c`, which stores `d` after what it had. */
    method GrowLast(c: Chain, ghost d: seq<byte>)
      requires Linked() && chains != []
      requires Data(c) == Data(chains[|chains| - 1]) + d
      modifies this`chains, this`totalLen, this`nAddForCb
      ensures Linked() && chains == old(chains)[|old(chains)| - 1 := c]
      ensures Contents() == old(Contents()) + d
      ensures totalLen == old(totalLen) + |d| && nAddForCb == old(nAddForCb) + |d|
    {
      hide Content, Data, Append, CopyTo, Align;
      var k := |chains| - 1;
      GrowLastContent(chains, c, d);
      assert c.off == chains[k].off + |d|;
      totalLen := totalLen + (c.off - chains[k].off);
      nAddForCb := nAddForCb + (c.off - chains[k].off);
      chains := chains[k := c];
    }

    /** As GrowLast, when the slot finds the last chain with data or stands before a gap. */
    method Grow(c: Chain, ghost d: seq<byte>)
      requires Linked() && chains != []
      requires LastWithData(chains, lastWithDatap.Index()) || Gapped(chains, lastWithDatap.Index())
      requires Data(c) == Data(chains[|chains| - 1]) + d
      modifies this`chains, this`totalLen, this`nAddForCb
      ensures Linked() && Contents() == old(Contents()) + d
      ensures nAddForCb == old(nAddForCb) + |d|
      ensures LastWithData(chains, lastWithDatap.Index()) <==>
        old(LastWithData(chains, lastWithDatap.Index())) && (d == [] || lastWithDatap.Index() == |old(chains)| - 1)
      ensures old(Compact(chains, lastWithDatap.Index())) && !c.immutable ==> Compact(chains, lastWithDatap.Index())
    {
      hide Content, Data;
      assert c.off == chains[|chains| - 1].off + |d|;
      if !LastWithData(chains, lastWithDatap.Index()) {
        GapShape(chains, lastWithDatap.Index(), c, 0);
      } else if d != [] {
        GrowShape(chains, lastWithDatap.Index(), c);
      }
      GrowLast(c, d);
    }

    /** Inserts `c` after the last chain of `cs` may have grown. */
    method LinkSpill(c: Chain, ghost cs: seq<Chain>) returns (ok: bool)
      requires Linked() && cs != [] && |chains| == |cs| && chains == cs[|cs| - 1 := chains[|cs| - 1]]
      requires LastWithData(cs, lastWithDatap.Index()) || Gapped(cs, lastWithDatap.Index())
      requires chains[|cs| - 1].off >= cs[|cs| - 1].off
      requires chains[|cs| - 1].off > cs[|cs| - 1].off ==> c.off > 0
      modifies this`chains, this`lastWithDatap, this`totalLen, this`nAddForCb
      ensures ok == (LastWithData(cs, old(lastWithDatap).Index())
                     && !SpillAborts(cs, old(lastWithDatap).Index(), old(chains)[|cs| - 1].off > cs[|cs| - 1].off))
      ensures ok ==> Linked() && Contents() == old(Contents()) + Data(c)
      ensures ok ==> nAddForCb == old(nAddForCb) + c.off
      ensures ok ==> (LastWithData(chains, lastWithDatap.Index()) <==>
        c.off == 0 || SpillTracks(cs, old(lastWithDatap).Index(), old(chains)[|cs| - 1].off > cs[|cs| - 1].off))
      ensures ok && old(Compact(chains, lastWithDatap.Index())) && !c.immutable && c.off > 0 ==>
        Compact(chains, lastWithDatap.Index())
    {
      hide Content, Data;
      ghost var ds, slot := chains, lastWithDatap.Index();
      ghost var v;
      ok, v := ChainInsert(c);
      if LastWithData(cs, slot) {
        SpillShape(cs, slot, ds[|cs| - 1], ds, v, c, ds[..v] + [c], if c.off > 0 && v == |ds| then v else slot);
      } else {
        GapShape(cs, slot, ds[|cs| - 1], v);
      }
      if ok {
        nAddForCb := nAddForCb + c.off;
      }
    }

    /** The end of evbuffer_add: `data` goes to the room left in the last chain
        and, what does not fit there, to a new chain. */
    method Spill(data: seq<byte>, remain: nat) returns (r: Outcome)
      requires Linked() && chains != []
      requires LastWithData(chains, lastWithDatap.Index()) || Gapped(chains, lastWithDatap.Index())
      requires remain == SpaceLen(chains[|chains| - 1])
      requires remain < |data| <= MAX_ALLOC || remain == |data| == 0
      modifies this`chains, this`lastWithDatap, this`totalLen, this`nAddForCb
      ensures r != Refused
      ensures r == Aborted <==>
        !old(LastWithData(chains, lastWithDatap.Index())) || SpillAborts(old(chains), old(lastWithDatap).Index(), remain > 0)
      ensures r == Done ==> Linked() && Contents() == old(Contents()) + data
      ensures r == Done ==> nAddForCb == old(nAddForCb) + |data|
      ensures r == Done ==> (LastWithData(chains, lastWithDatap.Index()) <==>
        data == [] || SpillTracks(old(chains), old(lastWithDatap).Index(), remain > 0))
      ensures r == Done && old(Compact(chains, lastWithDatap.Index())) && data != [] ==>
        Compact(chains, lastWithDatap.Index())
    {
      hide Content, Data, Append, CopyTo, LastWithData, Gapped, SpillAborts, SpillTracks;
      var last := |chains| - 1;
      var toAlloc := |chains[last].buffer|;
      if toAlloc <= MAX_AUTO_SIZE / 2 {
        toAlloc := toAlloc * 2;
      }
      if |data| > toAlloc {
        toAlloc := |data|;
      }
      var tmp := NewChain(toAlloc);
      ghost var head, tail := data[..remain], data[remain..];
      if remain > 0 {
        GrowLast(Append(chains[last], data[..remain]), head);
      }
      var c := Append(tmp.value, data[remain..]);
      assert Data(tmp.value) == [] && Data(c) == tail;
      assert Data(chains[last]) == Data(old(chains)[last]) + head;
      Assoc(old(Contents()), head, tail);
      TakeDrop(data, remain);
      var ok := LinkSpill(c, old(chains));
      r := if ok then Done else Aborted;
    }

    /** evbuffer_add. Where the slot stands before a gap, nothing but the last chain can
        take data. */
    method Add(data: seq<byte>) returns (r: Outcome)
      requires (Valid() || (Linked() && Gapped(chains, lastWithDatap.Index()))) && |data| <= MAX_ALLOC
      modifies this`chains, this`lastWithDatap, this`totalLen, this`nAddForCb
      ensures r == Refused <==> freezeEnd || |data| > SIZE_MAX - old(totalLen)
      ensures r == Refused ==> unchanged(this)
      ensures r == Aborted <==> (r != Refused && if old(Valid()) then AddAborts(old(chains), old(lastWithDatap).Index(), |data|)
                                                 else !FitsLast(old(chains), |data|))
      ensures r == Done ==> Linked() && Contents() == old(Contents()) + data
      ensures r == Done ==> nAddForCb == old(nAddForCb) + |data|
      ensures r == Done ==>
        (Valid() <==> old(Valid()) && AddTracks(old(chains), old(lastWithDatap).Index(), |data|))
      ensures old(Compact(chains, lastWithDatap.Index())) ==> r != Aborted && Valid() && Compact(chains, lastWithDatap.Index())
    {
      hide Content, Data, Append, CopyTo, Align;
      if freezeEnd || |data| > SIZE_MAX - totalLen {
        return Refused;
      }
      Start(|data|);
      var last := |chains| - 1;
      var remain := 0;
      if !chains[last].immutable {
        remain := SpaceLen(chains[last]);
        if remain >= |data| {
          Grow(Append(chains[last], data), data);
          return Done;
        } else if ShouldRealign(chains[last], |data|) {
          Grow(Append(Align(chains[last]), data), data);
          return Done;
        }
      }
      r := Spill(data, remain);
    }

    /** The first chain becomes `c`, which stores `d` before what it had. */
    method GrowFirst(c: Chain, ghost d: seq<byte>)
      requires Linked() && chains != []
      requires Data(c) == d + Data(chains[0])
      modifies this`chains, this`totalLen, this`nAddForCb
      ensures Linked() && chains == old(chains)[0 := c]
      ensures Contents() == d + old(Contents())
      ensures totalLen == old(totalLen) + |d| && nAddForCb == old(nAddForCb) + |d|
    {
      hide Content, Data;
      GrowFirstContent(chains, c, d);
      assert c.off == |d| + chains[0].off;
      totalLen := totalLen + (c.off - chains[0].off);
      nAddForCb := nAddForCb + (c.off - chains[0].off);
      chains := chains[0 := c];
    }

    /** Puts the chain `c` before the first one. */
    method PushChain(c: Chain)
      requires Linked() && chains != []
      modifies this`chains, this`totalLen, this`lastWithDatap
      ensures Linked() && chains == [c] + old(chains)
      ensures Contents() == Data(c) + old(Contents())
      ensures lastWithDatap.Index() == old(lastWithDatap).Index() + 1
    {
      hide Content, Data;
      ContentAppend([c], chains);
      ContentOne(c);
      lastWithDatap := if lastWithDatap == Head then NextOf(0) else NextOf(lastWithDatap.i + 1);
      chains := [c] + chains;
      totalLen := totalLen + c.off;
    }

    /** Fills the room in front of the first chain with the end of `data`, and
        returns what does not fit. */
    method FillFront(data: seq<byte>) returns (rest: seq<byte>)
      requires Linked() && chains != [] && !chains[0].immutable
      modifies this`chains, this`totalLen, this`nAddForCb
      ensures Linked() && rest + Contents() == data + old(Contents())
      ensures nAddForCb == old(nAddForCb) + |data| - |rest|
      ensures |rest| == if |data| <= FrontRoom(old(chains)[0]).misalign then 0
                        else |data| - FrontRoom(old(chains)[0]).misalign
      ensures chains != [] && chains == old(chains)[0 := chains[0]] && !chains[0].immutable
      ensures chains[0].off == old(chains)[0].off + |data| - |rest|
      ensures rest != [] ==> chains[0].misalign == 0
    {
      hide Content, Data, PushFront, CopyTo;
      var room := FrontRoom(chains[0]);
      var n := if |data| <= room.misalign then |data| else room.misalign;
      rest := data[..|data| - n];
      ghost var tail := data[|data| - n..];
      var c := PushFront(room, data[|data| - n..]);
      assert |Data(c)| == |tail| + |Data(room)|;
      GrowFirst(c, tail);
      Assoc(rest, tail, old(Contents()));
      TakeDrop(data, |rest|);
    }

    /** Puts `data` into a new chain in front, after the first chain of `cs` may
        have grown. */
    method PushNew(data: seq<byte>, ghost cs: seq<Chain>)
      requires Linked() && cs != [] && |chains| == |cs| && chains == cs[0 := chains[0]]
      requires LastWithData(cs, lastWithDatap.Index()) && chains[0].off >= cs[0].off
      requires |data| <= MAX_ALLOC
      modifies this`chains, this`lastWithDatap, this`totalLen, this`nAddForCb
      ensures Linked() && Contents() == data + old(Contents())
      ensures nAddForCb == old(nAddForCb + chains[0].misalign)
      ensures LastWithData(chains, lastWithDatap.Index()) <==>
        old(lastWithDatap).Index() > 0 || old(chains)[0].off > 0
      ensures Compact(cs, old(lastWithDatap).Index()) && data != [] && !old(chains)[0].immutable && old(chains)[0].off > 0
        ==> Compact(chains, lastWithDatap.Index())
    {
      hide Content, Data, PushFront, CopyTo;
      var tmp := NewChain(|data|);
      var c := PushFront(tmp.value.(misalign := |tmp.value.buffer|), data);
      assert Data(tmp.value.(misalign := |tmp.value.buffer|)) == [];
      assert |Data(c)| == |data|;
      nAddForCb := nAddForCb + chains[0].misalign;
      PrependShape(cs, lastWithDatap.Index(), chains[0], c);
      PushChain(c);
    }

    /** Adds a first chain with room for `n` bytes if there is none. */
    method Start(n: nat)
      requires Linked() && n <= MAX_ALLOC
      modifies this`chains, this`lastWithDatap, this`totalLen
      ensures Linked() && (old(Valid()) ==> Valid()) && Contents() == old(Contents()) && chains != []
      ensures old(chains) != [] ==> unchanged(this)
      ensures old(chains) == [] ==>
        |chains| == 1 && chains[0].off == chains[0].misalign == 0 && n <= |chains[0].buffer| && !chains[0].immutable
    {
      hide Content;
      if chains == [] {
        var c := NewChain(n);
        var ok, v := ChainInsert(c.value);
        assert Data(c.value) == [];
      }
    }

    /** evbuffer_prepend */
    method Prepend(data: seq<byte>) returns (r: Outcome)
      requires Valid() && |data| <= MAX_ALLOC
      modifies this`chains, this`lastWithDatap, this`totalLen, this`nAddForCb
      ensures r != Aborted
      ensures r == Refused <==> freezeStart || |data| > SIZE_MAX - old(totalLen)
      ensures r == Refused ==> unchanged(this)
      ensures r == Done ==> Linked() && Contents() == data + old(Contents())
      ensures r == Done ==> nAddForCb == old(nAddForCb) + PrependCounted(old(chains), |data|)
      ensures r == Done ==>
        (LastWithData(chains, lastWithDatap.Index()) <==> PrependTracks(old(chains), old(lastWithDatap).Index()))
      ensures old(Compact(chains, lastWithDatap.Index())) ==> Valid() && Compact(chains, lastWithDatap.Index())
    {
      hide Content;
      if freezeStart || |data| > SIZE_MAX - totalLen {
        return Refused;
      }
      Start(|data|);
      ghost var cs := chains;
      var rest := data;
      if !chains[0].immutable {
        rest := FillFront(data);
        PrependShape(cs, lastWithDatap.Index(), chains[0], chains[0]);
        if rest == [] {
          return Done;
        }
      }
      PushNew(rest, cs);
      return Done;
    }

    /** evbuffer_drain; false when the front is frozen. */
    method Drain(len: nat) returns (r: bool)
      requires Valid()
      modifies this`chains, this`lastWithDatap, this`totalLen, this`nDelForCb
      ensures !r <==> freezeStart && old(totalLen) > 0
      ensures !r ==> unchanged(this)
      ensures r ==> Valid() && Contents() == old(Contents())[Min(len, old(totalLen))..]
      ensures r ==> nDelForCb == old(nDelForCb) + Min(len, old(totalLen))
      ensures old(Compact(chains, lastWithDatap.Index())) ==> Compact(chains, lastWithDatap.Index())
    {
      hide Content, Data;
      if totalLen == 0 {
        return true;
      }
      if freezeStart {
        return false;
      }
      if len >= totalLen {
        nDelForCb := nDelForCb + totalLen;
        chains, lastWithDatap, totalLen := [], Head, 0;
        ContentEmpty(chains);
      } else {
        DrainFront(len);
        nDelForCb := nDelForCb + len;
      }
      return true;
    }

    /** The loop of evbuffer_drain: drops the chains that are drained wholly, and
        the front of the next one. */
    method DrainFront(len: nat)
      requires Valid() && len < totalLen
      modifies this`chains, this`lastWithDatap, this`totalLen
      ensures Valid() && Contents() == old(Contents())[len..]
      ensures old(Compact(chains, lastWithDatap.Index())) ==> Compact(chains, lastWithDatap.Index())
    {
      hide Content, Data;
      ghost var cs, slot := chains, lastWithDatap.Index();
      var k: nat, remaining: nat := 0, len;
      var p := lastWithDatap;
      if cs == [] {
        ContentEmpty(cs);
      }
      NoDataAfter(cs, slot);
      ContentAt(cs, slot);
      ContentEmpty(cs[..0]);
      while remaining >= chains[k].off
        invariant unchanged(this) && k <= slot < |cs| && |Content(cs[..k])| + remaining == len
        invariant p == if k < slot || k == 0 then lastWithDatap else Head
        decreases slot - k
      {
        ContentAt(cs, k);
        remaining := remaining - chains[k].off;
        if p.Index() == k {
          p := Head;
        }
        if p.NextOf? && p.i == k {
          p := Head;
        }
        k := k + 1;
      }
      DrainContent(cs, k, remaining);
      DrainShape(cs, slot, k, remaining);
      var c := TrimFront(chains[k], remaining);
      lastWithDatap := if p.Head? then Head else NextOf(p.i - k);
      chains := [c] + chains[k + 1..];
      totalLen := totalLen - len;
    }

    /** evbuffer_copyout; None when the front is frozen. */
    method CopyOut(datlen: nat) returns (r: Option<seq<byte>>)
      requires Valid()
      ensures r == if freezeStart && Min(datlen, totalLen) > 0 then None
                   else Some(Contents()[..Min(datlen, totalLen)])
    {
      hide Content, Data;
      var left: nat := Min(datlen, totalLen);
      if left == 0 {
        return Some([]);
      }
      if freezeStart {
        return None;
      }
      ghost var n := left;
      var data: seq<byte> := [];
      var k: nat := 0;
      ContentEmpty(chains[..0]);
      ContentEmpty(chains[|chains|..]);
      ContentSplit(chains, |chains|);
      while left > 0 && left >= chains[k].off
        invariant k <= |chains| && data == Content(chains[..k]) && |data| + left == n
        invariant left > 0 ==> k < |chains|
        decreases |chains| - k
      {
        ContentAt(chains, k);
        data := data + Data(chains[k]);
        left := left - chains[k].off;
        k := k + 1;
      }
      if left > 0 {
        CopyContent(chains, k, left);
        data := data + Data(chains[k])[..left];
      } else {
        ContentSplit(chains, k);
      }
      return Some(data);
    }

    /** evbuffer_remove */
    method Remove(datlen: nat) returns (r: Option<seq<byte>>)
      requires Valid()
      modifies this`chains, this`lastWithDatap, this`totalLen, this`nDelForCb
      ensures Valid()
      ensures r == if freezeStart && Min(datlen, old(totalLen)) > 0 then None
                   else Some(old(Contents())[..Min(datlen, old(totalLen))])
      ensures Contents() == old(Contents())[if r.Some? then |r.value| else 0..]
      ensures nDelForCb == old(nDelForCb) + if r.Some? then |r.value| else 0
      ensures old(Compact(chains, lastWithDatap.Index())) ==> Compact(chains, lastWithDatap.Index())
    {
      hide Content, Data;
      r := CopyOut(datlen);
      if r.Some? && |r.value| > 0 {
        var ok := Drain(|r.value|);
      }
    }

    /** ZERO_CHAIN */
    method Zero()
      modifies this`chains, this`lastWithDatap, this`totalLen
      ensures Valid() && chains == [] && Contents() == []
    {
      chains, lastWithDatap, totalLen := [], Head, 0;
    }

    /** COPY_CHAIN */
    method CopyChain(src: EvBuffer)
      requires src.Valid()
      modifies this`chains, this`lastWithDatap, this`totalLen
      ensures Valid() && chains == src.chains && lastWithDatap.Index() == src.lastWithDatap.Index()
    {
      hide Content;
      chains := src.chains;
      lastWithDatap := if src.lastWithDatap == Head then Head else src.lastWithDatap;
      totalLen := src.totalLen;
    }

    /** APPEND_CHAIN */
    method AppendChain(src: EvBuffer)
      requires Valid() && src.Valid() && totalLen > 0 && src.totalLen > 0
      modifies this`chains, this`lastWithDatap, this`totalLen
      ensures Valid() && chains == old(chains + src.chains) && Contents() == old(Contents() + src.Contents())
      ensures lastWithDatap.Index() == |old(chains)| + old(src.lastWithDatap).Index()
    {
      hide Content, Data;
      SomeData(chains, lastWithDatap.Index());
      SomeData(src.chains, src.lastWithDatap.Index());
      ContentAppend(chains, src.chains);
      AppendShape(chains, src.chains, src.lastWithDatap.Index());
      var n := |chains|;
      chains, totalLen, lastWithDatap := chains + src.chains, totalLen + src.totalLen,
        if src.lastWithDatap == Head then NextOf(n - 1) else NextOf(n + src.lastWithDatap.i);
    }

    /** PREPEND_CHAIN */
    method PrependChain(src: EvBuffer)
      requires Valid() && src.Valid() && totalLen > 0 && src.totalLen > 0
      modifies this`chains, this`lastWithDatap, this`totalLen
      ensures Valid() && chains == old(src.chains + chains) && Contents() == old(src.Contents() + Contents())
      ensures lastWithDatap.Index() == |old(src.chains)| + old(lastWithDatap).Index()
    {
      hide Content, Data;
      SomeData(chains, lastWithDatap.Index());
      SomeData(src.chains, src.lastWithDatap.Index());
      ContentAppend(src.chains, chains);
      AppendShape(src.chains, chains, lastWithDatap.Index());
      var n := |src.chains|;
      chains, totalLen, lastWithDatap := src.chains + chains, totalLen + src.totalLen,
        if lastWithDatap == Head then NextOf(n - 1) else NextOf(n + lastWithDatap.i);
    }

    /** evbuffer_add_buffer: moves all of `inbuf` to the end of this buffer;
        false when an end is frozen. */
    method AddBuffer(inbuf: EvBuffer) returns (r: bool)
      requires Valid() && inbuf.Valid() && totalLen + inbuf.totalLen <= SIZE_MAX
      modifies this`chains, this`lastWithDatap, this`totalLen, this`nAddForCb
      modifies inbuf`chains, inbuf`lastWithDatap, inbuf`totalLen, inbuf`nDelForCb
      ensures Valid() && inbuf.Valid()
      ensures !r <==> inbuf != this && old(inbuf.totalLen) > 0 && (freezeEnd || inbuf.freezeStart)
      ensures !r || inbuf == this || old(inbuf.totalLen) == 0 ==> unchanged(this) && unchanged(inbuf)
      ensures r && inbuf != this ==> inbuf.Contents() == [] && Contents() == old(Contents() + inbuf.Contents())
      ensures r && inbuf != this ==> nAddForCb == old(nAddForCb + inbuf.totalLen) && inbuf.nDelForCb == old(inbuf.nDelForCb + inbuf.totalLen)
      ensures old(Compact(chains, lastWithDatap.Index()) && Compact(inbuf.chains, inbuf.lastWithDatap.Index())) ==>
        Compact(chains, lastWithDatap.Index()) && Compact(inbuf.chains, inbuf.lastWithDatap.Index())
    {
      hide Content, Data;
      var inTotalLen, outTotalLen := inbuf.totalLen, totalLen;
      if inTotalLen == 0 || inbuf == this {
        if inTotalLen == 0 {
          assert Contents() + inbuf.Contents() == Contents();
        }
        return true;
      }
      if freezeEnd || inbuf.freezeStart {
        return false;
      }
      if outTotalLen == 0 {
        assert Contents() + inbuf.Contents() == inbuf.Contents();
        CopyChain(inbuf);
      } else {
        if Compact(chains, lastWithDatap.Index()) && Compact(inbuf.chains, inbuf.lastWithDatap.Index()) {
          CompactAppend(chains, lastWithDatap.Index(), inbuf.chains, inbuf.lastWithDatap.Index());
        }
        AppendChain(inbuf);
      }
      inbuf.Zero();
      inbuf.nDelForCb := inbuf.nDelForCb + inTotalLen;
      nAddForCb := nAddForCb + inTotalLen;
      return true;
    }

    /** evbuffer_prepend_buffer: moves all of `inbuf` to the front of this buffer. */
    method PrependBuffer(inbuf: EvBuffer) returns (r: bool)
      requires Valid() && inbuf.Valid() && totalLen + inbuf.totalLen <= SIZE_MAX
      modifies this`chains, this`lastWithDatap, this`totalLen, this`nAddForCb
      modifies inbuf`chains, inbuf`lastWithDatap, inbuf`totalLen, inbuf`nDelForCb
      ensures Valid() && inbuf.Valid()
      ensures !r <==> inbuf != this && old(inbuf.totalLen) > 0 && (freezeStart || inbuf.freezeStart)
      ensures !r || inbuf == this || old(inbuf.totalLen) == 0 ==> unchanged(this) && unchanged(inbuf)
      ensures r && inbuf != this ==> inbuf.Contents() == [] && Contents() == old(inbuf.Contents() + Contents())
      ensures r && inbuf != this ==> nAddForCb == old(nAddForCb + inbuf.totalLen) && inbuf.nDelForCb == old(inbuf.nDelForCb + inbuf.totalLen)
      ensures old(Compact(chains, lastWithDatap.Index()) && Compact(inbuf.chains, inbuf.lastWithDatap.Index())) ==>
        Compact(chains, lastWithDatap.Index()) && Compact(inbuf.chains, inbuf.lastWithDatap.Index())
    {
      hide Content, Data;
      var inTotalLen, outTotalLen := inbuf.totalLen, totalLen;
      if inTotalLen == 0 || inbuf == this {
        if inTotalLen == 0 {
          assert inbuf.Contents() + Contents() == Contents();
        }
        return true;
      }
      if freezeStart || inbuf.freezeStart {
        return false;
      }
      if outTotalLen == 0 {
        assert inbuf.Contents() + Contents() == inbuf.Contents();
        CopyChain(inbuf);
      } else {
        if Compact(chains, lastWithDatap.Index()) && Compact(inbuf.chains, inbuf.lastWithDatap.Index()) {
          CompactAppend(inbuf.chains, inbuf.lastWithDatap.Index(), chains, lastWithDatap.Index());
        }
        PrependChain(inbuf);
      }
      inbuf.Zero();
      inbuf.nDelForCb := inbuf.nDelForCb + inTotalLen;
      nAddForCb := nAddForCb + inTotalLen;
      return true;
    }

    /** advance_last_with_data */
    method AdvanceLastWithData()
      requires Linked()
      modifies this`lastWithDatap
      ensures Linked() && IsAdvance(chains, old(lastWithDatap).Index(), lastWithDatap.Index())
    {
      hide Content;
      if chains == [] {
        return;
      }
      while lastWithDatap.Index() + 1 < |chains| && chains[lastWithDatap.Index() + 1].off > 0
        invariant old(lastWithDatap).Index() <= lastWithDatap.Index() < |chains|
        invariant forall i {:trigger chains[i].off} | old(lastWithDatap).Index() < i <= lastWithDatap.Index() :: chains[i].off > 0
        decreases |chains| - lastWithDatap.Index()
      {
        lastWithDatap := NextOf(lastWithDatap.Index());
      }
    }

    /** evbuffer_free_trailing_empty_chains: frees the empty chains at the end. */
    method FreeTrailing()
      requires Valid()
      modifies this`chains
      ensures chains == Trimmed(old(chains), lastWithDatap.Index()) && Contents() == old(Contents())
      ensures lastWithDatap.Index() <= |chains|
    {
      hide Content;
      var ch := lastWithDatap.Index();
      while ch < |chains| && chains[ch].off != 0
        invariant lastWithDatap.Index() <= ch <= |chains|
        invariant unchanged(this)
        invariant forall j {:trigger chains[j].off} | lastWithDatap.Index() <= j < ch :: chains[j].off > 0
      {
        ch := ch + 1;
      }
      CutTail(chains, ch);
      VictimTrims(chains, lastWithDatap.Index(), ch);
      chains := chains[..ch];
    }

    /** Takes over the chains `cs`, which have data. */
    method Receive(cs: seq<Chain>, n: nat)
      requires Valid() && cs != [] && n == |Content(cs)|
      modifies this`chains, this`lastWithDatap, this`totalLen, this`nAddForCb
      ensures Linked() && Contents() == old(Contents()) + Content(cs) && nAddForCb == old(nAddForCb) + n
      ensures totalLen == old(totalLen) + n && chains != []
      ensures chains == Trimmed(old(chains), old(lastWithDatap).Index()) + cs
      ensures IsAdvance(chains, old(lastWithDatap).Index(), lastWithDatap.Index())
      ensures Valid() || Gapped(chains, lastWithDatap.Index())
      ensures (forall i {:trigger cs[i].off} | 0 <= i < |cs| :: cs[i].off > 0) ==> Valid() && lastWithDatap.Index() == |chains| - 1
      ensures old(Compact(chains, lastWithDatap.Index())) && Packed(cs) ==>
        Compact(chains, lastWithDatap.Index())
    {
      hide Content, Trimmed;
      ghost var ds, slot := chains, lastWithDatap.Index();
      FreeTrailing();
      ContentAppend(chains, cs);
      chains := chains + cs;
      totalLen := totalLen + n;
      nAddForCb := nAddForCb + n;
      AdvanceLastWithData();
      ReceiveShape(ds, slot, cs, lastWithDatap.Index());
    }

    /** The loop of evbuffer_remove_buffer: counts the `k` chains at the front that
        hold at most `datlen` bytes together, and keeps the slot off them. */
    method SkipWhole(datlen: nat) returns (k: nat, left: nat, p: Slot)
      requires Valid() && datlen < totalLen
      ensures k <= lastWithDatap.Index() < |chains| && |Content(chains[..k])| + left == datlen
      ensures left < chains[k].off
      ensures p == if lastWithDatap.Index() == k then Head else lastWithDatap
    {
      hide Content, Data;
      ghost var slot := lastWithDatap.Index();
      k, left, p := 0, datlen, lastWithDatap;
      if chains == [] {
        ContentEmpty(chains);
      }
      NoDataAfter(chains, slot);
      ContentAt(chains, slot);
      ContentEmpty(chains[..0]);
      while chains[k].off <= left
        invariant k <= slot < |chains| && |Content(chains[..k])| + left == datlen
        invariant p == if k < slot then lastWithDatap else Head
        decreases slot - k
      {
        ContentAt(chains, k);
        left := left - chains[k].off;
        if p.NextOf? && p.i == k {
          p := Head;
        }
        k := k + 1;
      }
    }

    /** Gives up the first `k` chains, if they have data, and `left` bytes of the next one.
        Empty chains stay, although the slot may have gone to the first of them. */
    method Detach(k: nat, left: nat, p: Slot, n: nat)
      requires Valid() && k <= lastWithDatap.Index() < |chains| && n == |Content(chains[..k])| && n + left <= totalLen
      requires left < chains[k].off
      requires p == if lastWithDatap.Index() == k then Head else lastWithDatap
      modifies this`chains, this`lastWithDatap, this`totalLen, this`nDelForCb
      ensures Linked() && Contents() == old(Contents())[n + left..] && nDelForCb == old(nDelForCb) + n + left
      ensures Valid() <==> n > 0 || !(0 < k == old(lastWithDatap).Index())
      ensures old(Compact(chains, lastWithDatap.Index())) ==> Valid() && Compact(chains, lastWithDatap.Index())
    {
      hide Content, Data;
      DrainContent(chains, k, left);
      DrainShape(chains, lastWithDatap.Index(), k, left);
      if n == 0 {
        EmptyShape(chains, lastWithDatap.Index(), k, left);
      }
      totalLen := totalLen - n - left;
      nDelForCb := nDelForCb + n + left;
      if n > 0 {
        lastWithDatap := if p.Head? then Head else NextOf(p.i - k);
        chains := [TrimFront(chains[k], left)] + chains[k + 1..];
      } else {
        lastWithDatap := p;
        chains := chains[k := TrimFront(chains[k], left)];
      }
    }

    /** Puts `cs`, if they have data, and then `rest` behind the data. */
    method Take(cs: seq<Chain>, n: nat, rest: seq<byte>) returns (asserted: bool, ghost s: nat)
      requires Valid() && !freezeEnd
      requires n == |Content(cs)| && totalLen + n + |rest| <= SIZE_MAX && |rest| <= MAX_ALLOC
      modifies this`chains, this`lastWithDatap, this`totalLen, this`nAddForCb
      ensures IsTaken(old(chains), old(lastWithDatap).Index(), cs, s)
      ensures asserted == !TakeAborts(old(chains), old(lastWithDatap).Index(), cs, s, |rest|)
      ensures asserted ==> Linked() && Contents() == old(Contents()) + (Content(cs) + rest)
      ensures asserted ==> nAddForCb == old(nAddForCb) + n + |rest|
      ensures asserted ==> (Valid() <==> TakeTracks(old(chains), old(lastWithDatap).Index(), cs, s, |rest|))
      ensures old(Compact(chains, lastWithDatap.Index())) && Packed(cs) ==>
        asserted && Valid() && Compact(chains, lastWithDatap.Index())
    {
      hide Content, Trimmed;
      Assoc(Contents(), Content(cs), rest);
      if cs == [] {
        ContentEmpty(cs);
      }
      if n > 0 {
        Receive(cs, n);
      }
      s := lastWithDatap.Index();
      var r := Add(rest);
      asserted := r == Done;
    }

    /** evbuffer_remove_buffer when less than all is asked for: `k` is how many chains the
        loop passes, and `s` where the slot of `dst` is before the rest is added. */
    method RemovePart(dst: EvBuffer, datlen: nat) returns (asserted: bool, ghost k: nat, ghost s: nat)
      requires Valid() && dst.Valid() && totalLen + dst.totalLen <= SIZE_MAX
      requires dst != this && 0 < datlen < totalLen && !dst.freezeEnd
      modifies this`chains, this`lastWithDatap, this`totalLen, this`nDelForCb
      modifies dst`chains, dst`lastWithDatap, dst`totalLen, dst`nAddForCb
      ensures IsWhole(old(chains), k, datlen)
      ensures IsTaken(old(dst.chains), old(dst.lastWithDatap).Index(), old(chains)[..k], s)
      ensures asserted == !TakeAborts(old(dst.chains), old(dst.lastWithDatap).Index(), old(chains)[..k], s, datlen - |Content(old(chains)[..k])|)
      ensures asserted ==>
        && Linked() && Contents() == old(Contents())[datlen..]
        && dst.Linked() && dst.Contents() == old(dst.Contents()) + old(Contents())[..datlen]
        && dst.nAddForCb == old(dst.nAddForCb) + datlen && nDelForCb == old(nDelForCb) + datlen
      ensures asserted ==> (Valid() <==> Content(old(chains)[..k]) != [] || !(0 < k == old(lastWithDatap).Index()))
      ensures asserted ==> (dst.Valid() <==>
        TakeTracks(old(dst.chains), old(dst.lastWithDatap).Index(), old(chains)[..k], s, datlen - |Content(old(chains)[..k])|))
      ensures old(Compact(chains, lastWithDatap.Index()) && Compact(dst.chains, dst.lastWithDatap.Index())) ==>
        && asserted && Valid() && dst.Valid()
        && Compact(chains, lastWithDatap.Index()) && Compact(dst.chains, dst.lastWithDatap.Index())
    {
      hide Content, Data, Trimmed, TakeAborts, TakeTracks, LastWithData;
      var i, left, p := SkipWhole(datlen);
      k := i;
      var whole, rest := chains[..i], Data(chains[i])[..left];
      CopyContent(chains, i, left);
      WholeIsPacked(chains, lastWithDatap.Index(), i);
      Detach(i, left, p, datlen - left);
      asserted, s := dst.Take(whole, datlen - left, rest);
    }

    /** evbuffer_remove_buffer: moves `datlen` bytes, or all there are, from the
        front of this buffer to the end of `dst`; None when an end is frozen. */
    method RemoveBuffer(dst: EvBuffer, datlen: nat) returns (r: Option<nat>, asserted: bool, ghost k: nat, ghost s: nat)
      requires Valid() && dst.Valid() && totalLen + dst.totalLen <= SIZE_MAX
      modifies this`chains, this`lastWithDatap, this`totalLen, this`nDelForCb, this`nAddForCb
      modifies dst`chains, dst`lastWithDatap, dst`totalLen, dst`nAddForCb
      ensures r.None? <==> datlen > 0 && dst != this && (dst.freezeEnd || freezeStart)
      ensures r.None? || datlen == 0 || dst == this ==> asserted && unchanged(this) && unchanged(dst)
      ensures r.Some? ==> r.value == if dst == this then 0 else Min(datlen, old(totalLen))
      ensures datlen >= old(totalLen) ==> asserted && Valid() && dst.Valid()
      ensures asserted && r.Some? && dst != this ==>
        && Linked() && Contents() == old(Contents())[r.value..]
        && dst.Linked() && dst.Contents() == old(dst.Contents()) + old(Contents())[..r.value]
        && dst.nAddForCb == old(dst.nAddForCb) + r.value && nDelForCb == old(nDelForCb) + r.value
      ensures r.Some? && dst != this && 0 < datlen < old(totalLen) ==>
        && IsWhole(old(chains), k, datlen) && IsTaken(old(dst.chains), old(dst.lastWithDatap).Index(), old(chains)[..k], s)
        && var cs, left := old(chains)[..k], datlen - |Content(old(chains)[..k])|;
        && asserted == !TakeAborts(old(dst.chains), old(dst.lastWithDatap).Index(), cs, s, left)
        && (asserted ==> (Valid() <==> Content(cs) != [] || !(0 < k == old(lastWithDatap).Index())))
        && (asserted ==> (dst.Valid() <==> TakeTracks(old(dst.chains), old(dst.lastWithDatap).Index(), cs, s, left)))
      ensures old(Compact(chains, lastWithDatap.Index()) && Compact(dst.chains, dst.lastWithDatap.Index())) ==>
        && asserted && Valid() && dst.Valid()
        && Compact(chains, lastWithDatap.Index()) && Compact(dst.chains, dst.lastWithDatap.Index())
    {
      hide Content, Data, Trimmed, TakeAborts, TakeTracks, LastWithData;
      r, asserted, k, s := Some(0), true, 0, 0;
      if datlen == 0 || dst == this {
        return;
      }
      if dst.freezeEnd || freezeStart {
        r := None;
        return;
      }
      if datlen >= totalLen {
        r := Some(totalLen);
        var ok := dst.AddBuffer(this);
        return;
      }
      r := Some(datlen);
      asserted, k, s := RemovePart(dst, datlen);
    }

    /** evbuffer_pullup: makes the first `size` bytes, or all of them when `size`
        is negative, contiguous, and returns them. */
    method Pullup(size: int) returns (r: Option<seq<byte>>)
      requires Valid()
      modifies this`chains, this`lastWithDatap
      ensures Valid() && Contents() == old(Contents())
      ensures var n := if size < 0 then totalLen else size;
        && (r.None? <==> n == 0 || n > totalLen || (n > MAX_ALLOC && !OneChainHolds(old(chains), n)))
        && (r.Some? ==> r.value == Contents()[..n] && chains != [] && n <= chains[0].off)
      ensures r.None? ==> unchanged(this)
      ensures old(Compact(chains, lastWithDatap.Index())) ==> Compact(chains, lastWithDatap.Index())
    {
      hide Content, Data;
      var n: nat := if size < 0 then totalLen else size;
      if n == 0 || n > totalLen {
        return None;
      }
      ghost var cs, slot := chains, lastWithDatap.Index();
      if cs == [] {
        ContentEmpty(cs);
      }
      if chains[0].off >= n {
        FirstContent(cs, n);
        return Some(Data(chains[0])[..n]);
      }
      var tmp: Chain, start: nat;
      if |chains[0].buffer| - chains[0].misalign >= n {
        tmp, start := chains[0], 1;
      } else {
        var c := NewChain(n);
        if c.None? {
          return None;
        }
        tmp, start := c.value, 0;
      }
      PullInto(tmp, start, n);
      FirstContent(chains, n);
      return Some(Data(chains[0])[..n]);
    }

    /** The loop of evbuffer_pullup: fills `tmp` up to `n` bytes from the chains
        from number `start` on, and puts it first. */
    method PullInto(tmp: Chain, start: nat, n: nat)
      requires Valid() && n <= totalLen && start <= 1 && chains != [] && chains[0].off < n
      requires tmp.off + SpaceLen(tmp) >= n && !tmp.immutable
      requires start == 0 ==> tmp.off == 0
      requires start == 1 ==> tmp == chains[0]
      modifies this`chains, this`lastWithDatap
      ensures Valid() && Contents() == old(Contents()) && chains != [] && n <= chains[0].off
      ensures old(Compact(chains, lastWithDatap.Index())) ==> Compact(chains, lastWithDatap.Index())
    {
      hide Content, Data, Append, CopyTo;
      ghost var cs, slot := chains, lastWithDatap.Index();
      var t, left: nat, k: nat := tmp, n - tmp.off, start;
      var removedLast, removedLastp := false, false;
      ContentEmpty(cs[..0]);
      if start == 1 {
        ContentAt(cs, 0);
      }
      while k < |chains| && left >= chains[k].off
        invariant unchanged(this) && start <= k <= |chains|
        invariant !t.immutable && Data(t) == Content(cs[..k]) && t.off + left == n && SpaceLen(t) >= left
        invariant removedLast <==> start <= slot < k
        invariant removedLastp <==> start < slot <= k
        decreases |chains| - k
      {
        ContentAt(cs, k);
        t := Append(t, Data(chains[k]));
        left := left - chains[k].off;
        if k == lastWithDatap.Index() {
          removedLast := true;
        }
        if lastWithDatap.NextOf? && lastWithDatap.i == k {
          removedLastp := true;
        }
        k := k + 1;
      }
      PullContent(cs, k, left, t);
      if k < |chains| {
        t := Append(t, Data(chains[k])[..left]);
      }
      assert t.off == n by {
        ContentSplit(cs, k);
        ContentEmpty(cs[|cs|..]);
      }
      Relink(t, k, left, removedLast, removedLastp);
    }

    /** The end of evbuffer_pullup: `t` replaces the first `k` chains, and has the
        first `left` bytes of the next one. */
    method Relink(t: Chain, k: nat, left: nat, removedLast: bool, removedLastp: bool)
      requires Linked() && LastWithData(chains, lastWithDatap.Index()) && chains != []
      requires 1 <= k <= |chains| && (k < |chains| ==> left < chains[k].off)
      requires t.off > 0 && !t.immutable && Content(Pulled(chains, k, left, t)) == Contents()
      requires var slot := lastWithDatap.Index();
        && (removedLast ==> slot < k)
        && (!removedLast && removedLastp ==> slot == k)
        && (!removedLast && !removedLastp ==> slot > k || slot == 0 || slot == k == 1)
      modifies this`chains, this`lastWithDatap
      ensures Valid() && chains == Pulled(old(chains), k, left, t)
      ensures old(Compact(chains, lastWithDatap.Index())) ==> Compact(chains, lastWithDatap.Index())
    {
      hide Content, Data;
      PullShape(chains, lastWithDatap.Index(), k, left, t);
      chains := Pulled(chains, k, left, t);
      if removedLast {
        lastWithDatap := Head;
      } else if removedLastp {
        lastWithDatap := if |chains| > 1 && chains[1].off > 0 then NextOf(0) else Head;
      } else if lastWithDatap.NextOf? {
        lastWithDatap := NextOf(lastWithDatap.i + 1 - k);
      }
    }
  }
}
