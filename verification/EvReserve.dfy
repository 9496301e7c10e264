/** Reserving space at the end of an evbuffer, and committing what was written there. */
module EvReserves {
  import opened Bytes
  import opened Chains
  import opened EvBuffers

  /** A struct evbuffer_iovec: `len` bytes at offset `at` of the buffer of a chain. */
  datatype Vec = Vec(chain: nat, at: nat, len: nat)

  /** CHAIN_SPACE_PTR and CHAIN_SPACE_LEN of chain number `i`. */
  function SpaceOf(cs: seq<Chain>, i: nat): Vec
    requires i < |cs|
  {
    Vec(i, cs[i].misalign + cs[i].off, SpaceLen(cs[i]))
  }

  /** The first chain with room in it. */
  function First(cs: seq<Chain>, slot: nat): nat {
    if slot < |cs| && SpaceLen(cs[slot]) == 0 then slot + 1 else slot
  }

  /** Empty chains at the end may be written. */
  ghost predicate WritableTail(cs: seq<Chain>) {
    forall i {:trigger cs[i].immutable} | 0 <= i < |cs| && cs[i].off == 0 :: !cs[i].immutable
  }

  lemma InsertEmpty(cs: seq<Chain>, slot: nat, v: nat, c: Chain)
    requires IsVictim(cs, slot, v) && LastWithData(cs, slot) && c.off == 0 && (slot < |cs| || (cs == [] && slot == 0))
    ensures EmptyFrom(cs, v) && LastWithData(cs[..v] + [c], slot) && v <= slot + 1 && slot <= v
  {
    var r := cs[..v] + [c];
    assert slot + 1 < |cs| ==> cs[slot + 1].off == 0;
    assert forall i | 0 <= i < v :: r[i] == cs[i];
    if slot < v < |cs| {
      assert cs[slot].off > 0;
    }
  }

  /** evbuffer_chain_insert_new */
  method InsertNew(buf: EvBuffer, size: nat) returns (r: Option<nat>)
    requires buf.Valid()
    modifies buf`chains, buf`lastWithDatap, buf`totalLen
    ensures buf.Valid() && buf.Contents() == old(buf.Contents()) && buf.totalLen == old(buf.totalLen)
    ensures r.None? <==> size > MAX_ALLOC
    ensures r.None? ==> buf.chains == old(buf.chains) && buf.lastWithDatap == old(buf.lastWithDatap)
    ensures r.Some? ==>
      && buf.lastWithDatap.Index() == old(buf.lastWithDatap).Index()
      && r.value == |buf.chains| - 1 <= |old(buf.chains)| && buf.chains[..r.value] == old(buf.chains)[..r.value]
      && SpaceLen(buf.chains[r.value]) >= size && !buf.chains[r.value].immutable
      && old(buf.lastWithDatap).Index() <= r.value <= old(buf.lastWithDatap).Index() + 1
  {
    hide Content, Data;
    var c := NewChain(size);
    if c.None? {
      return None;
    }
    ghost var cs, slot := buf.chains, buf.lastWithDatap.Index();
    var ok;
    ghost var v;
    assert Data(c.value) == [];
    ok, v := buf.ChainInsert(c.value);
    InsertEmpty(cs, slot, v, c.value);
    assert |buf.Contents()| == |old(buf.Contents())|;
    return Some(|buf.chains| - 1);
  }

  /** The states and sizes for which evbuffer_expand_singlechain leaves room unused and
      takes a chain that is not the last one. */
  predicate PassesOver(cs: seq<Chain>, slot: nat, size: nat) {
    && slot + 2 < |cs|
    && 0 < SpaceLen(cs[slot]) < size && cs[slot].off > 0 && !ShouldRealign(cs[slot], size)
    && size <= SpaceLen(cs[slot + 1])
    && !Resizes(cs[slot], size)
  }

  /** The branch that would make a chain larger. It is taken only for sizes that no
      chain can have. */
  predicate Resizes(c: Chain, size: nat) {
    SpaceLen(c) >= |c.buffer| / 8 && c.off <= MAX_TO_COPY && !(size < CHAIN_MAX && CHAIN_MAX - size >= c.off)
  }

  lemma AlignKeeps(cs: seq<Chain>, slot: nat, k: nat)
    requires k < |cs| && !cs[k].immutable && LastWithData(cs, slot)
    ensures LastWithData(cs[k := Align(cs[k])], slot) && Content(cs[k := Align(cs[k])]) == Content(cs)
  {
    hide Data;
    UpdateContent(cs, k, Align(cs[k]));
    ContentSplit(cs, k);
    ContentAt(cs, k);
    Assoc(Content(cs[..k]), Data(cs[k]), Content(cs[k + 1..]));
  }

  /** Whether a commit of one vector finds the room in chain `i` where it looks. */
  predicate Committable(cs: seq<Chain>, slot: nat, i: nat) {
    i == |cs| - 1 || i == First(cs, slot)
  }

  /** evbuffer_expand_singlechain: room for `size` bytes in one chain, whose number is
      returned. A commit finds it except where a partly filled chain and an empty one
      are passed over together. */
  method ExpandSingle(buf: EvBuffer, size: nat) returns (r: Option<nat>)
    requires buf.Valid() && WritableTail(buf.chains)
    modifies buf`chains, buf`lastWithDatap, buf`totalLen
    ensures buf.Valid() && buf.Contents() == old(buf.Contents()) && buf.totalLen == old(buf.totalLen)
    ensures r.None? ==> size > MAX_ALLOC - MAX_TO_COPY
    ensures size > MAX_ALLOC ==> r.None?
    ensures r.Some? ==> buf.lastWithDatap.Index() == old(buf.lastWithDatap).Index()
    ensures r.Some? ==>
      var cs, slot := buf.chains, buf.lastWithDatap.Index();
      && r.value < |cs| && SpaceLen(cs[r.value]) >= size && !cs[r.value].immutable && slot <= r.value <= slot + 1
      && (Committable(cs, slot, r.value) <==> !PassesOver(old(buf.chains), slot, size))
  {
    hide Content, Data, Align;
    var slot := buf.lastWithDatap.Index();
    var i := if slot < |buf.chains| && SpaceLen(buf.chains[slot]) == 0 then slot + 1 else slot;
    if i >= |buf.chains| || buf.chains[i].immutable {
      r := InsertNew(buf, size);
      return;
    }
    var c := buf.chains[i];
    if SpaceLen(c) >= size {
      return Some(i);
    }
    if c.off == 0 {
      r := InsertNew(buf, size);
      return;
    }
    if ShouldRealign(c, size) {
      AlignKeeps(buf.chains, slot, i);
      buf.chains := buf.chains[i := Align(c)];
      return Some(i);
    }
    if SpaceLen(c) < |c.buffer| / 8 || c.off > MAX_TO_COPY || (size < CHAIN_MAX && CHAIN_MAX - size >= c.off) {
      if i + 1 < |buf.chains| && SpaceLen(buf.chains[i + 1]) >= size {
        return Some(i + 1);
      }
      r := InsertNew(buf, size);
    } else {
      var tmp := NewChain(c.off + size);
      assert tmp.None?;
      return None;
    }
  }

  /** The room in `n` chains from number `i` on, as far as there are that many. */
  function SpaceFrom(cs: seq<Chain>, i: nat, n: nat): nat
    decreases n
  {
    if n == 0 || i >= |cs| then 0 else SpaceLen(cs[i]) + SpaceFrom(cs, i + 1, n - 1)
  }

  lemma {:induction false} SpaceMore(cs: seq<Chain>, i: nat, n: nat)
    ensures SpaceFrom(cs, i, n + 1) == SpaceFrom(cs, i, n) + if i + n < |cs| then SpaceLen(cs[i + n]) else 0
    decreases n
  {
    if n > 0 && i < |cs| {
      SpaceMore(cs, i + 1, n - 1);
    }
  }

  lemma {:induction false} SpaceGrows(cs: seq<Chain>, i: nat, m: nat, n: nat)
    requires m <= n
    ensures SpaceFrom(cs, i, m) <= SpaceFrom(cs, i, n)
    decreases n
  {
    if m < n {
      SpaceGrows(cs, i, m, n - 1);
      SpaceMore(cs, i, n - 1);
    }
  }

  lemma {:induction false} SpaceSame(cs: seq<Chain>, ds: seq<Chain>, i: nat, n: nat)
    requires i + n <= |cs| && i + n <= |ds| && forall k | i <= k < i + n :: cs[k] == ds[k]
    ensures SpaceFrom(cs, i, n) == SpaceFrom(ds, i, n)
    decreases n
  {
    if n > 0 {
      SpaceSame(cs, ds, i + 1, n - 1);
    }
  }

  /** Moving the place for data in an empty chain. */
  lemma MoveEmpty(cs: seq<Chain>, slot: nat, k: nat)
    requires k < |cs| && cs[k].off == 0 && !cs[k].immutable && LastWithData(cs, slot)
    ensures var ds := cs[k := cs[k].(misalign := 0)];
      LastWithData(ds, slot) && Content(ds) == Content(cs) && SpaceLen(ds[k]) == |cs[k].buffer| > 0
  {
    var c: Chain := cs[k].(misalign := 0);
    UpdateContent(cs, k, c);
    assert Data(c) == Data(cs[k]) == [];
  }

  /** The first part of _evbuffer_expand_fast: counts the room in the last chains, and
      makes all of the buffers of empty ones usable. */
  method CountRoom(buf: EvBuffer, size: nat, n: nat) returns (enough: bool, used: nat, avail: nat)
    requires buf.Valid() && WritableTail(buf.chains) && buf.chains != [] && n >= 2
    modifies buf`chains
    ensures buf.Valid() && WritableTail(buf.chains) && buf.Contents() == old(buf.Contents()) && |buf.chains| == |old(buf.chains)|
    ensures forall k | 0 <= k < |buf.chains| :: buf.chains[k].off == old(buf.chains)[k].off
    ensures avail == SpaceFrom(buf.chains, First(buf.chains, buf.lastWithDatap.Index()), used) && used <= n
    ensures if enough then avail >= size
            else avail < size && (used == n || First(buf.chains, buf.lastWithDatap.Index()) + used == |buf.chains|)
  {
    hide Content, Data, SpaceFrom;
    var slot := buf.lastWithDatap.Index();
    enough, used, avail := false, 0, 0;
    ghost var cs := buf.chains;
    SpaceNone(buf.chains, slot);
    var ch := slot;
    while ch < |buf.chains| && used < n
      invariant buf.Valid() && WritableTail(buf.chains) && Content(buf.chains) == Content(cs) && |buf.chains| == |cs|
      invariant forall k | 0 <= k < |cs| :: buf.chains[k].off == cs[k].off
      invariant slot <= ch <= |cs| && used <= n && (avail < size || (avail == 0 && ch == slot))
      invariant if ch == slot then used == 0 && avail == 0 else First(buf.chains, slot) + used == ch
      invariant avail == SpaceFrom(buf.chains, First(buf.chains, slot), used)
      decreases |cs| - ch
    {
      ghost var before := buf.chains;
      if buf.chains[ch].off > 0 {
        assert ch == slot;
        var space := SpaceLen(buf.chains[ch]);
        if space > 0 {
          avail := avail + space;
          used := used + 1;
        }
      } else {
        MoveEmpty(buf.chains, slot, ch);
        buf.chains := buf.chains[ch := buf.chains[ch].(misalign := 0)];
        if ch > slot {
          SpaceSame(before, buf.chains, First(before, slot), used);
        }
        avail := avail + |buf.chains[ch].buffer|;
        used := used + 1;
      }
      SpaceNone(buf.chains, slot);
      SpaceOne(buf.chains, slot, ch, used);
      ch := ch + 1;
      if avail >= size {
        return true, used, avail;
      }
    }
  }

  lemma SpaceNone(cs: seq<Chain>, slot: nat)
    ensures SpaceFrom(cs, First(cs, slot), 0) == 0
  {
  }

  /** Chain `ch` counts, unless it is the slot's and full. */
  lemma SpaceOne(cs: seq<Chain>, slot: nat, ch: nat, used: nat)
    requires slot <= ch < |cs| && First(cs, slot) + used == ch + 1
    ensures used == 0 ==> SpaceFrom(cs, First(cs, slot), used) == 0
    ensures used > 0 ==> SpaceFrom(cs, First(cs, slot), used) == SpaceFrom(cs, First(cs, slot), used - 1) + SpaceLen(cs[ch])
  {
    if used > 0 {
      SpaceMore(cs, First(cs, slot), used - 1);
    }
  }

  /** The chains from number `keep` on, which are empty, are replaced by the chains
      `c`, none or an empty one. */
  method Attach(buf: EvBuffer, keep: nat, c: seq<Chain>)
    requires buf.Valid() && keep <= |buf.chains|
    requires buf.lastWithDatap.Index() < keep || (keep == 0 && EmptyFrom(buf.chains, 0))
    requires |c| <= 1 && AllEmpty(c)
    modifies buf`chains, buf`lastWithDatap, buf`totalLen
    ensures buf.Valid() && buf.Contents() == old(buf.Contents()) && buf.totalLen == old(buf.totalLen)
    ensures buf.chains == old(buf.chains)[..keep] + c
    ensures buf.lastWithDatap.Index() == if keep == 0 then 0 else old(buf.lastWithDatap).Index()
  {
    hide Content, Data;
    ghost var cs := buf.chains;
    ContentSplit(cs, keep);
    assert AllEmpty(cs[keep..]);
    ContentEmpty(cs[keep..]);
    ContentAppend(cs[..keep], c);
    ContentEmpty(c);
    assert Content(cs[..keep] + c) == Content(cs);
    if keep == 0 {
      assert cs[..0] == [];
      ContentEmpty(cs[..0]);
      buf.lastWithDatap, buf.totalLen := Head, 0;
    }
    buf.chains := buf.chains[..keep] + c;
  }

  /** _evbuffer_expand_fast: room for `size` bytes in the first `n` chains with room. */
  method ExpandFast(buf: EvBuffer, size: nat, n: nat) returns (ok: bool)
    requires buf.Valid() && WritableTail(buf.chains) && n >= 2
    modifies buf`chains, buf`lastWithDatap, buf`totalLen
    ensures buf.Valid() && buf.Contents() == old(buf.Contents()) && buf.totalLen == old(buf.totalLen)
    ensures !ok ==> size > MAX_ALLOC
    ensures ok ==> buf.chains != [] && SpaceFrom(buf.chains, First(buf.chains, buf.lastWithDatap.Index()), n) >= size
  {
    hide Content, Data, SpaceFrom;
    if buf.chains == [] || buf.chains[|buf.chains| - 1].immutable {
      ghost var cs, slot := buf.chains, buf.lastWithDatap.Index();
      var i := InsertNew(buf, size);
      if i.Some? {
        assert cs != [] && i.value == slot + 1 ==> cs[slot] == cs[..i.value][slot];
        RoomInNew(buf.chains, slot, i.value, n);
      }
      return i.Some?;
    }
    var enough, used, avail := CountRoom(buf, size, n);
    var slot := buf.lastWithDatap.Index();
    if enough {
      SpaceGrows(buf.chains, First(buf.chains, slot), used, n);
      return true;
    }
    ghost var cs := buf.chains;
    if used < n {
      var tmp := NewChain(size - avail);
      if tmp.None? {
        return false;
      }
      Attach(buf, |buf.chains|, [tmp.value]);
      assert cs[..|cs|] == cs;
      RoomBehind(cs, slot, used, tmp.value, n);
    } else {
      var keep := if buf.chains[slot].off == 0 then 0 else slot + 1;
      var left := if buf.chains[slot].off == 0 then 0 else SpaceLen(buf.chains[slot]);
      RoomAtSlot(cs, slot, used);
      var tmp := NewChain(size - left);
      if tmp.None? {
        Attach(buf, keep, []);
        return false;
      }
      Attach(buf, keep, [tmp.value]);
      RoomOfTwo(cs, slot, keep, tmp.value, n);
    }
    return true;
  }

  lemma RoomInNew(cs: seq<Chain>, slot: nat, i: nat, n: nat)
    requires i == |cs| - 1 && slot <= i <= slot + 1 && n >= 2
    ensures SpaceFrom(cs, First(cs, slot), n) >= SpaceLen(cs[i])
  {
    assert SpaceFrom(cs, i, 1) == SpaceLen(cs[i]);
    if First(cs, slot) == i {
      SpaceGrows(cs, i, 1, n);
    } else if i == slot + 1 {
      assert SpaceFrom(cs, slot, 2) == SpaceLen(cs[slot]) + SpaceFrom(cs, i, 1);
      SpaceGrows(cs, slot, 2, n);
    }
  }

  lemma RoomBehind(cs: seq<Chain>, slot: nat, used: nat, c: Chain, n: nat)
    requires slot < |cs| && First(cs, slot) + used == |cs| && used < n
    ensures SpaceFrom(cs + [c], First(cs + [c], slot), n) >= SpaceFrom(cs, First(cs, slot), used) + SpaceLen(c)
  {
    var f := First(cs, slot);
    SpaceSame(cs, cs + [c], f, used);
    SpaceMore(cs + [c], f, used);
    SpaceGrows(cs + [c], f, used + 1, n);
  }

  lemma RoomAtSlot(cs: seq<Chain>, slot: nat, used: nat)
    requires slot < |cs| && used > 0
    ensures SpaceLen(cs[slot]) <= SpaceFrom(cs, First(cs, slot), used)
  {
  }

  lemma RoomOfTwo(cs: seq<Chain>, slot: nat, keep: nat, c: Chain, n: nat)
    requires slot < |cs| && n >= 2 && (keep == slot + 1 || (keep == 0 && slot == 0))
    ensures var ds := cs[..keep] + [c];
      SpaceFrom(ds, First(ds, slot), n) >= SpaceLen(c) + if keep == 0 then 0 else SpaceLen(cs[slot])
  {
    var ds := cs[..keep] + [c];
    RoomInNew(ds, slot, keep, n);
    if keep > 0 && First(ds, slot) == slot {
      assert SpaceFrom(ds, keep, 1) == SpaceLen(c);
      assert SpaceFrom(ds, slot, 2) == SpaceLen(ds[slot]) + SpaceFrom(ds, keep, 1);
      SpaceGrows(ds, slot, 2, n);
    }
  }

  /** The vectors are the room of consecutive chains from number `first` on. */
  predicate Offered(cs: seq<Chain>, first: nat, vs: seq<Vec>) {
    first + |vs| <= |cs| && forall k {:trigger vs[k]} | 0 <= k < |vs| :: vs[k] == SpaceOf(cs, first + k)
  }

  function Lens(vs: seq<Vec>): nat {
    if vs == [] then 0 else Lens(vs[..|vs| - 1]) + vs[|vs| - 1].len
  }

  /** _evbuffer_read_setup_vecs, not exact. */
  method SetupVecs(cs: seq<Chain>, slot: nat, howMuch: nat, n: nat) returns (vs: seq<Vec>)
    requires slot < |cs| && SpaceFrom(cs, First(cs, slot), n) >= howMuch
    ensures |vs| <= n && Offered(cs, First(cs, slot), vs)
    ensures Lens(vs) >= howMuch && (vs != [] ==> Lens(vs) - vs[|vs| - 1].len < howMuch)
  {
    hide SpaceFrom, Lens, SpaceLen;
    var first := if SpaceLen(cs[slot]) == 0 then slot + 1 else slot;
    SpaceNone(cs, slot);
    SpaceGrows(cs, first, 0, n);
    NoLens();
    vs := [];
    var soFar: nat := 0;
    while |vs| < n && soFar < howMuch
      invariant |vs| <= n && Offered(cs, first, vs) && soFar == Lens(vs) == SpaceFrom(cs, first, |vs|)
      invariant vs != [] ==> Lens(vs) - vs[|vs| - 1].len < howMuch
      decreases n - |vs|
    {
      SpaceEnds(cs, first, |vs|, n);
      SpaceMore(cs, first, |vs|);
      var v := SpaceOf(cs, first + |vs|);
      LensMore(vs, v);
      soFar := soFar + v.len;
      vs := vs + [v];
    }
  }

  lemma NoLens()
    ensures Lens([]) == 0
  {
  }

  lemma LensMore(vs: seq<Vec>, v: Vec)
    ensures Lens(vs + [v]) == Lens(vs) + v.len
  {
    assert (vs + [v])[..|vs|] == vs;
  }

  /** Where room is still to come, there is a chain. */
  lemma {:induction false} SpaceEnds(cs: seq<Chain>, i: nat, m: nat, n: nat)
    requires m <= n && SpaceFrom(cs, i, m) < SpaceFrom(cs, i, n)
    ensures i + m < |cs|
    decreases n
  {
    SpaceMore(cs, i, n - 1);
    if m < n - 1 && SpaceFrom(cs, i, m) < SpaceFrom(cs, i, n - 1) {
      SpaceEnds(cs, i, m, n - 1);
    }
  }

  /** evbuffer_reserve_space for one vector. */
  method ReserveOne(buf: EvBuffer, size: nat) returns (r: Option<Vec>)
    requires buf.Valid() && WritableTail(buf.chains)
    modifies buf`chains, buf`lastWithDatap, buf`totalLen
    ensures buf.Valid() && buf.Contents() == old(buf.Contents()) && buf.totalLen == old(buf.totalLen)
    ensures r.None? ==> size > MAX_ALLOC - MAX_TO_COPY
    ensures r.Some? ==> r.value.chain < |buf.chains| && r.value == SpaceOf(buf.chains, r.value.chain) && r.value.len >= size
    ensures r.Some? ==> buf.lastWithDatap.Index() <= r.value.chain <= buf.lastWithDatap.Index() + 1
    ensures r.Some? ==>
      (Committable(buf.chains, buf.lastWithDatap.Index(), r.value.chain)
       <==> !PassesOver(old(buf.chains), old(buf.lastWithDatap).Index(), size))
  {
    hide Content, Data, PassesOver, Committable;
    var i := ExpandSingle(buf, size);
    if i.None? {
      return None;
    }
    return Some(SpaceOf(buf.chains, i.value));
  }

  /** evbuffer_reserve_space for two vectors or more. */
  method ReserveMany(buf: EvBuffer, size: nat, n: nat) returns (r: Option<seq<Vec>>)
    requires buf.Valid() && WritableTail(buf.chains) && n >= 2
    modifies buf`chains, buf`lastWithDatap, buf`totalLen
    ensures buf.Valid() && buf.Contents() == old(buf.Contents()) && buf.totalLen == old(buf.totalLen)
    ensures r.None? ==> size > MAX_ALLOC
    ensures r.Some? ==> |r.value| <= n && Lens(r.value) >= size
    ensures r.Some? ==> Offered(buf.chains, First(buf.chains, buf.lastWithDatap.Index()), r.value)
    ensures r.Some? ==> buf.chains != [] && Near(buf.lastWithDatap.Index(), r.value)
  {
    hide Content, Data, SpaceFrom, Lens, Offered, First, LastWithData;
    var ok := ExpandFast(buf, size, n);
    if !ok {
      return None;
    }
    var vs := SetupVecs(buf.chains, buf.lastWithDatap.Index(), size, n);
    OfferedNear(buf.chains, buf.lastWithDatap.Index(), vs);
    return Some(vs);
  }

  /** evbuffer_reserve_space: at least `size` bytes in at most `n` vectors; nothing that
      the buffer holds changes. A commit finds the vectors but for one case. */
  method ReserveSpace(buf: EvBuffer, size: nat, n: nat) returns (r: Option<seq<Vec>>)
    requires buf.Valid() && WritableTail(buf.chains)
    modifies buf`chains, buf`lastWithDatap, buf`totalLen
    ensures buf.Valid() && buf.Contents() == old(buf.Contents()) && buf.totalLen == old(buf.totalLen)
    ensures r.None? ==> buf.freezeEnd || n < 1 || size > MAX_ALLOC - MAX_TO_COPY
    ensures r.Some? ==> buf.chains != [] && !buf.freezeEnd && |r.value| <= n && Lens(r.value) >= size
    ensures r.Some? ==> Near(buf.lastWithDatap.Index(), r.value) && Places(buf.chains, r.value)
    ensures r.Some? ==> forall k {:trigger r.value[k]} | 0 <= k < |r.value| ::
      var v := r.value[k];
      v.chain < |buf.chains| && var c := buf.chains[v.chain];
      v.at == c.misalign + c.off && v.len == if c.immutable then 0 else |c.buffer| - v.at
    ensures r.Some? ==> if n == 1 then |r.value| == 1 else Matching(buf.chains, buf.lastWithDatap.Index(), r.value)
    ensures r.Some? ==>
      (Matching(buf.chains, buf.lastWithDatap.Index(), r.value)
       <==> !(n == 1 && PassesOver(old(buf.chains), old(buf.lastWithDatap).Index(), size)))
  {
    hide Content, Data, PassesOver, LastWithData, Lens, First;
    if buf.freezeEnd || n < 1 {
      return None;
    }
    if n == 1 {
      var v := ReserveOne(buf, size);
      if v.None? {
        return None;
      }
      NoLens();
      LensMore([], v.value);
      OneMatches(buf.chains, buf.lastWithDatap.Index(), v.value);
      assert [] + [v.value] == [v.value];
      return Some([v.value]);
    }
    r := ReserveMany(buf, size, n);
    if r.Some? {
      MatchingPlaces(buf.chains, buf.lastWithDatap.Index(), r.value);
    }
  }

  /** A single vector is in the chain of the slot or the next. */
  predicate Near(slot: nat, vs: seq<Vec>) {
    |vs| == 1 ==> slot <= vs[0].chain <= slot + 1
  }

  /** The vectors are where evbuffer_commit_space looks for them. */
  predicate Matching(cs: seq<Chain>, slot: nat, vs: seq<Vec>) {
    Offered(cs, First(cs, slot), vs) || (|vs| == 1 && cs != [] && vs[0] == SpaceOf(cs, |cs| - 1))
  }

  lemma OfferedNear(cs: seq<Chain>, slot: nat, vs: seq<Vec>)
    requires Offered(cs, First(cs, slot), vs)
    ensures Near(slot, vs)
  {
    assert vs != [] ==> vs[0] == SpaceOf(cs, First(cs, slot));
  }

  lemma OneMatches(cs: seq<Chain>, slot: nat, v: Vec)
    requires v.chain < |cs| && v == SpaceOf(cs, v.chain)
    ensures Matching(cs, slot, [v]) <==> Committable(cs, slot, v.chain)
  {
    assert [v][0] == v;
  }

  /** The caller writes to the room that a vector stands for. */
  method WriteVec(buf: EvBuffer, v: Vec, data: seq<byte>)
    requires buf.Valid() && v.chain < |buf.chains| && v == SpaceOf(buf.chains, v.chain) && |data| <= v.len
    modifies buf`chains
    ensures buf.Valid() && buf.Contents() == old(buf.Contents())
    ensures buf.chains == old(buf.chains)[v.chain := Written(old(buf.chains)[v.chain], v.at, data)]
  {
    hide Content, Data, CopyTo;
    var cs := buf.chains;
    var c := Written(cs[v.chain], v.at, data);
    buf.chains := buf.chains[v.chain := c];
    WrittenData(cs[v.chain], v.at, data);
    UpdateContent(cs, v.chain, c);
  }

  function Written(c: Chain, at: nat, data: seq<byte>): Chain
    requires at == c.misalign + c.off && |data| <= SpaceLen(c)
  {
    c.(buffer := CopyTo(c.buffer, at, data))
  }

  lemma WrittenData(c: Chain, at: nat, data: seq<byte>)
    requires at == c.misalign + c.off && |data| <= SpaceLen(c)
    ensures Data(Written(c, at, data)) == Data(c)
  {
    var d := Written(c, at, data);
    assert d.buffer[..at][c.misalign..] == c.buffer[..at][c.misalign..];
    assert Data(d) == d.buffer[..at][c.misalign..] && Data(c) == c.buffer[..at][c.misalign..];
  }

  // Committing

  predicate SamePlace(v: Vec, s: Vec) {
    v.chain == s.chain && v.at == s.at
  }

  /** The vectors are places in consecutive chains, and no longer than the room there. */
  predicate AllFit(cs: seq<Chain>, first: nat, vs: seq<Vec>) {
    && first + |vs| <= |cs|
    && forall k {:trigger vs[k]} | 0 <= k < |vs| :: SamePlace(vs[k], SpaceOf(cs, first + k)) && vs[k].len <= SpaceLen(cs[first + k])
  }

  /** The commit is about the last chain only. */
  predicate LastOnly(cs: seq<Chain>, vs: seq<Vec>) {
    |vs| == 1 && cs != [] && SamePlace(vs[0], SpaceOf(cs, |cs| - 1))
  }

  predicate Commits(cs: seq<Chain>, slot: nat, vs: seq<Vec>) {
    || vs == []
    || if LastOnly(cs, vs) then vs[0].len <= SpaceLen(cs[|cs| - 1]) else cs != [] && AllFit(cs, First(cs, slot), vs)
  }

  /** The bytes that stand in the places. */
  function Slice(cs: seq<Chain>, v: Vec): seq<byte> {
    if v.chain < |cs| && v.at + v.len <= |cs[v.chain].buffer| then cs[v.chain].buffer[v.at..v.at + v.len] else []
  }

  function Slices(cs: seq<Chain>, vs: seq<Vec>): seq<byte> {
    if vs == [] then [] else Slices(cs, vs[..|vs| - 1]) + Slice(cs, vs[|vs| - 1])
  }

  /** A chain with `n` bytes of its room taken as data. */
  function Taken(c: Chain, n: nat): Chain
    requires n <= SpaceLen(c)
  {
    c.(off := c.off + n)
  }

  /** `ds` and `at` are the chains and the slot when the first `k` vectors were taken. */
  ghost predicate Progress(cs: seq<Chain>, ds: seq<Chain>, slot: nat, at: nat, first: nat, vs: seq<Vec>, k: nat) {
    && k <= |vs| && first + |vs| <= |cs| == |ds|
    && Content(ds) == Content(cs) + Slices(cs, vs[..k])
    && LastWithData(ds, at) && at < |ds| && slot <= at && (at < first + k || at == slot)
    && (forall j {:trigger ds[j]} | first + k <= j < |ds| :: ds[j] == cs[j])
  }

  lemma TakeOne(cs: seq<Chain>, ds: seq<Chain>, slot: nat, at: nat, first: nat, vs: seq<Vec>, k: nat)
    requires Progress(cs, ds, slot, at, first, vs, k) && k < |vs| && AllFit(cs, first, vs)
    requires slot <= first <= slot + 1 && EmptyFrom(cs, slot + 1)
    ensures SamePlace(vs[k], SpaceOf(ds, first + k)) && vs[k].len <= SpaceLen(ds[first + k])
    ensures Progress(cs, ds[first + k := Taken(ds[first + k], vs[k].len)], slot, if vs[k].len > 0 then first + k else at, first, vs, k + 1)
  {
    hide Content, Data, Slices, Slice, LastWithData, SpaceLen;
    var i, v := first + k, vs[k];
    var c := Taken(ds[i], v.len);
    assert ds[i] == cs[i];
    TakenData(cs, i, v);
    SlicesMore(cs, vs, k, i);
    forall j | i + 1 <= j < |ds|
      ensures ds[j].off == 0
    {
      assert ds[j] == cs[j] && cs[j].off == 0;
    }
    assert AllEmpty(ds[i + 1..]);
    ContentEmpty(ds[i + 1..]);
    UpdateContent(ds, i, c);
    Assoc(Content(ds[..i]), Data(ds[i]), Slice(cs, v));
    Assoc(Content(cs), Slices(cs, vs[..k]), Slice(cs, v));
    TakenLast(ds, at, i, c, v.len);
  }

  lemma TakenData(cs: seq<Chain>, i: nat, v: Vec)
    requires i < |cs| && SamePlace(v, SpaceOf(cs, i)) && v.len <= SpaceLen(cs[i])
    ensures Data(Taken(cs[i], v.len)) == Data(cs[i]) + Slice(cs, v)
  {
  }

  lemma TakenLast(ds: seq<Chain>, at: nat, i: nat, c: Chain, n: nat)
    requires i < |ds| && at <= i && LastWithData(ds, at) && n <= SpaceLen(ds[i]) && c == Taken(ds[i], n)
    ensures LastWithData(ds[i := c], if n > 0 then i else at)
  {
  }

  /** evbuffer_commit_space: all of the vectors or none. The slot finds the last chain
      with data again, unless only the last chain was committed to and an empty one
      stands between. */
  method CommitSpace(buf: EvBuffer, vs: seq<Vec>) returns (ok: bool)
    requires buf.Valid()
    modifies buf`chains, buf`lastWithDatap, buf`totalLen, buf`nAddForCb
    ensures ok <==> !buf.freezeEnd && Commits(old(buf.chains), old(buf.lastWithDatap).Index(), vs)
    ensures !ok ==> unchanged(buf)
    ensures ok ==> buf.Linked() && buf.Contents() == old(buf.Contents()) + Slices(old(buf.chains), vs)
    ensures ok ==> buf.nAddForCb == old(buf.nAddForCb) + |Slices(old(buf.chains), vs)|
    ensures ok ==> (buf.Valid() <==>
      !LastOnly(old(buf.chains), vs) || vs[0].len == 0 || old(buf.lastWithDatap).Index() + 1 >= |old(buf.chains)| - 1)
  {
    hide Content, Data, SpaceLen, LastWithData, Slices;
    if buf.freezeEnd {
      return false;
    }
    if vs == [] {
      NoneCommitted(buf.chains, buf.Contents());
      return true;
    }
    var last := |buf.chains| - 1;
    if |vs| == 1 && buf.chains != [] && SamePlace(vs[0], SpaceOf(buf.chains, last)) {
      if vs[0].len > SpaceLen(buf.chains[last]) {
        return false;
      }
      CommitLast(buf, vs);
      return true;
    }
    var slot := buf.lastWithDatap.Index();
    if buf.chains == [] {
      return false;
    }
    var first := if SpaceLen(buf.chains[slot]) == 0 then slot + 1 else slot;
    var fit := CheckFit(buf.chains, first, vs);
    if !fit {
      return false;
    }
    CommitAll(buf, vs, first);
    return true;
  }

  /** The first pass. */
  method CheckFit(cs: seq<Chain>, first: nat, vs: seq<Vec>) returns (fit: bool)
    requires first <= |cs|
    ensures fit <==> AllFit(cs, first, vs)
  {
    hide SpaceLen;
    for k := 0 to |vs|
      invariant first + k <= |cs|
      invariant forall j {:trigger vs[j]} | 0 <= j < k ::
          (SamePlace(vs[j], SpaceOf(cs, first + j)) && vs[j].len <= SpaceLen(cs[first + j]))
    {
      if first + k >= |cs| {
        return false;
      }
      if !SamePlace(vs[k], SpaceOf(cs, first + k)) || vs[k].len > SpaceLen(cs[first + k]) {
        return false;
      }
    }
    return true;
  }

  lemma NoneCommitted(cs: seq<Chain>, c: seq<byte>)
    ensures Slices(cs, []) == [] && c + [] == c
  {
  }

  /** The second pass. */
  method CommitAll(buf: EvBuffer, vs: seq<Vec>, first: nat)
    requires buf.Valid() && buf.chains != [] && first == First(buf.chains, buf.lastWithDatap.Index()) && AllFit(buf.chains, first, vs)
    modifies buf`chains, buf`lastWithDatap, buf`totalLen, buf`nAddForCb
    ensures buf.Valid() && buf.Contents() == old(buf.Contents()) + Slices(old(buf.chains), vs)
    ensures buf.nAddForCb == old(buf.nAddForCb) + |Slices(old(buf.chains), vs)|
  {
    hide Content, Data, SpaceLen, Slices;
    var cs, slot := buf.chains, buf.lastWithDatap.Index();
    var ds: seq<Chain>, at: nat, p := cs, slot, buf.lastWithDatap;
    var added: nat := 0;
    NoneCommitted(cs, Content(cs));
    assert vs[..0] == [];
    for k := 0 to |vs|
      invariant Progress(cs, ds, slot, at, first, vs, k) && added == |Slices(cs, vs[..k])| && p.Index() == at
      invariant unchanged(buf)
    {
      TakeOne(cs, ds, slot, at, first, vs, k);
      SlicesMore(cs, vs, k, first + k);
      ds := ds[first + k := Taken(ds[first + k], vs[k].len)];
      added := added + vs[k].len;
      if vs[k].len > 0 {
        at := first + k;
        p := if at == 0 then Head else NextOf(at - 1);
      }
    }
    assert vs[..|vs|] == vs;
    buf.chains, buf.lastWithDatap := ds, p;
    buf.totalLen := buf.totalLen + added;
    buf.nAddForCb := buf.nAddForCb + added;
  }

  lemma SlicesMore(cs: seq<Chain>, vs: seq<Vec>, k: nat, i: nat)
    requires k < |vs| && i < |cs| && SamePlace(vs[k], SpaceOf(cs, i)) && vs[k].len <= SpaceLen(cs[i])
    ensures Slices(cs, vs[..k + 1]) == Slices(cs, vs[..k]) + Slice(cs, vs[k]) && |Slice(cs, vs[k])| == vs[k].len
  {
    assert vs[..k + 1][..k] == vs[..k];
  }

  /** The short way for the last chain. */
  method CommitLast(buf: EvBuffer, vs: seq<Vec>)
    requires buf.Valid() && LastOnly(buf.chains, vs) && vs[0].len <= SpaceLen(buf.chains[|buf.chains| - 1])
    modifies buf`chains, buf`lastWithDatap, buf`totalLen, buf`nAddForCb
    ensures buf.Linked() && buf.Contents() == old(buf.Contents()) + Slices(old(buf.chains), vs)
    ensures buf.nAddForCb == old(buf.nAddForCb) + |Slices(old(buf.chains), vs)|
    ensures buf.Valid() <==> vs[0].len == 0 || old(buf.lastWithDatap).Index() + 1 >= |old(buf.chains)| - 1
  {
    hide Content, Data, SpaceLen, Slices;
    ghost var cs, slot := buf.chains, buf.lastWithDatap.Index();
    var last := |buf.chains| - 1;
    var c := Taken(buf.chains[last], vs[0].len);
    TakenData(cs, last, vs[0]);
    SlicesMore(cs, vs, 0, last);
    NoneCommitted(cs, Slice(cs, vs[0]));
    assert vs[..0] == [] && vs[..1] == vs;
    GrowLastContent(cs, c, Slice(cs, vs[0]));
    buf.chains := buf.chains[last := c];
    buf.totalLen := buf.totalLen + vs[0].len;
    buf.nAddForCb := buf.nAddForCb + vs[0].len;
    if vs[0].len > 0 {
      buf.AdvanceLastWithData();
    }
    LastTaken(cs, slot, c, vs[0].len, buf.lastWithDatap.Index());
  }

  lemma LastTaken(cs: seq<Chain>, slot: nat, c: Chain, n: nat, at: nat)
    requires cs != [] && slot < |cs| && LastWithData(cs, slot) && n <= SpaceLen(cs[|cs| - 1]) && c == Taken(cs[|cs| - 1], n)
    requires if n > 0 then IsAdvance(cs[|cs| - 1 := c], slot, at) else at == slot
    ensures LastWithData(cs[|cs| - 1 := c], at) <==> n == 0 || slot + 1 >= |cs| - 1
  {
    var ds := cs[|cs| - 1 := c];
    assert ds[|cs| - 1].off == cs[|cs| - 1].off + n;
    if n > 0 && slot + 1 < |cs| - 1 {
      assert ds[slot + 1] == cs[slot + 1] && cs[slot + 1].off == 0;
      assert at == slot;
    }
  }

  // The whole protocol

  function Concat(parts: seq<seq<byte>>): seq<byte> {
    if parts == [] then [] else Concat(parts[..|parts| - 1]) + parts[|parts| - 1]
  }

  /** The vectors with the lengths of what was written to them. */
  function Used(vs: seq<Vec>, parts: seq<seq<byte>>): (r: seq<Vec>)
    requires |parts| <= |vs|
    ensures |r| == |parts| && forall k {:trigger r[k]} | 0 <= k < |r| :: r[k] == vs[k].(len := |parts[k]|)
  {
    seq(|parts|, k requires 0 <= k < |parts| => vs[k].(len := |parts[k]|))
  }

  predicate PartsFit(vs: seq<Vec>, parts: seq<seq<byte>>) {
    |parts| <= |vs| && forall k {:trigger parts[k]} | 0 <= k < |parts| :: |parts[k]| <= vs[k].len
  }

  /** Only what stands in buffers differs. */
  predicate SameShape(cs: seq<Chain>, ds: seq<Chain>) {
    |cs| == |ds| && forall i {:trigger ds[i]} | 0 <= i < |ds| :: Shape(ds[i]) == Shape(cs[i])
  }

  function Shape(c: Chain): (nat, nat, nat, bool) {
    (|c.buffer|, c.misalign, c.off, c.immutable)
  }

  /** The vectors are the room of different chains. */
  predicate Places(cs: seq<Chain>, vs: seq<Vec>) {
    && (forall k {:trigger vs[k]} | 0 <= k < |vs| :: vs[k].chain < |cs| && vs[k] == SpaceOf(cs, vs[k].chain))
    && (forall j, k {:trigger vs[j], vs[k]} | 0 <= j < k < |vs| :: vs[j].chain != vs[k].chain)
  }

  lemma {:induction false} SlicesAre(cs: seq<Chain>, vs: seq<Vec>, parts: seq<seq<byte>>)
    requires |vs| == |parts| && forall k {:trigger vs[k]} | 0 <= k < |vs| :: Slice(cs, vs[k]) == parts[k]
    ensures Slices(cs, vs) == Concat(parts)
  {
    if vs != [] {
      SlicesAre(cs, vs[..|vs| - 1], parts[..|parts| - 1]);
    }
  }

  /** The caller fills vectors, in any order of chains. */
  method WriteAll(buf: EvBuffer, vs: seq<Vec>, parts: seq<seq<byte>>)
    requires buf.Valid() && Places(buf.chains, vs) && PartsFit(vs, parts)
    modifies buf`chains
    ensures buf.Valid() && buf.Contents() == old(buf.Contents()) && SameShape(old(buf.chains), buf.chains)
    ensures Slices(buf.chains, Used(vs, parts)) == Concat(parts)
  {
    hide Content, Data, CopyTo, Written, Slice;
    ghost var us := Used(vs, parts);
    for k := 0 to |parts|
      invariant buf.Valid() && buf.Contents() == old(buf.Contents()) && SameShape(old(buf.chains), buf.chains)
      invariant forall j {:trigger us[j]} | 0 <= j < k :: Slice(buf.chains, us[j]) == parts[j]
    {
      ghost var cs := buf.chains;
      ShapeSpace(old(buf.chains), cs, vs[k].chain);
      WriteVec(buf, vs[k], parts[k]);
      WrittenSlice(cs, vs[k].chain, parts[k]);
      forall j | 0 <= j < k
        ensures Slice(buf.chains, us[j]) == parts[j]
      {
        assert vs[j].chain != vs[k].chain;
        OtherSlice(cs, buf.chains, us[j], vs[k].chain);
      }
    }
    SlicesAre(buf.chains, us, parts);
  }

  lemma ShapeSpace(cs: seq<Chain>, ds: seq<Chain>, i: nat)
    requires SameShape(cs, ds) && i < |cs|
    ensures SpaceOf(cs, i) == SpaceOf(ds, i)
  {
    assert Shape(ds[i]) == Shape(cs[i]);
  }

  lemma WrittenSlice(cs: seq<Chain>, i: nat, data: seq<byte>)
    requires i < |cs| && |data| <= SpaceLen(cs[i])
    ensures var s := SpaceOf(cs, i);
      var c := Written(cs[i], s.at, data);
      Slice(cs[i := c], s.(len := |data|)) == data && Shape(c) == Shape(cs[i])
  {
  }

  lemma OtherSlice(cs: seq<Chain>, ds: seq<Chain>, v: Vec, i: nat)
    requires i < |cs| && |ds| == |cs| && ds == cs[i := ds[i]] && v.chain != i
    ensures Slice(ds, v) == Slice(cs, v)
  {
  }

  lemma ShapeMatches(cs: seq<Chain>, ds: seq<Chain>, slot: nat, vs: seq<Vec>)
    requires SameShape(cs, ds)
    ensures Matching(ds, slot, vs) <==> Matching(cs, slot, vs)
    ensures Places(ds, vs) <==> Places(cs, vs)
  {
    forall i | 0 <= i < |cs|
      ensures SpaceOf(cs, i) == SpaceOf(ds, i)
    {
      ShapeSpace(cs, ds, i);
    }
    if slot < |cs| {
      assert Shape(ds[slot]) == Shape(cs[slot]);
    }
  }

  lemma MatchingPlaces(cs: seq<Chain>, slot: nat, vs: seq<Vec>)
    requires Matching(cs, slot, vs)
    ensures Places(cs, vs)
  {
  }

  /** Prefixes of what was reserved are committed, and the slot is found again. */
  lemma MatchingCommits(cs: seq<Chain>, slot: nat, vs: seq<Vec>, parts: seq<seq<byte>>)
    requires cs != [] && slot < |cs| && Matching(cs, slot, vs) && PartsFit(vs, parts)
    requires Near(slot, vs)
    ensures var us := Used(vs, parts);
      Commits(cs, slot, us) && (LastOnly(cs, us) ==> slot + 1 >= |cs| - 1)
  {
    var us := Used(vs, parts);
    if us != [] {
      assert vs[0] == vs[0];
      assert us[0] == vs[0].(len := |parts[0]|);
    }
    if Offered(cs, First(cs, slot), vs) {
      forall k | 0 <= k < |us|
        ensures SamePlace(us[k], SpaceOf(cs, First(cs, slot) + k)) && us[k].len <= SpaceLen(cs[First(cs, slot) + k])
      {
        assert vs[k] == SpaceOf(cs, First(cs, slot) + k);
        assert |parts[k]| <= vs[k].len;
      }
    }
  }

  /** Reserving, writing and committing: the parts are appended, all or nothing. It
      fails, although space was reserved and the parts fit, exactly when one vector was
      asked for and a partly filled chain was passed over. */
  method ReserveWriteCommit(buf: EvBuffer, size: nat, n: nat, parts: seq<seq<byte>>) returns (vs: Option<seq<Vec>>, ok: bool)
    requires buf.Valid() && WritableTail(buf.chains)
    modifies buf`chains, buf`lastWithDatap, buf`totalLen, buf`nAddForCb
    ensures buf.Valid()
    ensures vs.Some? ==> |vs.value| <= n && Lens(vs.value) >= size
    ensures ok ==> vs.Some? && PartsFit(vs.value, parts)
    ensures vs.Some? && PartsFit(vs.value, parts) ==>
      (ok <==> parts == [] || !(n == 1 && PassesOver(old(buf.chains), old(buf.lastWithDatap).Index(), size)))
    ensures buf.Contents() == old(buf.Contents()) + if ok then Concat(parts) else []
  {
    hide Content, Data, PassesOver, Lens, Slices, Concat, Matching, Commits, LastOnly, Places, LastWithData;
    vs := ReserveSpace(buf, size, n);
    if vs.None? || !PartsFit(vs.value, parts) {
      return vs, false;
    }
    ghost var cs, slot := buf.chains, buf.lastWithDatap.Index();
    WriteAll(buf, vs.value, parts);
    ShapeMatches(cs, buf.chains, slot, vs.value);
    CommitsIff(buf.chains, slot, vs.value, parts);
    NoParts(buf.chains, vs.value, buf.Contents());
    ok := CommitSpace(buf, Used(vs.value, parts));
  }

  lemma NoParts(cs: seq<Chain>, vs: seq<Vec>, c: seq<byte>)
    ensures Slices(cs, Used(vs, [])) == [] == Concat([]) && c + [] == c
  {
  }

  /** Whether what was written is committed, and then the slot is found again. */
  lemma CommitsIff(cs: seq<Chain>, slot: nat, vs: seq<Vec>, parts: seq<seq<byte>>)
    requires cs != [] && slot < |cs| && PartsFit(vs, parts) && Near(slot, vs) && Places(cs, vs)
    requires Matching(cs, slot, vs) || |vs| == 1
    ensures var us := Used(vs, parts);
      && (Commits(cs, slot, us) <==> Matching(cs, slot, vs) || parts == [])
      && (Commits(cs, slot, us) && LastOnly(cs, us) ==> slot + 1 >= |cs| - 1)
  {
    var us := Used(vs, parts);
    if Matching(cs, slot, vs) {
      MatchingCommits(cs, slot, vs, parts);
    } else if parts != [] {
      assert us[0] == vs[0].(len := |parts[0]|);
      assert vs[0] == SpaceOf(cs, vs[0].chain);
    }
  }

  /** A buffer, which keeps the invariant, for which a commit after a reservation of
      2000 bytes in one vector fails. */
  lemma PassedOver() returns (cs: seq<Chain>)
    ensures LastWithData(cs, 0) && WritableTail(cs) && PassesOver(cs, 0, 2000)
  {
    var b: seq<byte> := seq(4048, _ => 0);
    cs := [Chain(b, 0, 3000, false), Chain(b, 0, 0, false), Chain(b, 0, 0, false)];
  }

  /** A buffer and a vector for which a commit loses the last chain with data. */
  lemma CommitLoses() returns (cs: seq<Chain>, vs: seq<Vec>)
    ensures LastWithData(cs, 0) && |cs| == 3 && |vs| == 1 && vs[0].len == 1
    ensures Commits(cs, 0, vs) && LastOnly(cs, vs)
  {
    var empty := Chain([0], 0, 0, false);
    cs := [Chain([0], 0, 1, false), empty, empty];
    vs := [SpaceOf(cs, 2)];
  }
}
