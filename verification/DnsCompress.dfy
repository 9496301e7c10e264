/** Writing domain names with compression, and what the parser makes of them. */
module DnsCompress {
  import opened Bytes
  import opened DnsNames

  const MAX_LABELS: nat := 128
  const MAX_POINTER: nat := 0x4000

  /** The index of the first dot, or the length. */
  function FirstDot(name: seq<byte>): (d: nat)
    ensures d <= |name| && (d < |name| ==> name[d] == DOT)
    ensures forall i | 0 <= i < d :: name[i] != DOT
  {
    if name == [] || name[0] == DOT then 0 else 1 + FirstDot(name[1..])
  }

  /** The labels of a name up to its first empty label, which ends it on the wire. */
  function CanonLabels(name: seq<byte>): seq<seq<byte>>
    decreases |name|
  {
    var d := FirstDot(name);
    if d == 0 then []
    else if d == |name| then [name]
    else [name[..d]] + CanonLabels(name[d + 1..])
  }

  /** `ts`, cut at its first empty label, or followed by `tail` if it has none. */
  ghost function Fold(ts: seq<seq<byte>>, tail: seq<seq<byte>>): seq<seq<byte>> {
    if ts == [] then tail else if ts[0] == [] then [] else [ts[0]] + Fold(ts[1..], tail)
  }

  lemma FoldOne(t: seq<byte>, tail: seq<seq<byte>>)
    ensures Fold([t], tail) == if t == [] then [] else [t] + tail
  {
    assert [t][1..] == [];
  }

  lemma {:induction false} FoldSnoc(ts: seq<seq<byte>>, t: seq<byte>, tail: seq<seq<byte>>)
    ensures Fold(ts + [t], tail) == Fold(ts, Fold([t], tail))
  {
    if ts == [] {
      assert ts + [t] == [t];
    } else {
      FoldSnoc(ts[1..], t, tail);
      assert (ts + [t])[1..] == ts[1..] + [t];
    }
  }

  /** A name with the labels `ls` starts at index `j`, for the parser and for a strict
      reader. */
  ghost predicate Decodes(p: seq<byte>, j: nat, ls: seq<seq<byte>>) {
    exists n: nat {:trigger Agreed(p, j, n)} :: Agreed(p, j, n) && Labels(p, j, n) == ls
  }

  /** As Decodes, and the name's own bytes end at `end`. */
  ghost predicate DecodesTo(p: seq<byte>, j: nat, ls: seq<seq<byte>>, end: nat) {
    exists n: nat {:trigger Agreed(p, j, n)} :: Agreed(p, j, n) && Labels(p, j, n) == ls && After(p, j, n) == end
  }

  /** More bytes behind a packet change no name that ends in it. */
  lemma {:induction false} EndsExtend(p: seq<byte>, q: seq<byte>, j: nat, n: nat)
    requires p <= q && Ends(p, j, n)
    ensures Ends(q, j, n) && Labels(q, j, n) == Labels(p, j, n) && After(q, j, n) == After(p, j, n)
    decreases n
  {
    assert Look(q, j) == Look(p, j);
    match Look(p, j)
    case Stop =>
    case Label(_, next) => EndsExtend(p, q, next, n - 1);
    case Jump(target, _) => EndsExtend(p, q, target, n - 1);
  }

  lemma {:induction false} StrictExtend(p: seq<byte>, q: seq<byte>, j: nat, n: nat)
    requires p <= q && StrictRead(p, j, n).Some?
    ensures StrictRead(q, j, n) == StrictRead(p, j, n)
    decreases n
  {
    if 0 < p[j] <= 63 {
      assert q[j + 1..j + 1 + p[j]] == p[j + 1..j + 1 + p[j]];
      StrictExtend(p, q, j + 1 + p[j], n - 1);
    } else if p[j] != 0 {
      StrictExtend(p, q, (p[j] as int - 192) * 256 + p[j + 1] as int, n - 1);
    }
  }

  lemma AgreedExtend(p: seq<byte>, q: seq<byte>, j: nat, n: nat)
    requires p <= q && Agreed(p, j, n)
    ensures Agreed(q, j, n) && Labels(q, j, n) == Labels(p, j, n) && After(q, j, n) == After(p, j, n)
  {
    hide Ends, Labels, After, StrictRead;
    EndsExtend(p, q, j, n);
    StrictExtend(p, q, j, n);
  }

  /** Labels `ts` were written at `ps`, one behind the other, up to index `j`. */
  ghost predicate Pending(p: seq<byte>, ps: seq<nat>, ts: seq<seq<byte>>, j: nat) {
    && |ps| == |ts| && j <= |p|
    && forall i {:trigger ps[i]} {:trigger ts[i]} | 0 <= i < |ps| :: Written(p, ps[i], ts[i], if i + 1 < |ps| then ps[i + 1] else j)
  }

  ghost predicate Written(p: seq<byte>, at: nat, t: seq<byte>, next: nat) {
    && |t| <= 63 && at + 1 + |t| == next <= |p|
    && p[at] == |t| && p[at + 1..next] == t
  }

  lemma WrittenLook(p: seq<byte>, at: nat, t: seq<byte>, next: nat)
    requires Written(p, at, t, next)
    ensures Look(p, at) == if t == [] then Stop else Label(t, next)
  {
  }

  lemma AgreedStop(p: seq<byte>, j: nat)
    requires j < |p| && p[j] == 0
    ensures Agreed(p, j, 0) && Labels(p, j, 0) == [] && After(p, j, 0) == j + 1
  {
  }

  lemma AgreedLabel(p: seq<byte>, at: nat, t: seq<byte>, next: nat, n: nat)
    requires Written(p, at, t, next) && t != [] && Agreed(p, next, n)
    ensures Agreed(p, at, n + 1) && Labels(p, at, n + 1) == [t] + Labels(p, next, n) && After(p, at, n + 1) == After(p, next, n)
  {
    WrittenLook(p, at, t, next);
  }

  lemma AgreedJump(p: seq<byte>, j: nat, target: nat, n: nat)
    requires j + 2 <= |p| && target < |p| && p[j] >= 192 && target == (p[j] as int - 192) * 256 + p[j + 1] as int
    requires Agreed(p, target, n)
    ensures Agreed(p, j, n + 1) && Labels(p, j, n + 1) == Labels(p, target, n) && After(p, j, n + 1) == j + 2
  {
    LookStrict(p, j);
  }

  lemma PendingSnoc(p: seq<byte>, ps: seq<nat>, ts: seq<seq<byte>>, t: seq<byte>)
    requires Pending(p, ps, ts, |p|) && |t| <= 63
    ensures Pending(p + [|t|] + t, ps + [|p|], ts + [t], |p| + 1 + |t|)
  {
    var q := p + [|t|] + t;
    var qs, us := ps + [|p|], ts + [t];
    forall i | 0 <= i < |qs|
      ensures Written(q, qs[i], us[i], if i + 1 < |qs| then qs[i + 1] else |q|)
    {
      if i < |ps| {
        var next := if i + 1 < |ps| then ps[i + 1] else |p|;
        assert Written(p, ps[i], ts[i], next);
        assert q[ps[i] + 1..next] == p[ps[i] + 1..next];
      } else {
        assert q[|p| + 1..] == t;
      }
    }
  }

  lemma PendingExtend(p: seq<byte>, q: seq<byte>, ps: seq<nat>, ts: seq<seq<byte>>, j: nat)
    requires p <= q && Pending(p, ps, ts, j)
    ensures Pending(q, ps, ts, j)
  {
    forall i | 0 <= i < |ps|
      ensures Written(q, ps[i], ts[i], if i + 1 < |ps| then ps[i + 1] else j)
    {
      var next := if i + 1 < |ps| then ps[i + 1] else j;
      assert Written(p, ps[i], ts[i], next);
      assert q[ps[i] + 1..next] == p[ps[i] + 1..next];
    }
  }

  /** Once the bytes after the written labels are known to hold the labels `tail`,
      or the last written label is empty, every written label starts a name. */
  lemma {:induction false} Resolve(p: seq<byte>, ps: seq<nat>, ts: seq<seq<byte>>, j: nat, tail: seq<seq<byte>>, end: nat, i: nat)
    requires Pending(p, ps, ts, j) && i < |ps|
    requires ts[|ts| - 1] == [] || DecodesTo(p, j, tail, end)
    ensures Decodes(p, ps[i], Fold(ts[i..], tail))
    ensures (forall k | i <= k < |ts| - 1 :: ts[k] != []) && (ts[|ts| - 1] == [] ==> end == j) ==>
      DecodesTo(p, ps[i], Fold(ts[i..], tail), end)
    decreases |ps| - i
  {
    hide Ends, Labels, After, StrictRead, Look;
    var next := if i + 1 < |ps| then ps[i + 1] else j;
    assert ts[i..][1..] == ts[i + 1..];
    assert Written(p, ps[i], ts[i], next);
    if ts[i] == [] {
      AgreedStop(p, ps[i]);
    } else {
      if i + 1 < |ps| {
        Resolve(p, ps, ts, j, tail, end, i + 1);
      }
      var n: nat :| Agreed(p, next, n) && Labels(p, next, n) == Fold(ts[i + 1..], tail)
        && ((forall k | i < k < |ts| - 1 :: ts[k] != []) && (ts[|ts| - 1] == [] ==> end == j) ==> After(p, next, n) == end);
      AgreedLabel(p, ps[i], ts[i], next, n);
    }
  }

  /** A name, or the end of one, and where it was written. */
  datatype Entry = Entry(name: seq<byte>, pos: nat)

  /** Every entry points at the labels of its name. */
  ghost predicate TableOk(p: seq<byte>, entries: seq<Entry>) {
    forall i {:trigger entries[i]} | 0 <= i < |entries| ::
      entries[i].pos < |p| && entries[i].pos < MAX_POINTER && Decodes(p, entries[i].pos, CanonLabels(entries[i].name))
  }

  lemma TableExtend(p: seq<byte>, q: seq<byte>, entries: seq<Entry>)
    requires p <= q && TableOk(p, entries)
    ensures TableOk(q, entries)
  {
    forall i | 0 <= i < |entries|
      ensures Decodes(q, entries[i].pos, CanonLabels(entries[i].name))
    {
      var n: nat :| Agreed(p, entries[i].pos, n) && Labels(p, entries[i].pos, n) == CanonLabels(entries[i].name);
      AgreedExtend(p, q, entries[i].pos, n);
    }
  }

  class LabelTable {
    var entries: seq<Entry>

    constructor ()
      ensures entries == []
    {
      entries := [];
    }

    /** dnslabel_table_get_pos */
    method GetPos(name: seq<byte>) returns (r: Option<nat>)
      ensures r == Find(entries, name)
    {
      var i := 0;
      assert entries[0..] == entries;
      while i < |entries|
        invariant 0 <= i <= |entries| && Find(entries, name) == Find(entries[i..], name)
      {
        if name == entries[i].name {
          return Some(entries[i].pos);
        }
        i := i + 1;
      }
      return None;
    }

    /** dnslabel_table_add; a full table takes no more. */
    method Add(name: seq<byte>, pos: nat)
      modifies this
      ensures entries == Remember(old(entries), Entry(name, pos))
      ensures entries == if |old(entries)| == 128 then old(entries) else old(entries) + [Entry(name, pos)]
    {
      if |entries| != MAX_LABELS {
        entries := entries + [Entry(name, pos)];
      }
    }
  }

  /** Writes `d` at index `j`. */
  method Put(buf: array<byte>, j: nat, d: seq<byte>)
    requires j + |d| <= buf.Length
    modifies buf
    ensures buf[..j + |d|] == old(buf[..j]) + d
  {
    forall i | 0 <= i < |d| {
      buf[j + i] := d[i];
    }
  }

  function BE16(x: nat): (d: seq<byte>)
    requires x < 0x10000
    ensures |d| == 2
  {
    [x / 256, x % 256]
  }

  /** The two bytes of a pointer: its position with both top bits set. */
  function Pointer(pos: nat): (d: seq<byte>)
    ensures |d| == 2
  {
    [192 + pos / 256 % 64, pos % 256]
  }

  /** A pointer to a name is a name. */
  lemma PointerDecodes(p: seq<byte>, pos: nat, ls: seq<seq<byte>>)
    requires pos < |p| && pos < MAX_POINTER && Decodes(p, pos, ls)
    ensures DecodesTo(p + Pointer(pos), |p|, ls, |p| + 2)
  {
    hide Ends, Labels, After, StrictRead, Look;
    var q := p + Pointer(pos);
    var n: nat :| Agreed(p, pos, n) && Labels(p, pos, n) == ls;
    AgreedExtend(p, q, pos, n);
    AgreedJump(q, |p|, pos, n);
  }

  lemma ZeroDecodes(p: seq<byte>)
    ensures DecodesTo(p + [0], |p|, [], |p| + 1)
  {
    AgreedStop(p + [0], |p|);
  }

  /** `sufs[i]` is the name whose first labels are `ts[i..]`, with `tail` to follow. */
  ghost predicate Suffixes(sufs: seq<seq<byte>>, ts: seq<seq<byte>>, tail: seq<seq<byte>>) {
    && |sufs| == |ts|
    && forall i {:trigger sufs[i]} | 0 <= i < |sufs| :: CanonLabels(sufs[i]) == Fold(ts[i..], tail)
  }

  lemma SuffixesSnoc(sufs: seq<seq<byte>>, ts: seq<seq<byte>>, name: seq<byte>, t: seq<byte>, tail: seq<seq<byte>>)
    requires Suffixes(sufs, ts, CanonLabels(name)) && CanonLabels(name) == Fold([t], tail)
    ensures Suffixes(sufs + [name], ts + [t], tail)
  {
    forall i | 0 <= i < |ts| + 1
      ensures CanonLabels((sufs + [name])[i]) == Fold((ts + [t])[i..], tail)
    {
      if i < |ts| {
        FoldSnoc(ts[i..], t, tail);
        assert (ts + [t])[i..] == ts[i..] + [t];
      } else {
        assert (ts + [t])[i..] == [t];
      }
    }
  }

  /** Every entry from number `m` on is for one of the labels being written. */
  ghost predicate Fresh(entries: seq<Entry>, m: nat, ps: seq<nat>, sufs: seq<seq<byte>>) {
    && m <= |entries| && |ps| == |sufs| && (ps == [] ==> m == |entries|)
    && forall k {:trigger entries[k]} | m <= k < |entries| :: IsFor(entries[k], ps, sufs)
  }

  ghost predicate IsFor(e: Entry, ps: seq<nat>, sufs: seq<seq<byte>>)
    requires |ps| == |sufs|
  {
    exists i {:trigger ps[i]} {:trigger sufs[i]} :: 0 <= i < |ps| && e == Entry(sufs[i], ps[i])
  }

  /** The first label of a name, and what follows it. */
  lemma CanonFirst(name: seq<byte>)
    ensures var d := FirstDot(name);
      CanonLabels(name) == Fold([name[..d]], if d < |name| then CanonLabels(name[d + 1..]) else [])
  {
    hide FirstDot, Fold;
    var d := FirstDot(name);
    FoldOne(name[..d], if d < |name| then CanonLabels(name[d + 1..]) else []);
    assert d == |name| ==> name[..d] == name;
  }

  /** When what follows the written labels is known, so is what every one of them
      and every entry of the table stands for. */
  lemma Finish(p: seq<byte>, q: seq<byte>, ps: seq<nat>, ts: seq<seq<byte>>, sufs: seq<seq<byte>>, j: nat,
               tail: seq<seq<byte>>, end: nat, entries: seq<Entry>, m: nat)
    requires p <= q && Pending(q, ps, ts, j) && Suffixes(sufs, ts, tail) && j <= MAX_POINTER
    requires (ts != [] && ts[|ts| - 1] == []) || DecodesTo(q, j, tail, end)
    requires Fresh(entries, m, ps, sufs) && TableOk(p, entries[..m])
    ensures TableOk(q, entries)
    ensures ps != [] ==> Decodes(q, ps[0], CanonLabels(sufs[0]))
    ensures ps != [] && (forall k | 0 <= k < |ts| - 1 :: ts[k] != []) && (ts[|ts| - 1] == [] ==> end == j) ==>
      DecodesTo(q, ps[0], CanonLabels(sufs[0]), end)
  {
    TableExtend(p, q, entries[..m]);
    forall i | 0 <= i < |ps|
      ensures ps[i] < |q| && ps[i] < MAX_POINTER && Decodes(q, ps[i], CanonLabels(sufs[i]))
    {
      PendingBelow(q, ps, ts, j, i);
      Resolve(q, ps, ts, j, tail, end, i);
    }
    forall k | 0 <= k < |entries|
      ensures entries[k].pos < |q| && entries[k].pos < MAX_POINTER
      ensures Decodes(q, entries[k].pos, CanonLabels(entries[k].name))
    {
      if k < m {
        assert entries[..m][k] == entries[k];
      }
    }
    if ps != [] {
      Resolve(q, ps, ts, j, tail, end, 0);
      assert ts[0..] == ts;
    }
  }

  lemma {:induction false} PendingBelow(p: seq<byte>, ps: seq<nat>, ts: seq<seq<byte>>, j: nat, i: nat)
    requires Pending(p, ps, ts, j) && i < |ps|
    ensures ps[i] < j
    decreases |ps| - i
  {
    hide Written;
    var next := if i + 1 < |ps| then ps[i + 1] else j;
    assert Written(p, ps[i], ts[i], next);
    WrittenBelow(p, ps[i], ts[i], next);
    if i + 1 < |ps| {
      PendingBelow(p, ps, ts, j, i + 1);
    }
  }

  lemma WrittenBelow(p: seq<byte>, at: nat, t: seq<byte>, next: nat)
    requires Written(p, at, t, next)
    ensures at < next <= |p|
  {
  }

  /** No label but the last is empty. */
  predicate NoGap(name: seq<byte>)
    decreases |name|
  {
    var d := FirstDot(name);
    d < |name| ==> d > 0 && NoGap(name[d + 1..])
  }

  predicate LabelsShort(name: seq<byte>)
    decreases |name|
  {
    var d := FirstDot(name);
    d <= 63 && (d < |name| ==> LabelsShort(name[d + 1..]))
  }

  ghost predicate Longer(sufs: seq<seq<byte>>, n: int) {
    forall k {:trigger sufs[k]} | 0 <= k < |sufs| :: |sufs[k]| > n
  }

  lemma LongerSnoc(sufs: seq<seq<byte>>, suf: seq<byte>, m: int, n: int)
    requires Longer(sufs, m) && n <= m && |suf| > n
    ensures Longer(sufs + [suf], n)
  {
  }

  lemma FreshIsLonger(entries: seq<Entry>, m: nat, ps: seq<nat>, sufs: seq<seq<byte>>, n: int, k: nat)
    requires Fresh(entries, m, ps, sufs) && Longer(sufs, n) && k < |entries|
    ensures m <= k ==> |entries[k].name| > n
  {
    if m <= k {
      assert IsFor(entries[k], ps, sufs);
    }
  }

  lemma FreshAdd(entries: seq<Entry>, m: nat, ps: seq<nat>, sufs: seq<seq<byte>>, e: Entry, more: seq<Entry>)
    requires Fresh(entries, m, ps, sufs) && (more == entries || more == entries + [e])
    ensures Fresh(more, m, ps + [e.pos], sufs + [e.name])
  {
    forall k | m <= k < |more|
      ensures IsFor(more[k], ps + [e.pos], sufs + [e.name])
    {
      if k < |entries| {
        assert IsFor(entries[k], ps, sufs);
        var i :| 0 <= i < |ps| && entries[k] == Entry(sufs[i], ps[i]);
        assert more[k] == Entry((sufs + [e.name])[i], (ps + [e.pos])[i]);
      } else {
        assert more[k] == Entry((sufs + [e.name])[|ps|], (ps + [e.pos])[|ps|]);
      }
    }
  }

  /** The state of dnsname_to_labels before the label that starts at `s`. */
  ghost predicate Writing(p: seq<byte>, j0: nat, name: seq<byte>, s: nat, ps: seq<nat>, ts: seq<seq<byte>>, sufs: seq<seq<byte>>) {
    && s <= |name| && |p| == j0 + s
    && Pending(p, ps, ts, |p|) && Suffixes(sufs, ts, CanonLabels(name[s..]))
    && (if s == 0 then ps == [] else ps != [] && ps[0] == j0 && sufs[0] == name)
    && Longer(sufs, |name| - s)
    && (NoGap(name) ==> NoGap(name[s..]) && forall k | 0 <= k < |ts| :: ts[k] != [])
    && (LabelsShort(name) ==> LabelsShort(name[s..]))
  }

  lemma RestOfName(name: seq<byte>)
    ensures var d := FirstDot(name); d < |name| ==>
      && (NoGap(name) ==> d > 0 && NoGap(name[d + 1..]))
      && (LabelsShort(name) ==> LabelsShort(name[d + 1..]))
  {
  }

  /** One label more, with more to come. */
  lemma WriteInner(p: seq<byte>, j0: nat, name: seq<byte>, s: nat, ps: seq<nat>, ts: seq<seq<byte>>, sufs: seq<seq<byte>>,
                   rest: seq<byte>, d: nat)
    requires Writing(p, j0, name, s, ps, ts, sufs)
    requires rest == name[s..] && d == FirstDot(rest) <= 63 && d < |rest|
    ensures Writing(p + [d] + rest[..d], j0, name, s + d + 1, ps + [|p|], ts + [rest[..d]], sufs + [rest])
  {
    hide Written, Fold, CanonLabels, NoGap, LabelsShort, FirstDot, Pending, Suffixes, Longer;
    PendingSnoc(p, ps, ts, rest[..d]);
    CanonFirst(rest);
    RestOfName(rest);
    assert rest[d + 1..] == name[s + d + 1..];
    SuffixesSnoc(sufs, ts, rest, rest[..d], CanonLabels(rest[d + 1..]));
    LongerSnoc(sufs, rest, |name| - s, |name| - (s + d + 1));
    assert s == 0 ==> rest == name;
  }

  /** The last label. */
  lemma WriteLast(p: seq<byte>, j0: nat, name: seq<byte>, s: nat, ps: seq<nat>, ts: seq<seq<byte>>, sufs: seq<seq<byte>>,
                  rest: seq<byte>)
    requires Writing(p, j0, name, s, ps, ts, sufs)
    requires rest == name[s..] && FirstDot(rest) == |rest| <= 63
    ensures var q := p + [|rest|] + rest;
      Pending(q, ps + [|p|], ts + [rest], |q|) && Suffixes(sufs + [rest], ts + [rest], [])
    ensures (ps + [|p|])[0] == j0 && (sufs + [rest])[0] == name
  {
    hide Written, Fold, CanonLabels, NoGap, LabelsShort, FirstDot;
    PendingSnoc(p, ps, ts, rest);
    CanonFirst(rest);
    assert rest[..|rest|] == rest;
    SuffixesSnoc(sufs, ts, rest, rest, []);
    assert s == 0 ==> rest == name;
  }

  /** What is promised of a name that was written from index `j0` to `end`. */
  ghost predicate NameWritten(q: seq<byte>, j0: nat, name: seq<byte>, entries: seq<Entry>) {
    && Decodes(q, j0, CanonLabels(name))
    && (NoGap(name) ==> DecodesTo(q, j0, CanonLabels(name), |q|))
    && TableOk(q, entries)
  }

  /** The rest of the name is in the table: a pointer ends the name. */
  lemma EndWithPointer(p0: seq<byte>, p: seq<byte>, j0: nat, name: seq<byte>, s: nat, ps: seq<nat>, ts: seq<seq<byte>>,
                       sufs: seq<seq<byte>>, entries: seq<Entry>, m: nat, ref: nat)
    requires Writing(p, j0, name, s, ps, ts, sufs) && p0 <= p && |p0| == j0 && |p| <= MAX_POINTER
    requires Fresh(entries, m, ps, sufs) && TableOk(p0, entries[..m])
    requires exists k {:trigger entries[k]} :: 0 <= k < |entries| && entries[k] == Entry(name[s..], ref)
    ensures ref < MAX_POINTER && NameWritten(p + Pointer(ref), j0, name, entries)
  {
    hide Written, Fold, CanonLabels, NoGap, LabelsShort, Look, Ends, Labels, After, Pointer;
    var k :| 0 <= k < |entries| && entries[k] == Entry(name[s..], ref);
    FreshIsLonger(entries, m, ps, sufs, |name| - s, k);
    assert |entries[k].name| == |name| - s;
    assert k < m;
    TableExtend(p0, p, entries[..m]);
    assert entries[..m][k] == entries[k];
    PointerDecodes(p, ref, CanonLabels(name[s..]));
    var q := p + Pointer(ref);
    PendingExtend(p, q, ps, ts, |p|);
    if ps == [] {
      assert name[0..] == name;
      TableExtend(p0, q, entries[..m]);
      assert entries[..m] == entries;
    } else {
      Finish(p0, q, ps, ts, sufs, |p|, CanonLabels(name[s..]), |q|, entries, m);
    }
  }

  /** The last label was written: a zero byte ends the name, unless that label is
      empty and so is a zero byte itself. */
  lemma EndWithZero(p0: seq<byte>, p: seq<byte>, j0: nat, name: seq<byte>, s: nat, ps: seq<nat>, ts: seq<seq<byte>>,
                    sufs: seq<seq<byte>>, rest: seq<byte>, entries: seq<Entry>, m: nat)
    requires Writing(p, j0, name, s, ps, ts, sufs) && p0 <= p && |p0| == j0
    requires rest == name[s..] && FirstDot(rest) == |rest| <= 63
    requires Fresh(entries, m, ps + [|p|], sufs + [rest]) && TableOk(p0, entries[..m])
    requires |p| + 1 + |rest| <= MAX_POINTER
    ensures NameWritten(p + [|rest|] + rest + (if rest == [] then [] else [0]), j0, name, entries)
  {
    hide Written, Fold, CanonLabels, NoGap, LabelsShort, Look, Ends, Labels, After, FirstDot;
    WriteLast(p, j0, name, s, ps, ts, sufs, rest);
    var r := p + [|rest|] + rest;
    var q := r + if rest == [] then [] else [0];
    ZeroDecodes(r);
    PendingExtend(r, q, ps + [|p|], ts + [rest], |r|);
    Finish(p0, q, ps + [|p|], ts + [rest], sufs + [rest], |r|, [], |q|, entries, m);
    assert NoGap(name) ==> forall k | 0 <= k < |ts + [rest]| - 1 :: (ts + [rest])[k] != [];
  }

  /** The position of the first entry for a name. */
  function Find(entries: seq<Entry>, name: seq<byte>): Option<nat> {
    if entries == [] then None
    else if entries[0].name == name then Some(entries[0].pos)
    else Find(entries[1..], name)
  }

  lemma {:induction false} FindFinds(entries: seq<Entry>, name: seq<byte>) returns (k: nat)
    requires Find(entries, name).Some?
    ensures k < |entries| && entries[k] == Entry(name, Find(entries, name).value)
  {
    if entries[0].name == name {
      k := 0;
    } else {
      k := FindFinds(entries[1..], name);
      k := k + 1;
    }
  }

  function Remember(entries: seq<Entry>, e: Entry): seq<Entry> {
    if |entries| == MAX_LABELS then entries else entries + [e]
  }

  /** What dnsname_to_labels makes of the name, or of the rest of it: the bytes for
      index `j` on and the new table, or an error. */
  datatype Encoded = Bytes(bytes: seq<byte>, entries: seq<Entry>) | LabelTooLong | NoRoom

  function Before(bytes: seq<byte>, e: Encoded): Encoded {
    if e.Bytes? then e.(bytes := bytes + e.bytes) else e
  }

  function Encode(bufLen: nat, j: nat, name: seq<byte>, entries: seq<Entry>): Encoded
    decreases |name|
  {
    var ref := Find(entries, name);
    if ref.Some? then
      if j + 2 > bufLen then NoRoom else Bytes(Pointer(ref.value), entries)
    else
      var d := FirstDot(name);
      if d > 63 then LabelTooLong
      else if j + d + 1 > bufLen then NoRoom
      else if d == |name| then
        Bytes([d] + name + (if name == [] then [] else [0]), Remember(entries, Entry(name, j)))
      else Before([d] + name[..d], Encode(bufLen, j + d + 1, name[d + 1..], Remember(entries, Entry(name, j))))
  }

  /** The last label, with its entry. */
  lemma EncodeLast(p0: seq<byte>, p: seq<byte>, j0: nat, name: seq<byte>, s: nat, ps: seq<nat>, ts: seq<seq<byte>>,
                   sufs: seq<seq<byte>>, entries: seq<Entry>, m: nat, rest: seq<byte>)
    requires Writing(p, j0, name, s, ps, ts, sufs) && p0 <= p && |p0| == j0
    requires rest == name[s..] && FirstDot(rest) == |rest| <= 63 && |p| + 1 + |rest| <= MAX_POINTER
    requires Fresh(entries, m, ps, sufs) && TableOk(p0, entries[..m])
    ensures NameWritten(p + ([|rest|] + rest + (if rest == [] then [] else [0])), j0, name, Remember(entries, Entry(rest, |p|)))
  {
    hide Written, Fold, CanonLabels, NoGap, LabelsShort, Look, Ends, Labels, After, FirstDot;
    hide Pending, Suffixes, Longer, TableOk, Decodes, DecodesTo, NameWritten, StrictRead;
    var more := Remember(entries, Entry(rest, |p|));
    FreshAdd(entries, m, ps, sufs, Entry(rest, |p|), more);
    assert more[..m] == entries[..m];
    EndWithZero(p0, p, j0, name, s, ps, ts, sufs, rest, more, m);
    var z: seq<byte> := if rest == [] then [] else [0];
    assert p + [|rest|] + rest + z == p + ([|rest|] + rest + z);
  }

  /** One label more, with its entry. */
  lemma EncodeInner(p: seq<byte>, j0: nat, name: seq<byte>, s: nat, ps: seq<nat>, ts: seq<seq<byte>>, sufs: seq<seq<byte>>,
                    entries: seq<Entry>, m: nat, rest: seq<byte>, d: nat)
    requires Writing(p, j0, name, s, ps, ts, sufs) && Fresh(entries, m, ps, sufs)
    requires rest == name[s..] && d == FirstDot(rest) <= 63 && d < |rest|
    ensures Writing(p + ([d] + rest[..d]), j0, name, s + d + 1, ps + [|p|], ts + [rest[..d]], sufs + [rest])
    ensures var more := Remember(entries, Entry(rest, |p|));
      Fresh(more, m, ps + [|p|], sufs + [rest]) && more[..m] == entries[..m]
  {
    hide Written, Fold, CanonLabels, NoGap, LabelsShort, FirstDot;
    var more := Remember(entries, Entry(rest, |p|));
    FreshAdd(entries, m, ps, sufs, Entry(rest, |p|), more);
    WriteInner(p, j0, name, s, ps, ts, sufs, rest, d);
    assert p + [d] + rest[..d] == p + ([d] + rest[..d]);
  }

  /** The rest of a name that is being written is written so that the whole name
      and all new table entries can be read back. */
  lemma {:induction false} EncodeRest(p0: seq<byte>, p: seq<byte>, bufLen: nat, j0: nat, name: seq<byte>, s: nat, ps: seq<nat>,
                                      ts: seq<seq<byte>>, sufs: seq<seq<byte>>, entries: seq<Entry>, m: nat)
    requires Writing(p, j0, name, s, ps, ts, sufs) && p0 <= p && |p0| == j0 && bufLen < MAX_POINTER
    requires |p| <= bufLen || ps == []
    requires Fresh(entries, m, ps, sufs) && TableOk(p0, entries[..m])
    ensures var e := Encode(bufLen, |p|, name[s..], entries);
      e.Bytes? ==> NameWritten(p + e.bytes, j0, name, e.entries) && |p + e.bytes| <= bufLen + 1
    decreases |name| - s
  {
    hide Fold, CanonLabels, NoGap, LabelsShort, Look, Ends, Labels, After, Pointer, FirstDot, Written;
    hide Pending, Suffixes, Longer, Remember, Find, TableOk, Decodes, DecodesTo, Fresh;
    var rest := name[s..];
    var d := FirstDot(rest);
    var ref := Find(entries, rest);
    var e := Encode(bufLen, |p|, rest, entries);
    if e.Bytes? {
      if ref.Some? {
        var k := FindFinds(entries, rest);
        EndWithPointer(p0, p, j0, name, s, ps, ts, sufs, entries, m, ref.value);
      } else if d == |rest| {
        EncodeLast(p0, p, j0, name, s, ps, ts, sufs, entries, m, rest);
      } else {
        var q := p + ([d] + rest[..d]);
        var more := Remember(entries, Entry(rest, |p|));
        EncodeInner(p, j0, name, s, ps, ts, sufs, entries, m, rest, d);
        assert rest[d + 1..] == name[s + d + 1..];
        EncodeRest(p0, q, bufLen, j0, name, s + d + 1, ps + [|p|], ts + [rest[..d]], sufs + [rest], more, m);
        Assoc(p, [d] + rest[..d], Encode(bufLen, |q|, rest[d + 1..], more).bytes);
      }
    }
  }

  lemma BeforeBefore(a: seq<byte>, b: seq<byte>, e: Encoded)
    ensures Before(a, Before(b, e)) == Before(a + b, e) && Before([], e) == e
  {
    if e.Bytes? {
      Assoc(a, b, e.bytes);
    }
  }

  /** dnsname_to_labels, where it ends, if it does: the whole name was written
      behind the first `j0` bytes. One byte behind `bufLen` is written when the last
      label fills the buffer. */
  ghost predicate Wrote(was: seq<byte>, buf: seq<byte>, e: Encoded, r: Result, entries: seq<Entry>) {
    match r
    case TooLong => e.LabelTooLong?
    case Overflow => e.NoRoom?
    case End(j) => e.Bytes? && j == |was| + |e.bytes| <= |buf| && buf[..j] == was + e.bytes && entries == e.entries
  }

  datatype Result = End(j: nat) | TooLong | Overflow

  function EncodeName(bufLen: nat, j: nat, name: seq<byte>, entries: seq<Entry>): Encoded {
    if |name| > 255 then NoRoom else Encode(bufLen, j, name, entries)
  }

  /** Writes the final zero byte, unless there is one already. */
  method EndName(buf: array<byte>, j: nat) returns (end: nat)
    requires 0 < j < buf.Length
    modifies buf
    ensures end == (if old(buf[j - 1]) == 0 then j else j + 1)
    ensures buf[..end] == old(buf[..j]) + if end == j then [] else [0]
  {
    if buf[j - 1] == 0 {
      return j;
    }
    Put(buf, j, [0]);
    return j + 1;
  }

  /** The last byte of the last label, or of its length, is zero exactly when the
      label is empty. */
  lemma EndOfLast(was: seq<byte>, done: seq<byte>, bufLen: nat, j: nat, rest: seq<byte>, p: seq<byte>, entries: seq<Entry>)
    requires 0 !in rest && FirstDot(rest) == |rest| <= 63 && Find(entries, rest).None?
    requires p == was + done + ([|rest|] + rest) && j + |rest| + 1 <= bufLen
    ensures p[|p| - 1] == 0 <==> rest == []
    ensures var z: seq<byte> := if rest == [] then [] else [0];
      var e := Before(done, Encode(bufLen, j, rest, entries));
      e.Bytes? && p + z == was + e.bytes && e.entries == Remember(entries, Entry(rest, j))
  {
    hide Find, FirstDot, Remember;
    if rest != [] {
      assert p[|p| - 1] == rest[|rest| - 1];
    }
    var z: seq<byte> := if rest == [] then [] else [0];
    Assoc(was, done, [|rest|] + rest);
    Assoc(was, done + ([|rest|] + rest), z);
    Assoc(done, [|rest|] + rest, z);
  }

  lemma EncodeFound(done: seq<byte>, bufLen: nat, j: nat, rest: seq<byte>, entries: seq<Entry>)
    requires Find(entries, rest).Some?
    ensures Before(done, Encode(bufLen, j, rest, entries)) ==
      if j + 2 > bufLen then NoRoom else Bytes(done + Pointer(Find(entries, rest).value), entries)
  {
  }

  lemma EncodeMore(done: seq<byte>, bufLen: nat, j: nat, rest: seq<byte>, entries: seq<Entry>)
    requires Find(entries, rest).None?
    ensures var d := FirstDot(rest);
      var e := Encode(bufLen, j, rest, entries);
      && (d > 63 ==> Before(done, e).LabelTooLong?)
      && (d <= 63 && j + d + 1 > bufLen ==> Before(done, e).NoRoom?)
      && (d <= 63 && j + d + 1 <= bufLen && d < |rest| ==>
            Before(done, e) == Before(done + ([d] + rest[..d]),
              Encode(bufLen, j + d + 1, rest[d + 1..], Remember(entries, Entry(rest, j)))))
  {
    hide Find, FirstDot, Remember;
    var d := FirstDot(rest);
    if d <= 63 && d < |rest| {
      BeforeBefore(done, [d] + rest[..d], Encode(bufLen, j + d + 1, rest[d + 1..], Remember(entries, Entry(rest, j))));
    }
  }

  method PutAfter(buf: array<byte>, j: nat, d: seq<byte>, ghost was: seq<byte>, ghost done: seq<byte>) returns (ghost more: seq<byte>)
    requires j + |d| <= buf.Length && buf[..j] == was + done
    modifies buf
    ensures more == done + d && buf[..j + |d|] == was + more && buf[..|was|] == was
  {
    Put(buf, j, d);
    more := done + d;
    Assoc(was, done, d);
    Prefix(buf[..j + |d|], was, more);
  }

  /** Writes the last label. `entries` are those of the table, or those that it would have
      if there were one. */
  method PutLast(buf: array<byte>, bufLen: nat, j: nat, rest: seq<byte>, table: LabelTable?, ghost entries: seq<Entry>,
                 ghost was: seq<byte>, ghost done: seq<byte>)
    returns (end: nat)
    requires j + |rest| + 1 <= bufLen < buf.Length && 0 !in rest && buf[..j] == was + done
    requires table != null ==> table.entries == entries
    requires Find(entries, rest).None? && FirstDot(rest) == |rest| <= 63
    modifies buf, table
    ensures buf[..|was|] == was && j < end <= bufLen + 1
    ensures var e := Before(done, Encode(bufLen, j, rest, entries));
      Wrote(was, buf[..], e, End(end), if table == null then Left(e) else table.entries)
  {
    hide Find, FirstDot, Remember;
    if table != null {
      table.Add(rest, j);
    }
    Put(buf, j, [|rest|] + rest);
    EndOfLast(was, done, bufLen, j, rest, buf[..j + |rest| + 1], entries);
    end := EndName(buf, j + |rest| + 1);
    Prefix(buf[..end], was, Before(done, Encode(bufLen, j, rest, entries)).bytes);
  }

  /** The entries of the table after a name was written, if it was. */
  function Left(e: Encoded): seq<Entry> {
    if e.Bytes? then e.entries else []
  }

  /** Every entry is for a name of more than `n` bytes. */
  ghost predicate AllLonger(entries: seq<Entry>, n: int) {
    forall i {:trigger entries[i]} | 0 <= i < |entries| :: |entries[i].name| > n
  }

  lemma {:induction false} NotFound(entries: seq<Entry>, name: seq<byte>)
    requires AllLonger(entries, |name|)
    ensures Find(entries, name).None?
  {
    if entries != [] {
      assert AllLonger(entries[1..], |name|);
      NotFound(entries[1..], name);
    }
  }

  lemma RememberLonger(entries: seq<Entry>, e: Entry, m: int, n: int)
    requires AllLonger(entries, m) && n <= m && |e.name| > n
    ensures AllLonger(Remember(entries, e), n)
  {
  }

  /** For a strict reader the name ends with the same labels, and at the end of what was
      written unless a label before the last is empty. */
  ghost predicate StrictlyReads(p: seq<byte>, j: nat, name: seq<byte>, end: nat) {
    exists n: nat {:trigger StrictRead(p, j, n)} ::
      StrictRead(p, j, n).Some? && StrictRead(p, j, n).value.0 == CanonLabels(name)
      && (NoGap(name) ==> StrictRead(p, j, n).value.1 == end)
  }

  lemma StrictlyWritten(p0: seq<byte>, bufLen: nat, name: seq<byte>, entries: seq<Entry>)
    requires TableOk(p0, entries) && bufLen < 0x4000
    ensures var e := EncodeName(bufLen, |p0|, name, entries);
      e.Bytes? ==> StrictlyReads(p0 + e.bytes, |p0|, name, |p0 + e.bytes|)
  {
    hide Ends, Labels, After, Look, StrictRead, EncodeName, NoGap, CanonLabels, TableOk;
    NameIsWritten(p0, bufLen, name, entries);
  }

  /** dnsname_to_labels. Without a table the bytes are those that an empty table gives. */
  method DnsnameToLabels(buf: array<byte>, bufLen: nat, j0: nat, name: seq<byte>, table: LabelTable?) returns (r: Result)
    requires bufLen < buf.Length && j0 <= buf.Length && 0 !in name
    modifies buf, table
    ensures buf[..j0] == old(buf[..j0])
    ensures r.End? ==> j0 < r.j <= bufLen + 1
    ensures table != null ==> Wrote(old(buf[..j0]), buf[..], EncodeName(bufLen, j0, name, old(table.entries)), r, table.entries)
    ensures table == null ==>
      var e := EncodeName(bufLen, j0, name, []); Wrote(old(buf[..j0]), buf[..], e, r, Left(e))
    ensures r.End? && bufLen < 0x4000 && (table != null ==> TableOk(old(buf[..j0]), old(table.entries))) ==>
      StrictlyReads(buf[..r.j], j0, name, r.j)
  {
    hide TableOk, StrictlyReads;
    hide Find, FirstDot, Pointer, Remember, Before, Encode, AllLonger;
    var j: nat, rest: seq<byte> := j0, name;
    ghost var was: seq<byte>, done: seq<byte> := buf[..j0], [];
    ghost var entries := if table == null then [] else table.entries;
    ghost var goal := Encode(bufLen, j0, name, entries);
    EmptyTable(was);
    if bufLen < 0x4000 && TableOk(was, entries) {
      StrictlyWritten(was, bufLen, name, entries);
    }
    if |name| > 255 {
      return Overflow;
    }
    BeforeBefore([], [], goal);
    NoneLonger(|rest|);
    while true
      invariant j0 <= j <= buf.Length && buf[..j] == was + done && 0 !in rest && buf[..j0] == was
      invariant if table == null then AllLonger(entries, |rest|) else table.entries == entries
      invariant goal == Before(done, Encode(bufLen, j, rest, entries))
      decreases |rest|
    {
      if table != null {
        var ref := table.GetPos(rest);
        if ref.Some? {
          EncodeFound(done, bufLen, j, rest, entries);
          if j + 2 > bufLen {
            return Overflow;
          }
          done := PutAfter(buf, j, Pointer(ref.value), was, done);
          return End(j + 2);
        }
      } else {
        NotFound(entries, rest);
      }
      var d := FirstDot(rest);
      EncodeMore(done, bufLen, j, rest, entries);
      if d > 63 {
        return TooLong;
      }
      if j + d + 1 > bufLen {
        return Overflow;
      }
      if d == |rest| {
        var end := PutLast(buf, bufLen, j, rest, table, entries, was, done);
        return End(end);
      }
      if table != null {
        table.Add(rest, j);
      } else {
        RememberLonger(entries, Entry(rest, j), |rest|, |rest| - d - 1);
      }
      entries := Remember(entries, Entry(rest, j));
      done := PutAfter(buf, j, [d] + rest[..d], was, done);
      j := j + d + 1;
      rest := rest[d + 1..];
    }
  }

  lemma EmptyTable(p: seq<byte>)
    ensures TableOk(p, [])
  {
  }

  lemma NoneLonger(n: nat)
    ensures AllLonger([], n)
  {
  }

  lemma Prefix(p: seq<byte>, a: seq<byte>, b: seq<byte>)
    requires p == a + b
    ensures p[..|a|] == a
  {
  }

  /** Every label has at least one byte. */
  predicate NoEmptyLabel(name: seq<byte>)
    decreases |name|
  {
    var d := FirstDot(name);
    d > 0 && (d < |name| ==> NoEmptyLabel(name[d + 1..]))
  }

  lemma TextCons(t: seq<byte>, ls: seq<seq<byte>>)
    ensures Text([t] + ls) == if ls == [] then t else t + [DOT] + Text(ls)
    ensures Text([]) == []
  {
    assert ([t] + ls)[1..] == ls;
  }

  /** The text of what is written is the name itself exactly when the name has no
      empty label or is empty as a whole; otherwise the text is shorter. */
  lemma {:induction false} CanonText(name: seq<byte>)
    ensures NoEmptyLabel(name) || name == [] ==> Text(CanonLabels(name)) == name && NoGap(name)
    ensures !NoEmptyLabel(name) && name != [] ==> |Text(CanonLabels(name))| < |name|
    ensures (CanonLabels(name) == [] <==> FirstDot(name) == 0)
    decreases |name|
  {
    hide FirstDot, Text;
    var d := FirstDot(name);
    if d == |name| {
      assert [name] + [] == [name];
      TextCons(name, []);
    } else {
      var rest := name[d + 1..];
      TextCons(name[..d], CanonLabels(rest));
      CanonText(rest);
      assert NoEmptyLabel(rest) ==> FirstDot(rest) > 0;
      assert NoEmptyLabel(name) ==> NoGap(rest);
      assert name == name[..d] + [DOT] + rest;
    }
  }

  /** A written name reads back as itself, and its end is found, exactly when it has
      no empty label or is empty. */
  lemma NameRoundTrip(p0: seq<byte>, bufLen: nat, name: seq<byte>, entries: seq<Entry>, more: seq<byte>, outLen: nat, r: Option<Parsed>)
    requires TableOk(p0, entries) && bufLen < MAX_POINTER && outLen > |name|
    requires EncodeName(bufLen, |p0|, name, entries).Bytes?
    requires Answer(p0 + EncodeName(bufLen, |p0|, name, entries).bytes + more, |p0|, outLen, r)
    ensures var e := EncodeName(bufLen, |p0|, name, entries);
      && TableOk(p0 + e.bytes, e.entries) && |p0 + e.bytes| <= bufLen + 1
      && r.Some? && r.value.name == Text(CanonLabels(name))
      && (r == Some(Parsed(name, |p0 + e.bytes|)) <==> NoEmptyLabel(name) || name == [])
      && StrictlyReads(p0 + e.bytes + more, |p0|, name, |p0 + e.bytes|)
  {
    hide Ends, Labels, After, Text, CanonLabels, Encode, NoGap, NoEmptyLabel;
    var e := EncodeName(bufLen, |p0|, name, entries);
    NameIsWritten(p0, bufLen, name, entries);
    var q := p0 + e.bytes;
    CanonText(name);
    var n: nat :| Agreed(q, |p0|, n) && Labels(q, |p0|, n) == CanonLabels(name) && (NoGap(name) ==> After(q, |p0|, n) == |q|);
    AgreedExtend(q, q + more, |p0|, n);
    AnswerIs(q + more, |p0|, n, outLen, r);
  }

  lemma AnswerIs(p: seq<byte>, i: nat, n: nat, outLen: nat, r: Option<Parsed>)
    requires Ends(p, i, n) && Answer(p, i, outLen, r) && |Text(Labels(p, i, n))| < outLen
    ensures r == Some(Parsed(Text(Labels(p, i, n)), After(p, i, n)))
  {
    hide Ends, Labels, After, Text;
    if r.Some? {
      var k: nat :| Reads(p, i, k, r.value);
      EndsOnce(p, i, k, n);
    }
  }

  /** Encoding behind any packet for which the table is right keeps it right. */
  lemma NameIsWritten(p0: seq<byte>, bufLen: nat, name: seq<byte>, entries: seq<Entry>)
    requires TableOk(p0, entries) && bufLen < MAX_POINTER
    ensures var e := EncodeName(bufLen, |p0|, name, entries);
      e.Bytes? ==> NameWritten(p0 + e.bytes, |p0|, name, e.entries) && |p0 + e.bytes| <= bufLen + 1
  {
    hide Ends, Labels, After, Text, CanonLabels, Encode, NoGap, LabelsShort;
    assert name[0..] == name && entries[..|entries|] == entries;
    EncodeRest(p0, p0, bufLen, |p0|, name, 0, [], [], [], entries, |entries|);
  }

  /** A name of at most 255 bytes with labels of at most 63 is always written when
      there is room for it, and takes no more room than that. */
  lemma {:induction false} EncodeFits(bufLen: nat, j: nat, name: seq<byte>, entries: seq<Entry>)
    ensures LabelsShort(name) && j + |name| + 2 <= bufLen ==> Encode(bufLen, j, name, entries).Bytes?
    ensures Encode(bufLen, j, name, entries).LabelTooLong? ==> !LabelsShort(name)
    ensures Encode(bufLen, j, name, entries).NoRoom? ==> j + |name| + 2 > bufLen
    ensures Encode(bufLen, j, name, entries).Bytes? ==> |Encode(bufLen, j, name, entries).bytes| <= |name| + 2
    ensures LabelsShort(name) && |name| <= 255 && j + |name| + 2 <= bufLen ==> EncodeName(bufLen, j, name, entries).Bytes?
    ensures |name| > 255 ==> EncodeName(bufLen, j, name, entries).NoRoom?
    decreases |name|
  {
    hide Find, FirstDot, Remember, Pointer;
    var d := FirstDot(name);
    if Find(entries, name).None? && d <= 63 && j + d + 1 <= bufLen && d < |name| {
      EncodeFits(bufLen, j + d + 1, name[d + 1..], Remember(entries, Entry(name, j)));
    }
  }

  /** No ending of the name that starts at a label is in the table. */
  predicate NoneKnown(name: seq<byte>, entries: seq<Entry>)
    decreases |name|
  {
    var d := FirstDot(name);
    Find(entries, name).None? && (d < |name| ==> NoneKnown(name[d + 1..], entries))
  }

  lemma {:induction false} FindSnoc(entries: seq<Entry>, e: Entry, name: seq<byte>)
    requires e.name != name
    ensures Find(entries + [e], name) == Find(entries, name)
  {
    if entries == [] {
      assert (entries + [e])[1..] == [];
    } else {
      FindSnoc(entries[1..], e, name);
      assert (entries + [e])[0] == entries[0] && (entries + [e])[1..] == entries[1..] + [e];
    }
  }

  /** An entry for a longer name does not count. */
  lemma {:induction false} KnownSame(name: seq<byte>, entries: seq<Entry>, e: Entry)
    requires |e.name| > |name|
    ensures NoneKnown(name, Remember(entries, e)) <==> NoneKnown(name, entries)
    decreases |name|
  {
    hide Find, FirstDot;
    var d := FirstDot(name);
    FindSnoc(entries, e, name);
    if d < |name| {
      KnownSame(name[d + 1..], entries, e);
    }
  }

  /** The final zero byte goes behind the buffer exactly when the name is written
      without a pointer, its last label has a byte, and it fills the buffer. */
  lemma {:induction false} EndsBehind(bufLen: nat, j: nat, name: seq<byte>, entries: seq<Entry>)
    ensures var e := Encode(bufLen, j, name, entries);
      e.Bytes? ==>
        (j + |e.bytes| == bufLen + 1 <==>
          NoneKnown(name, entries) && name != [] && name[|name| - 1] != DOT && j + |name| + 1 == bufLen)
    decreases |name|
  {
    hide Find, Remember, Pointer, FirstDot;
    var d := FirstDot(name);
    if Find(entries, name).None? && d <= 63 && j + d + 1 <= bufLen && d < |name| {
      var more := Remember(entries, Entry(name, j));
      KnownSame(name[d + 1..], entries, Entry(name, j));
      EndsBehind(bufLen, j + d + 1, name[d + 1..], more);
      assert d + 1 < |name| ==> name[d + 1..][|name| - d - 2] == name[|name| - 1];
    }
  }

  /** "a..b" is written as "a". */
  lemma EmptyLabelCuts()
    ensures Text(CanonLabels([97, 46, 46, 98])) == [97]
  {
    var name: seq<byte> := [97, 46, 46, 98];
    assert FirstDot(name) == 1 by {
      assert name[1..][0] == DOT;
    }
    assert FirstDot(name[2..]) == 0;
    TextCons([97], []);
    assert name[..1] == [97] && CanonLabels(name[2..]) == [];
  }

  /** "a" in a buffer of two bytes ends at the third. */
  lemma OneBehind()
    ensures Encode(2, 0, [97], []).Bytes? && |Encode(2, 0, [97], []).bytes| == 3
  {
    assert FirstDot([97]) == 1;
  }
}
