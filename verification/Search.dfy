/** Finding bytes in a list of chains, and reading lines. */
module Searches {
  import opened Bytes
  import opened Chains
  import opened EvBuffers

  const CR: byte := 13
  const LF: byte := 10

  /** A struct evbuffer_ptr: a position in the buffer, -1 for none, and the chain and
      the offset in it that it stands for. The chain after the last stands for NULL. */
  datatype Ptr = Ptr(pos: int, chain: nat, inChain: nat)

  /** The chain and the offset denote the position. */
  ghost predicate PtrOk(cs: seq<Chain>, p: Ptr) {
    && p.chain <= |cs| && p.pos == |Content(cs[..p.chain])| + p.inChain
    && (if p.chain < |cs| then p.inChain <= cs[p.chain].off else p.inChain == 0)
  }

  lemma PtrInside(cs: seq<Chain>, p: Ptr)
    requires PtrOk(cs, p)
    ensures 0 <= p.pos <= |Content(cs)|
    ensures p.chain < |cs| ==> Content(cs)[p.pos..] == Data(cs[p.chain])[p.inChain..] + Content(cs[p.chain + 1..])
    ensures p.chain == |cs| ==> p.pos == |Content(cs)|
  {
    hide Data;
    ContentSplit(cs, p.chain);
    if p.chain < |cs| {
      ContentAt(cs, p.chain);
      DropInto(Content(cs[..p.chain]), Data(cs[p.chain]), Content(cs[p.chain + 1..]), p.inChain);
    } else {
      assert cs[p.chain..] == [];
    }
  }

  lemma PtrNext(cs: seq<Chain>, k: nat)
    requires k < |cs|
    ensures |Content(cs[..k + 1])| == |Content(cs[..k])| + cs[k].off
  {
    ContentAt(cs, k);
  }

  lemma PtrFirst(cs: seq<Chain>)
    ensures PtrOk(cs, Ptr(0, 0, 0))
  {
    assert cs[..0] == [];
  }

  // evbuffer_ptr_set

  datatype How = SET | ADD

  /** evbuffer_ptr_set succeeds exactly for positions inside the buffer. A sum that is no
      size_t leaves the position as it was, and any other failure makes it -1. */
  method PtrSet(cs: seq<Chain>, p: Ptr, position: nat, how: How) returns (ok: bool, r: Ptr)
    requires position <= SIZE_MAX && (how.ADD? ==> p.pos >= 0 ==> PtrOk(cs, p))
    ensures how.ADD? && (p.pos < 0 || p.pos + position > SIZE_MAX) ==> !ok && r == p
    ensures how.SET? || 0 <= p.pos <= SIZE_MAX - position ==>
      var target := position + if how.SET? then 0 else p.pos;
      if target < |Content(cs)| then ok && PtrOk(cs, r) && r.pos == target && r.chain < |cs| && r.inChain < cs[r.chain].off
      else !ok && r.pos == -1
  {
    hide Content;
    if how.ADD? && (p.pos < 0 || SIZE_MAX - position < p.pos) {
      return false, p;
    }
    PtrFirst(cs);
    var target := position + if how.SET? then 0 else p.pos;
    var chain: nat, at: nat, left: nat := 0, 0, position;
    if how.ADD? {
      chain, at := p.chain, p.inChain;
    }
    PtrInside(cs, Ptr(target - left, chain, at));
    while chain < |cs| && at + left >= cs[chain].off
      invariant chain <= |cs| && left >= 0 && PtrOk(cs, Ptr(target - left, chain, at))
      decreases |cs| - chain
    {
      PtrNext(cs, chain);
      left := left - (cs[chain].off - at);
      chain := chain + 1;
      at := 0;
    }
    PtrInside(cs, Ptr(target - left, chain, at));
    if chain < |cs| {
      r := Ptr(target, chain, at + left);
      PtrInside(cs, r);
      PtrNext(cs, chain);
      ContentSplit(cs, chain + 1);
      return true, r;
    }
    return false, Ptr(-1, |cs|, 0);
  }

  // evbuffer_search

  ghost predicate Occurs(c: seq<byte>, w: seq<byte>, i: int) {
    0 <= i && i + |w| <= |c| && c[i..i + |w|] == w
  }

  /** No occurrence starts from `i` to before `j`. */
  ghost predicate NoneBetween(c: seq<byte>, w: seq<byte>, i: int, j: int) {
    forall k {:trigger Occurs(c, w, k)} | i <= k < j :: !Occurs(c, w, k)
  }

  /** memchr: where the byte `x` first comes in `d` from index `from` on. */
  method Memchr(d: seq<byte>, x: byte, from: nat) returns (r: Option<nat>)
    requires from <= |d|
    ensures r.Some? ==> from <= r.value < |d| && d[r.value] == x && x !in d[from..r.value]
    ensures r.None? ==> x !in d[from..]
  {
    for i := from to |d|
      invariant x !in d[from..i]
    {
      if d[i] == x {
        return Some(i);
      }
      assert d[from..i + 1] == d[from..i] + [d[i]];
    }
    assert d[from..|d|] == d[from..];
    return None;
  }

  /** memcmp of sequences of one length: the sign of the first difference. */
  function Compare(a: seq<byte>, b: seq<byte>): (r: int)
    requires |a| == |b|
    ensures r == 0 <==> a == b
  {
    if a == [] then 0
    else if a[0] != b[0] then (if a[0] < b[0] then -1 else 1)
    else
      assert a == [a[0]] + a[1..] && b == [b[0]] + b[1..];
      Compare(a[1..], b[1..])
  }

  /** The first difference decides. */
  lemma {:induction false} CompareIs(a: seq<byte>, b: seq<byte>) returns (k: nat)
    requires |a| == |b|
    ensures k <= |a| && a[..k] == b[..k]
    ensures Compare(a, b) == if k == |a| then 0 else if a[k] < b[k] then -1 else 1
    ensures k < |a| ==> a[k] != b[k]
  {
    if a == [] || a[0] != b[0] {
      return 0;
    }
    k := CompareIs(a[1..], b[1..]);
    k := k + 1;
    assert a[..k] == [a[0]] + a[1..][..k - 1] && b[..k] == [b[0]] + b[1..][..k - 1];
  }

  /** The first byte that differs from that of the pattern is less, or it is greater. */
  ghost predicate Differs(c: seq<byte>, i: nat, w: seq<byte>, less: bool) {
    exists k: nat {:trigger w[k]} ::
      k < |w| && i + k < |c| && c[i..i + k] == w[..k] && if less then c[i + k] < w[k] else c[i + k] > w[k]
  }

  lemma FirstDiffers(c: seq<byte>, i: nat, w: seq<byte>)
    ensures i + |w| <= |c| && Compare(c[i..i + |w|], w) != 0 ==> Differs(c, i, w, Compare(c[i..i + |w|], w) < 0)
  {
    hide Compare;
    if i + |w| <= |c| {
      var k := CompareIs(c[i..i + |w|], w);
      assert c[i..i + k] == c[i..i + |w|][..k];
    }
  }

  lemma {:induction false} CompareAppend(a: seq<byte>, b: seq<byte>, c: seq<byte>, d: seq<byte>)
    requires |a| == |b| && |c| == |d|
    ensures Compare(a + c, b + d) == if a == b then Compare(c, d) else Compare(a, b)
  {
    if a == [] {
      assert a + c == c && b + d == d;
    } else {
      assert (a + c)[1..] == a[1..] + c && (b + d)[1..] == b[1..] + d;
      CompareAppend(a[1..], b[1..], c, d);
      assert a == [a[0]] + a[1..] && b == [b[0]] + b[1..];
    }
  }

  /** What a part behind equal beginnings tells. */
  lemma ComparePart(a: seq<byte>, b: seq<byte>, k: nat, n: nat)
    requires |a| == |b| && k + n <= |a| && a[..k] == b[..k]
    ensures var r := Compare(a[k..k + n], b[k..k + n]); if r == 0 then a[..k + n] == b[..k + n] else Compare(a, b) == r
  {
    hide Compare;
    CompareAppend(a[..k], b[..k], a[k..], b[k..]);
    CompareAppend(a[k..k + n], b[k..k + n], a[k + n..], b[k + n..]);
    assert a == a[..k] + a[k..] && b == b[..k] + b[k..];
    assert a[k..] == a[k..k + n] + a[k + n..] && b[k..] == b[k..k + n] + b[k + n..];
    assert a[..k + n] == a[..k] + a[k..k + n] && b[..k + n] == b[..k] + b[k..k + n];
  }

  /** evbuffer_ptr_memcmp: how the bytes of the buffer from the position on compare with
      `w`, across chains, and less when there are not so many. */
  method PtrMemcmp(cs: seq<Chain>, p: Ptr, w: seq<byte>) returns (r: int)
    requires p.pos >= 0 ==> PtrOk(cs, p)
    ensures r == if 0 <= p.pos && p.pos + |w| <= |Content(cs)| then Compare(Content(cs)[p.pos..p.pos + |w|], w) else -1
    ensures r == 0 <==> Occurs(Content(cs), w, p.pos)
    ensures 0 <= p.pos && p.pos + |w| <= |Content(cs)| && r != 0 ==> Differs(Content(cs), p.pos, w, r < 0)
  {
    hide Content, Data, Compare, Differs;
    var total := TotalLen(cs);
    if p.pos < 0 || p.pos + |w| > total {
      return -1;
    }
    var chain: nat, at: nat, done: nat := p.chain, p.inChain, 0;
    ghost var c := Content(cs);
    ghost var d := c[p.pos..p.pos + |w|];
    FirstDiffers(c, p.pos, w);
    while done < |w| && chain < |cs|
      invariant done <= |w| && PtrOk(cs, Ptr(p.pos + done, chain, at)) && d[..done] == w[..done]
      decreases |cs| - chain
    {
      PtrInside(cs, Ptr(p.pos + done, chain, at));
      var n: nat := if |w| - done + at > cs[chain].off then cs[chain].off - at else |w| - done;
      SameSlice(c, p.pos + done, Data(cs[chain]), at, Content(cs[chain + 1..]), n);
      InSlice(c, p.pos, |w|, done, n);
      assert d[done..done + n] == Data(cs[chain])[at..at + n];
      ComparePart(d, w, done, n);
      r := Compare(Data(cs[chain])[at..at + n], w[done..done + n]);
      if r != 0 {
        return;
      }
      done := done + n;
      PtrNext(cs, chain);
      chain := chain + 1;
      at := 0;
      if done == |w| {
        assert d[..done] == d && w[..done] == w;
        return 0;
      }
    }
    PtrInside(cs, Ptr(p.pos + done, chain, at));
    assert d[..done] == d && w[..done] == w;
    return 0;
  }

  method TotalLen(cs: seq<Chain>) returns (n: nat)
    ensures n == |Content(cs)|
  {
    hide Content;
    n := 0;
    PtrFirst(cs);
    for k := 0 to |cs|
      invariant n == |Content(cs[..k])|
    {
      PtrNext(cs, k);
      n := n + cs[k].off;
    }
    assert cs[..|cs|] == cs;
  }

  lemma SameSlice(c: seq<byte>, i: nat, d: seq<byte>, at: nat, rest: seq<byte>, n: nat)
    requires i <= |c| && at + n <= |d| && c[i..] == d[at..] + rest
    ensures i + n <= |c| && c[i..i + n] == d[at..at + n]
  {
    assert c[i..i + n] == c[i..][..n] == d[at..][..n];
  }

  lemma InSlice(c: seq<byte>, i: nat, m: nat, k: nat, n: nat)
    requires i + m <= |c| && k + n <= m
    ensures c[i..i + m][k..k + n] == c[i + k..i + k + n]
  {
    var a, b := c[i..i + m][k..k + n], c[i + k..i + k + n];
    assert |a| == |b| && forall j | 0 <= j < n :: a[j] == c[i + k + j] == b[j];
  }

  /** The first byte of the pattern is not where its first byte is not. */
  lemma NoFirst(c: seq<byte>, w: seq<byte>, i: nat, d: seq<byte>, from: nat, to: nat, rest: seq<byte>)
    requires w != [] && from <= to <= |d| && w[0] !in d[from..to] && i <= |c| && c[i..] == d[from..] + rest
    ensures NoneBetween(c, w, i, i + to - from)
  {
    forall k | i <= k < i + to - from
      ensures !Occurs(c, w, k)
    {
      assert c[i..][k - i] == c[k];
      assert d[from..][k - i] == d[from..to][k - i];
      OccursFirst(c, w, k);
    }
  }

  lemma OccursFirst(c: seq<byte>, w: seq<byte>, k: int)
    ensures w != [] && Occurs(c, w, k) ==> c[k] == w[0]
  {
  }

  lemma NoneJoin(c: seq<byte>, w: seq<byte>, i: int, j: int, k: int)
    requires NoneBetween(c, w, i, j) && NoneBetween(c, w, j, k)
    ensures NoneBetween(c, w, i, k)
  {
  }

  /** evbuffer_search_range: the first place at or after `start` where the pattern
      comes, if it comes before `end`. An empty pattern is found at once. */
  method SearchRange(cs: seq<Chain>, w: seq<byte>, start: Ptr, end: Option<Ptr>) returns (r: Ptr)
    requires PtrOk(cs, start) && (end.Some? ==> PtrOk(cs, end.value))
    ensures w == [] ==> r == start
    ensures r.pos >= 0 ==>
      && PtrOk(cs, r) && r.pos >= start.pos && Occurs(Content(cs), w, r.pos) && NoneBetween(Content(cs), w, start.pos, r.pos)
      && (w != [] && end.Some? ==> r.pos + |w| <= end.value.pos)
    ensures r.pos < 0 ==> r.pos == -1
    ensures r.pos < 0 ==>
      forall k {:trigger Occurs(Content(cs), w, k)} | k >= start.pos && Occurs(Content(cs), w, k) ::
        (end.Some? && k + |w| > end.value.pos)
  {
    hide Content, Data, NoneBetween;
    PtrInside(cs, start);
    ghost var c := Content(cs);
    var chain: nat, at: nat, pos: nat := start.chain, start.inChain, start.pos;
    NoneYet(c, w, pos);
    if w == [] {
      assert c[pos..pos + 0] == [];
      return start;
    }
    while chain < |cs|
      invariant start.pos <= pos && PtrOk(cs, Ptr(pos, chain, at)) && NoneBetween(c, w, start.pos, pos)
      decreases |cs| - chain, |c| - pos
    {
      PtrInside(cs, Ptr(pos, chain, at));
      PtrNext(cs, chain);
      var p := Memchr(Data(cs[chain]), w[0], at);
      if p.Some? {
        var q: nat := pos + (p.value - at);
        NoFirst(c, w, pos, Data(cs[chain]), at, p.value, Content(cs[chain + 1..]));
        NoneJoin(c, w, start.pos, pos, q);
        pos, at := q, p.value;
        PtrInside(cs, Ptr(pos, chain, at));
        assert c[pos..][0] == Data(cs[chain])[at];
        var r := PtrMemcmp(cs, Ptr(pos, chain, at), w);
        if r == 0 {
          if end.Some? && pos + |w| > end.value.pos {
            return Ptr(-1, |cs|, 0);
          }
          return Ptr(pos, chain, at);
        }
        NoneMore(c, w, start.pos, pos);
        pos, at := pos + 1, at + 1;
        if at == cs[chain].off {
          chain, at := chain + 1, 0;
        }
      } else {
        NoFirst(c, w, pos, Data(cs[chain]), at, cs[chain].off, Content(cs[chain + 1..]));
        NoneJoin(c, w, start.pos, pos, pos + (cs[chain].off - at));
        if end.Some? && chain == end.value.chain {
          NoneIs(c, w, start.pos, pos + (cs[chain].off - at));
          return Ptr(-1, |cs|, 0);
        }
        pos := pos + (cs[chain].off - at);
        chain, at := chain + 1, 0;
      }
    }
    PtrInside(cs, Ptr(pos, chain, at));
    NoneIs(c, w, start.pos, pos);
    return Ptr(-1, |cs|, 0);
  }

  lemma NoneYet(c: seq<byte>, w: seq<byte>, i: int)
    ensures NoneBetween(c, w, i, i)
  {
  }

  lemma NoneMore(c: seq<byte>, w: seq<byte>, i: int, j: int)
    requires NoneBetween(c, w, i, j) && !Occurs(c, w, j)
    ensures NoneBetween(c, w, i, j + 1)
  {
  }

  lemma NoneIs(c: seq<byte>, w: seq<byte>, i: int, j: int)
    requires NoneBetween(c, w, i, j)
    ensures forall k {:trigger Occurs(c, w, k)} | i <= k < j :: !Occurs(c, w, k)
  {
  }

  // Lines

  datatype Style = ANY | CRLF | CRLF_STRICT | LF_ONLY

  predicate IsEolChar(x: byte) {
    x == CR || x == LF
  }

  /** How many of the bytes from index `i` on are ends of lines. */
  function Span(c: seq<byte>, i: nat): (n: nat)
    requires i <= |c|
    ensures i + n <= |c|
    decreases |c| - i
  {
    if i < |c| && IsEolChar(c[i]) then 1 + Span(c, i + 1) else 0
  }

  /** The length of the line end of a style at index `i`, or zero if there is none. */
  function EolLen(c: seq<byte>, i: nat, style: Style): (n: nat)
    requires i < |c|
    ensures i + n <= |c|
  {
    var crlf := c[i] == CR && i + 1 < |c| && c[i + 1] == LF;
    match style
    case ANY => Span(c, i)
    case CRLF => if c[i] == LF then 1 else if crlf then 2 else 0
    case CRLF_STRICT => if crlf then 2 else 0
    case LF_ONLY => if c[i] == LF then 1 else 0
  }

  /** No line end of a style starts from `i` to before `j`. */
  ghost predicate NoEol(c: seq<byte>, style: Style, i: int, j: int) {
    forall k: nat {:trigger EolLen(c, k, style)} | i <= k < j && k < |c| :: EolLen(c, k, style) == 0
  }

  /** The first byte of interest: a line feed, or a line feed or a carriage return. */
  predicate Wanted(x: byte, crToo: bool) {
    x == LF || (crToo && x == CR)
  }

  predicate NoneWanted(d: seq<byte>, from: int, to: int, crToo: bool) {
    forall i {:trigger d[i]} | from <= i < to && 0 <= i < |d| :: !Wanted(d[i], crToo)
  }

  const CHUNK: nat := 128

  /** find_eol_char: looks at one chunk after the other, and finds what a plain scan
      would. */
  method FindEolChar(d: seq<byte>, from: nat) returns (r: Option<nat>)
    requires from <= |d|
    ensures r.Some? ==> from <= r.value < |d| && IsEolChar(d[r.value]) && NoneWanted(d, from, r.value, true)
    ensures r.None? ==> NoneWanted(d, from, |d|, true)
  {
    var s := from;
    while s < |d|
      invariant from <= s && NoneWanted(d, from, s, true)
    {
      var chunk := if s + CHUNK < |d| then CHUNK else |d| - s;
      var cr := Memchr(d[..s + chunk], CR, s);
      var lf := Memchr(d[..s + chunk], LF, s);
      Missing(d, s, s + chunk, CR, if cr.Some? then cr.value else s + chunk);
      Missing(d, s, s + chunk, LF, if lf.Some? then lf.value else s + chunk);
      if cr.Some? {
        if lf.Some? && lf.value < cr.value {
          return lf;
        }
        return cr;
      } else if lf.Some? {
        return lf;
      }
      s := s + CHUNK;
    }
    return None;
  }

  lemma Missing(d: seq<byte>, s: nat, e: nat, x: byte, k: nat)
    requires s <= k <= e <= |d| && x !in d[..e][s..k]
    ensures forall i {:trigger d[i]} | s <= i < k :: d[i] != x
  {
    forall i | s <= i < k
      ensures d[i] != x
    {
      assert d[..e][s..k][i - s] == d[i];
    }
  }

  /** evbuffer_strchr for a line feed, and evbuffer_find_eol_char. */
  method FindChar(cs: seq<Chain>, it: Ptr, crToo: bool) returns (r: Ptr)
    requires PtrOk(cs, it)
    ensures r.pos < 0 ==> r.pos == -1 && NoneWanted(Content(cs), it.pos, |Content(cs)|, crToo)
    ensures r.pos >= 0 ==> PtrOk(cs, r) && it.pos <= r.pos < |Content(cs)| && r.chain < |cs| && r.inChain < cs[r.chain].off
    ensures r.pos >= 0 ==> Wanted(Content(cs)[r.pos], crToo) && NoneWanted(Content(cs), it.pos, r.pos, crToo)
  {
    hide Content, Data;
    PtrInside(cs, it);
    ghost var c := Content(cs);
    var chain: nat, at: nat, pos: nat := it.chain, it.inChain, it.pos;
    while chain < |cs|
      invariant it.pos <= pos && PtrOk(cs, Ptr(pos, chain, at)) && NoneWanted(c, it.pos, pos, crToo)
      decreases |cs| - chain
    {
      PtrInside(cs, Ptr(pos, chain, at));
      PtrNext(cs, chain);
      var d := Data(cs[chain]);
      var p: Option<nat>;
      if crToo {
        p := FindEolChar(d, at);
      } else {
        p := Memchr(d, LF, at);
        Missing(d, at, |d|, LF, if p.Some? then p.value else |d|);
      }
      ghost var to := if p.Some? then p.value else |d|;
      WantedMoves(c, pos, d, at, to, Content(cs[chain + 1..]), crToo);
      if p.Some? {
        r := Ptr(pos + (p.value - at), chain, p.value);
        PtrInside(cs, r);
        assert c[r.pos..][0] == d[p.value];
        return r;
      }
      pos := pos + (cs[chain].off - at);
      chain, at := chain + 1, 0;
    }
    PtrInside(cs, Ptr(pos, chain, at));
    return Ptr(-1, |cs|, 0);
  }

  lemma WantedMoves(c: seq<byte>, i: nat, d: seq<byte>, from: nat, to: nat, rest: seq<byte>, crToo: bool)
    requires from <= to <= |d| && i <= |c| && c[i..] == d[from..] + rest && NoneWanted(d, from, to, crToo)
    ensures NoneWanted(c, i, i + to - from, crToo)
  {
    forall k | i <= k < i + to - from && k < |c|
      ensures !Wanted(c[k], crToo)
    {
      assert c[i..][k - i] == c[k];
      assert d[from..][k - i] == d[from + k - i];
    }
  }

  /** evbuffer_strspn for the two bytes that end lines: -1 without a chain. The position
      afterwards is right unless the last chain has data and all of it was counted: then
      its start is returned for its end. */
  method Strspn(cs: seq<Chain>, it: Ptr) returns (count: int, after: Ptr)
    requires it.chain < |cs| ==> PtrOk(cs, it)
    ensures it.chain >= |cs| ==> count == -1 && after == it
    ensures it.chain < |cs| ==>
      && 0 <= it.pos <= |Content(cs)| && count == Span(Content(cs), it.pos) && after.pos == it.pos + count <= |Content(cs)|
      && (PtrOk(cs, after) <==> after.pos < |Content(cs)| || cs[|cs| - 1].off == 0)
  {
    hide Content, Data, Span;
    if it.chain >= |cs| {
      return -1, it;
    }
    PtrInside(cs, it);
    ghost var c := Content(cs);
    var chain: nat, i: nat := it.chain, it.inChain;
    count := 0;
    while true
      invariant count >= 0 && chain < |cs| && PtrOk(cs, Ptr(it.pos + count, chain, i))
      invariant it.pos + count <= |c| && Span(c, it.pos) == count + Span(c, it.pos + count)
      decreases |cs| - chain
    {
      PtrInside(cs, Ptr(it.pos + count, chain, i));
      var d := Data(cs[chain]);
      ghost var base, start := it.pos + count, i;
      while i < |d|
        invariant start <= i <= |d| && it.pos + count == base + (i - start) <= |c|
        invariant Span(c, it.pos) == count + Span(c, it.pos + count)
      {
        assert c[base..][i - start] == d[start..][i - start];
        SpanStep(c, it.pos + count);
        if !IsEolChar(d[i]) {
          return count, Ptr(it.pos + count, chain, i);
        }
        count := count + 1;
        i := i + 1;
      }
      PtrNext(cs, chain);
      i := 0;
      if chain + 1 == |cs| {
        PtrInside(cs, Ptr(it.pos + count, chain + 1, 0));
        SpanStep(c, it.pos + count);
        return count, Ptr(it.pos + count, chain, i);
      }
      chain := chain + 1;
    }
  }

  lemma SpanStep(c: seq<byte>, i: nat)
    requires i <= |c|
    ensures Span(c, i) == if i < |c| && IsEolChar(c[i]) then 1 + Span(c, i + 1) else 0
  {
  }

  lemma NoEolBefore(c: seq<byte>, style: Style, i: int, j: int, crToo: bool)
    requires NoneWanted(c, i, j, crToo) && (crToo || style.LF_ONLY?)
    ensures NoEol(c, style, i, j)
  {
    forall k: nat | i <= k < j && k < |c|
      ensures EolLen(c, k, style) == 0
    {
      assert !Wanted(c[k], crToo);
    }
  }

  lemma NoStrictBefore(c: seq<byte>, i: int, j: int)
    requires NoneBetween(c, [CR, LF], i, j)
    ensures NoEol(c, CRLF_STRICT, i, j)
  {
    forall k: nat | i <= k < j && k < |c|
      ensures EolLen(c, k, CRLF_STRICT) == 0
    {
      StrictIs(c, k);
      assert !Occurs(c, [CR, LF], k);
    }
  }

  lemma StrictIs(c: seq<byte>, k: nat)
    requires k < |c|
    ensures Occurs(c, [CR, LF], k) <==> (c[k] == CR && k + 1 < |c| && c[k + 1] == LF)
  {
    if k + 2 <= |c| {
      assert c[k..k + 2] == [c[k], c[k + 1]];
    }
  }

  lemma NoEolJoin(c: seq<byte>, style: Style, i: int, j: int, k: int)
    requires NoEol(c, style, i, j) && NoEol(c, style, j, k)
    ensures NoEol(c, style, i, k)
  {
  }

  /** The bytes of a line end of each style. */
  lemma EolBytes(c: seq<byte>, i: nat, style: Style)
    requires i < |c| && EolLen(c, i, style) > 0
    ensures var m := i + EolLen(c, i, style);
      && (style.CRLF_STRICT? ==> c[i..m] == [13, 10])
      && (style.LF_ONLY? ==> c[i..m] == [10])
      && (style.CRLF? ==> c[i..m] == [10] || c[i..m] == [13, 10])
      && (style.ANY? ==> forall k | i <= k < m :: c[k] == 13 || c[k] == 10)
      && (style.ANY? ==> m == |c| || (c[m] != 13 && c[m] != 10))
  {
    SpanBytes(c, i);
  }

  lemma {:induction false} SpanBytes(c: seq<byte>, i: nat)
    requires i <= |c|
    ensures forall k | i <= k < i + Span(c, i) :: c[k] == 13 || c[k] == 10
    ensures var j := i + Span(c, i); j == |c| || (c[j] != 13 && c[j] != 10)
    decreases |c| - i
  {
    if i < |c| && IsEolChar(c[i]) {
      SpanBytes(c, i + 1);
    }
  }

  /** Where no line end is, in bytes. */
  lemma NoEolBytes(c: seq<byte>, style: Style, i: int, j: int)
    requires NoEol(c, style, i, j)
    ensures !style.CRLF_STRICT? ==> forall k: nat | i <= k < j && k < |c| :: c[k] != 10
    ensures style.ANY? ==> forall k: nat | i <= k < j && k < |c| :: c[k] != 13
    ensures !style.LF_ONLY? ==> forall k: nat | i <= k < j && k + 1 < |c| :: c[k] != 13 || c[k + 1] != 10
  {
    forall k: nat | i <= k < j && k < |c|
      ensures !style.CRLF_STRICT? ==> c[k] != 10
      ensures style.ANY? ==> c[k] != 13
      ensures !style.LF_ONLY? && k + 1 < |c| ==> c[k] != 13 || c[k + 1] != 10
    {
      assert EolLen(c, k, style) == 0;
    }
  }

  /** The first line end of the style at or after a position. */
  method FirstEol(cs: seq<Chain>, it: Ptr, style: Style) returns (r: Ptr, len: nat)
    requires PtrOk(cs, it) && |Content(cs)| <= SIZE_MAX
    ensures r.pos < 0 ==> r.pos == -1 && len == 0 && NoEol(Content(cs), style, it.pos, |Content(cs)|)
    ensures r.pos >= 0 ==>
      && PtrOk(cs, r) && it.pos <= r.pos < |Content(cs)|
      && NoEol(Content(cs), style, it.pos, r.pos) && len == EolLen(Content(cs), r.pos, style) > 0
  {
    hide Content, Data, PtrOk, Span;
    ghost var from := it.pos;
    ghost var c := Content(cs);
    PtrInside(cs, it);
    match style {
      case ANY =>
        r := FindChar(cs, it, true);
        len := 0;
        NoEolBefore(c, style, from, if r.pos < 0 then |c| else r.pos, true);
        if r.pos >= 0 {
          var count, _ := Strspn(cs, r);
          len := count;
          SpanStep(c, r.pos);
        }
      case CRLF_STRICT =>
        r := SearchRange(cs, [CR, LF], it, None);
        len := if r.pos < 0 then 0 else 2;
        NoStrictBefore(c, from, if r.pos < 0 then |c| else r.pos);
        if r.pos >= 0 {
          StrictIs(c, r.pos);
        }
      case CRLF =>
        r, len := SearchCrlf(cs, it);
      case LF_ONLY =>
        r := FindChar(cs, it, false);
        len := if r.pos < 0 then 0 else 1;
        NoEolBefore(c, style, from, if r.pos < 0 then |c| else r.pos, false);
    }
  }

  /** evbuffer_search_eol: the first line end of the style at or after the start. */
  method SearchEol(cs: seq<Chain>, start: Option<Ptr>, style: Style) returns (r: Ptr, len: nat)
    requires |Content(cs)| <= SIZE_MAX
    requires start.Some? ==> PtrOk(cs, start.value)
    ensures var from := if start.Some? then start.value.pos else 0;
      && (r.pos < 0 ==> r.pos == -1 && len == 0 && NoEol(Content(cs), style, from, |Content(cs)|))
      && (r.pos >= 0 ==> PtrOk(cs, r) && from <= r.pos < |Content(cs)| && NoEol(Content(cs), style, from, r.pos))
      && (r.pos >= 0 ==> len == EolLen(Content(cs), r.pos, style) > 0)
    ensures r.pos >= 0 ==>
      var c, m := Content(cs), r.pos + len;
      && (style.CRLF_STRICT? ==> c[r.pos..m] == [13, 10])
      && (style.LF_ONLY? ==> c[r.pos..m] == [10])
      && (style.CRLF? ==> c[r.pos..m] == [10] || c[r.pos..m] == [13, 10])
      && (style.ANY? ==> forall k | r.pos <= k < m :: c[k] == 13 || c[k] == 10)
      && (style.ANY? ==> m == |c| || (c[m] != 13 && c[m] != 10))
    ensures
      var c, from := Content(cs), if start.Some? then start.value.pos else 0;
      forall k: nat | from <= k < (if r.pos < 0 then |c| else r.pos) ::
        && (!style.CRLF_STRICT? ==> c[k] != 10)
        && (style.ANY? ==> c[k] != 13)
        && (!style.LF_ONLY? && k + 1 < |c| ==> c[k] != 13 || c[k + 1] != 10)
  {
    hide Content, Data, PtrOk, NoEol, EolLen;
    PtrFirst(cs);
    var it := if start.Some? then start.value else Ptr(0, 0, 0);
    ghost var c := Content(cs);
    r, len := FirstEol(cs, it, style);
    NoEolBytes(c, style, it.pos, if r.pos < 0 then |c| else r.pos);
    if r.pos >= 0 {
      EolBytes(c, r.pos, style);
    }
  }

  /** The loop for the style that takes both a line feed and one behind a carriage
      return: a carriage return alone is passed over. */
  method SearchCrlf(cs: seq<Chain>, start: Ptr) returns (r: Ptr, len: nat)
    requires PtrOk(cs, start) && |Content(cs)| <= SIZE_MAX
    ensures r.pos < 0 ==> r.pos == -1 && len == 0 && NoEol(Content(cs), CRLF, start.pos, |Content(cs)|)
    ensures r.pos >= 0 ==> PtrOk(cs, r) && start.pos <= r.pos < |Content(cs)|
    ensures r.pos >= 0 ==> len == EolLen(Content(cs), r.pos, CRLF) > 0 && NoEol(Content(cs), CRLF, start.pos, r.pos)
  {
    hide Content, Data, Span;
    ghost var c := Content(cs);
    var it := start;
    PtrInside(cs, it);
    while true
      invariant PtrOk(cs, it) && start.pos <= it.pos <= |c| && NoEol(c, CRLF, start.pos, it.pos)
      decreases |c| - it.pos
    {
      r := FindChar(cs, it, true);
      NoEolBefore(c, CRLF, it.pos, if r.pos < 0 then |c| else r.pos, true);
      NoEolJoin(c, CRLF, start.pos, it.pos, if r.pos < 0 then |c| else r.pos);
      if r.pos < 0 {
        return r, 0;
      }
      PtrInside(cs, r);
      assert c[r.pos..][0] == Data(cs[r.chain])[r.inChain];
      if Data(cs[r.chain])[r.inChain] == LF {
        return r, 1;
      }
      var crlf := PtrMemcmp(cs, r, [CR, LF]);
      StrictIs(c, r.pos);
      if crlf == 0 {
        return r, 2;
      }
      var ok;
      ok, it := PtrSet(cs, r, 1, ADD);
      assert NoEol(c, CRLF, r.pos, r.pos + 1);
      NoEolJoin(c, CRLF, start.pos, r.pos, r.pos + 1);
      if !ok {
        return Ptr(-1, |cs|, 0), 0;
      }
    }
  }

  /** evbuffer_readln: takes the first line and its end off the buffer, if the buffer
      holds a whole line, and otherwise nothing. */
  method Readln(buf: EvBuffer, style: Style) returns (line: Option<seq<byte>>)
    requires buf.Valid() && buf.totalLen <= SIZE_MAX
    modifies buf`chains, buf`lastWithDatap, buf`totalLen, buf`nDelForCb
    ensures buf.Valid()
    ensures line.None? ==> buf.Contents() == old(buf.Contents())
    ensures line.Some? ==>
      var c, n, m := old(buf.Contents()), |line.value|, |old(buf.Contents())| - |buf.Contents()|;
      && !buf.freezeStart && n < m <= |c| && line.value == c[..n] && buf.Contents() == c[m..]
      && (style.CRLF_STRICT? ==> c[n..m] == [13, 10])
      && (style.LF_ONLY? ==> c[n..m] == [10])
      && (style.CRLF? ==> c[n..m] == [10] || c[n..m] == [13, 10])
      && (style.ANY? ==> forall k | n <= k < m :: c[k] == 13 || c[k] == 10)
      && (style.ANY? ==> m == |c| || (c[m] != 13 && c[m] != 10))
    ensures
      var c := old(buf.Contents());
      !buf.freezeStart ==>
      forall k: nat | k < (if line.None? then |c| else |line.value|) ::
        && (!style.CRLF_STRICT? ==> c[k] != 10)
        && (style.ANY? ==> c[k] != 13)
        && (!style.LF_ONLY? && k + 1 < |c| ==> c[k] != 13 || c[k + 1] != 10)
  {
    hide Content, Data, Span;
    ghost var c := buf.Contents();
    if buf.freezeStart {
      return None;
    }
    var it, len := SearchEol(buf.chains, None, style);
    if it.pos < 0 {
      return None;
    }
    ghost var n: nat := it.pos;
    line := buf.Remove(it.pos);
    var ok := buf.Drain(len);
    SplitLine(c, n, len);
  }

  lemma SplitLine(c: seq<byte>, n: nat, len: nat)
    requires n + len <= |c|
    ensures c == c[..n] + c[n..n + len] + c[n..][len..]
  {
  }

  /** One line feed in one chain: counting it leaves a wrong position. */
  method StrspnLoses() returns (cs: seq<Chain>, after: Ptr)
    ensures after.pos == 1 == |Content(cs)| && !PtrOk(cs, after)
  {
    cs := [Chain([LF], 0, 1, false)];
    ContentOne(cs[0]);
    PtrFirst(cs);
    var count;
    count, after := Strspn(cs, Ptr(0, 0, 0));
    assert Content(cs) == [LF];
    SpanStep([LF], 0);
    SpanStep([LF], 1);
  }
}
