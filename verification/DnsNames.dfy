/** Domain names on the wire: length-prefixed labels with back pointers, as in
    sections 3.1 and 4.1.4 of RFC 1035, and the parser that follows them. */
module DnsNames {
  import opened Bytes

  const DOT: byte := 46

  /** What the byte at an index of a packet starts. */
  datatype Piece =
    | Stop
    | Label(text: seq<byte>, next: nat)
    | Jump(target: nat, after: nat)
    | Bad

  function Look(p: seq<byte>, j: nat): Piece {
    if j >= |p| then Bad
    else
      var c: int := p[j];
      if c == 0 then Stop
      else if c >= 64 then
        if j + 1 >= |p| then Bad
        else
          var low: int := p[j + 1];
          var target := c % 64 * 256 + low;
          if target >= |p| then Bad else Jump(target, j + 2)
      else if j + 1 + c > |p| then Bad
      else Label(p[j + 1..j + 1 + c], j + 1 + c)
  }

  /** From index `j`, exactly `n` labels and pointers lead to the end of a name. */
  ghost predicate Ends(p: seq<byte>, j: nat, n: nat)
    decreases n
  {
    match Look(p, j)
    case Stop => n == 0
    case Label(_, next) => n > 0 && Ends(p, next, n - 1)
    case Jump(target, _) => n > 0 && Ends(p, target, n - 1)
    case Bad => false
  }

  /** The labels of the name that starts at index `j`. */
  ghost function Labels(p: seq<byte>, j: nat, n: nat): seq<seq<byte>>
    requires Ends(p, j, n)
    decreases n
  {
    match Look(p, j)
    case Stop => []
    case Label(text, next) => [text] + Labels(p, next, n - 1)
    case Jump(target, _) => Labels(p, target, n - 1)
  }

  ghost function Jumps(p: seq<byte>, j: nat, n: nat): nat
    requires Ends(p, j, n)
    decreases n
  {
    match Look(p, j)
    case Stop => 0
    case Label(_, next) => Jumps(p, next, n - 1)
    case Jump(target, _) => 1 + Jumps(p, target, n - 1)
  }

  /** The index after the name that starts at index `j`: after its first pointer,
      or after its final zero byte. */
  ghost function After(p: seq<byte>, j: nat, n: nat): nat
    requires Ends(p, j, n)
    decreases n
  {
    match Look(p, j)
    case Stop => j + 1
    case Label(_, next) => After(p, next, n - 1)
    case Jump(_, after) => after
  }

  /** The labels separated by dots. */
  function Text(ls: seq<seq<byte>>): seq<byte> {
    if ls == [] then [] else if |ls| == 1 then ls[0] else ls[0] + [DOT] + Text(ls[1..])
  }

  /** The labels and the end of the name at index `j` for a reader that takes sections 3.1
      and 4.1.4 of RFC 1035 at their word: a byte of at most 63 is the length of a label, one
      from 192 on is the start of a pointer, and nothing else is allowed. It gives up after
      `n` labels and pointers. */
  function StrictRead(p: seq<byte>, j: nat, n: nat): Option<(seq<seq<byte>>, nat)>
    decreases n
  {
    if j >= |p| then None
    else if p[j] == 0 then Some(([], j + 1))
    else if n == 0 then None
    else if p[j] <= 63 then
      var next := j + 1 + p[j];
      if next > |p| then None
      else
        match StrictRead(p, next, n - 1)
        case None => None
        case Some((ls, end)) => Some(([p[j + 1..next]] + ls, end))
    else if p[j] >= 192 && j + 1 < |p| then
      match StrictRead(p, (p[j] as int - 192) * 256 + p[j + 1] as int, n - 1)
      case None => None
      case Some((ls, _)) => Some((ls, j + 2))
    else None
  }

  /** Both readers find the same name. */
  ghost predicate Agreed(p: seq<byte>, j: nat, n: nat) {
    Ends(p, j, n) && StrictRead(p, j, n) == Some((Labels(p, j, n), After(p, j, n)))
  }

  /** What a byte means to both. */
  lemma LookStrict(p: seq<byte>, j: nat)
    requires j < |p|
    ensures p[j] == 0 ==> Look(p, j) == Stop
    ensures 0 < p[j] <= 63 && j + 1 + p[j] <= |p| ==> Look(p, j) == Label(p[j + 1..j + 1 + p[j]], j + 1 + p[j])
    ensures p[j] >= 192 && j + 1 < |p| ==>
      var target := (p[j] as int - 192) * 256 + p[j + 1] as int;
      target < |p| ==> Look(p, j) == Jump(target, j + 2)
  {
  }

  lemma StrictInside(p: seq<byte>, j: nat, n: nat)
    requires StrictRead(p, j, n).Some?
    ensures j < |p|
  {
  }

  /** The parser reads whatever a strict reader does, and finds the same. */
  lemma {:induction false} StrictIsRead(p: seq<byte>, j: nat, n: nat) returns (m: nat)
    requires StrictRead(p, j, n).Some?
    ensures m <= n && Ends(p, j, m) && StrictRead(p, j, n).value == (Labels(p, j, m), After(p, j, m))
    decreases n
  {
    hide Look;
    LookStrict(p, j);
    m := 0;
    if 0 < p[j] <= 63 {
      m := StrictIsRead(p, j + 1 + p[j], n - 1);
      m := m + 1;
    } else if p[j] != 0 {
      var target := (p[j] as int - 192) * 256 + p[j + 1] as int;
      StrictInside(p, target, n - 1);
      m := StrictIsRead(p, target, n - 1);
      m := m + 1;
    }
  }

  /** The parser takes every byte from 64 on for a pointer, also those that are no pointer
      and no length for a strict reader. */
  lemma ReservedIsPointer(p: seq<byte>, j: nat, n: nat)
    requires j + 1 < |p| && 64 <= p[j]
    ensures var target := p[j] as int % 64 * 256 + p[j + 1] as int;
      && (Ends(p, j, n + 1) <==> target < |p| && Ends(p, target, n))
      && (Ends(p, j, n + 1) ==> Labels(p, j, n + 1) == Labels(p, target, n) && After(p, j, n + 1) == j + 2)
    ensures p[j] < 192 ==> StrictRead(p, j, n) == None
  {
  }

  lemma {:induction false} EndsOnce(p: seq<byte>, j: nat, m: nat, n: nat)
    requires Ends(p, j, m) && Ends(p, j, n)
    ensures m == n
    decreases m
  {
    match Look(p, j)
    case Stop =>
    case Label(_, next) => EndsOnce(p, next, m - 1, n - 1);
    case Jump(target, _) => EndsOnce(p, target, m - 1, n - 1);
  }

  ghost predicate EndsWithin(p: seq<byte>, j: nat, n: nat) {
    exists m: nat {:trigger Ends(p, j, m)} :: m < n && Ends(p, j, m)
  }

  ghost function Below(k: nat): (s: set<nat>)
    ensures |s| == k && forall t: nat :: t in s <==> t < k
  {
    if k == 0 then {} else Below(k - 1) + {k - 1}
  }

  /** The indices from which a name ends in fewer than `n` steps. */
  ghost function Closer(p: seq<byte>, n: nat): set<nat> {
    set t | t in Below(|p|) && EndsWithin(p, t, n)
  }

  /** A name that ends makes fewer jumps than there are places to jump to: each
      pointer target is strictly closer to the end than the one before. */
  lemma {:induction false} JumpsAreFew(p: seq<byte>, j: nat, n: nat)
    requires Ends(p, j, n)
    ensures Jumps(p, j, n) <= |Closer(p, n)| <= |p|
    decreases n
  {
    SubsetSize(Closer(p, n), Below(|p|));
    match Look(p, j)
    case Stop =>
    case Label(_, next) =>
      JumpsAreFew(p, next, n - 1);
      SubsetSize(Closer(p, n - 1), Closer(p, n));
    case Jump(target, _) =>
      JumpsAreFew(p, target, n - 1);
      assert target !in Closer(p, n - 1) by {
        if m: nat :| m < n - 1 && Ends(p, target, m) {
          EndsOnce(p, target, m, n - 1);
        }
      }
      assert target in Closer(p, n);
      SubsetSize(Closer(p, n - 1) + {target}, Closer(p, n));
  }

  lemma SubsetSize<T>(a: set<T>, b: set<T>)
    requires a <= b
    ensures |a| <= |b|
  {
    assert b == a + (b - a);
  }

  /** Text grows label by label. */
  lemma {:induction false} TextSnoc(ls: seq<seq<byte>>, l: seq<byte>)
    ensures Text(ls + [l]) == if ls == [] then l else Text(ls) + ([DOT] + l)
  {
    if |ls| == 1 {
      assert (ls + [l])[1..] == [l];
      Assoc(ls[0], [DOT], l);
    } else if |ls| > 1 {
      TextSnoc(ls[1..], l);
      assert (ls + [l])[0] == ls[0] && (ls + [l])[1..] == ls[1..] + [l];
      Assoc(ls[0] + [DOT], Text(ls[1..]), [DOT] + l);
    } else {
      assert ls + [l] == [l];
    }
  }

  lemma {:induction false} TextLonger(ls: seq<seq<byte>>, more: seq<seq<byte>>)
    ensures |Text(ls)| <= |Text(ls + more)|
    decreases |more|
  {
    if more == [] {
      assert ls + more == ls;
    } else {
      TextSnoc(ls, more[0]);
      TextLonger(ls + [more[0]], more[1..]);
      assert ls + [more[0]] + more[1..] == ls + more;
    }
  }

  /** A walk from `i` has come to `j` in `k` steps, over the labels `done` and
      `jumps` pointers; `after` is the index after the first of these, if any. */
  ghost predicate Reached(p: seq<byte>, i: nat, k: nat, j: nat, done: seq<seq<byte>>, jumps: nat, after: Option<nat>) {
    && (forall n: nat {:trigger Ends(p, i, n)} | Ends(p, i, n) ::
          && n >= k && Ends(p, j, n - k)
          && Labels(p, i, n) == done + Labels(p, j, n - k)
          && Jumps(p, i, n) == jumps + Jumps(p, j, n - k)
          && After(p, i, n) == if after.Some? then after.value else After(p, j, n - k))
    && (forall m: nat {:trigger Ends(p, j, m)} | Ends(p, j, m) :: Ends(p, i, m + k))
  }

  lemma ReachedLabel(p: seq<byte>, i: nat, k: nat, j: nat, done: seq<seq<byte>>, jumps: nat, after: Option<nat>)
    requires Reached(p, i, k, j, done, jumps, after) && Look(p, j).Label?
    ensures Reached(p, i, k + 1, Look(p, j).next, done + [Look(p, j).text], jumps, after)
  {
    var Label(text, next) := Look(p, j);
    forall n: nat | Ends(p, i, n)
      ensures n >= k + 1 && Ends(p, next, n - k - 1)
      ensures Labels(p, i, n) == done + [text] + Labels(p, next, n - k - 1)
      ensures Jumps(p, i, n) == jumps + Jumps(p, next, n - k - 1)
      ensures After(p, i, n) == if after.Some? then after.value else After(p, next, n - k - 1)
    {
      assert Ends(p, j, n - k);
      Assoc(done, [text], Labels(p, next, n - k - 1));
    }
    forall m: nat | Ends(p, next, m)
      ensures Ends(p, i, m + k + 1)
    {
      assert Ends(p, j, m + 1);
    }
  }

  lemma ReachedJump(p: seq<byte>, i: nat, k: nat, j: nat, done: seq<seq<byte>>, jumps: nat, after: Option<nat>)
    requires Reached(p, i, k, j, done, jumps, after) && Look(p, j).Jump?
    ensures Reached(p, i, k + 1, Look(p, j).target, done, jumps + 1,
                    if after.Some? then after else Some(Look(p, j).after))
  {
    var Jump(target, _) := Look(p, j);
    forall n: nat | Ends(p, i, n)
      ensures n >= k + 1 && Ends(p, target, n - k - 1)
      ensures Labels(p, i, n) == done + Labels(p, target, n - k - 1)
      ensures Jumps(p, i, n) == jumps + 1 + Jumps(p, target, n - k - 1)
      ensures After(p, i, n) == if after.Some? then after.value else Look(p, j).after
    {
      assert Ends(p, j, n - k);
    }
    forall m: nat | Ends(p, target, m)
      ensures Ends(p, i, m + k + 1)
    {
      assert Ends(p, j, m + 1);
    }
  }

  /** A text and the index after it. */
  datatype Parsed = Parsed(name: seq<byte>, end: nat)

  ghost predicate Reads(p: seq<byte>, i: nat, n: nat, r: Parsed) {
    Ends(p, i, n) && r == Parsed(Text(Labels(p, i, n)), After(p, i, n))
  }

  /** No name in `p` at `i` is shorter than `outLen`. */
  ghost predicate NoneShorter(p: seq<byte>, i: nat, outLen: nat) {
    forall n: nat {:trigger Ends(p, i, n)} | Ends(p, i, n) :: |Text(Labels(p, i, n))| >= outLen
  }

  /** `r` is the name that starts at `i`, if there is one and it fits. */
  ghost predicate Answer(p: seq<byte>, i: nat, outLen: nat, r: Option<Parsed>) {
    match r
    case Some(v) => |v.name| < outLen && exists n: nat :: Reads(p, i, n, v)
    case None => NoneShorter(p, i, outLen)
  }

  lemma WalkStuck(p: seq<byte>, i: nat, k: nat, j: nat, done: seq<seq<byte>>, jumps: nat, after: Option<nat>, outLen: nat)
    requires Reached(p, i, k, j, done, jumps, after) && Look(p, j).Bad?
    ensures NoneShorter(p, i, outLen)
  {
  }

  lemma WalkLoops(p: seq<byte>, i: nat, k: nat, j: nat, done: seq<seq<byte>>, jumps: nat, after: Option<nat>, outLen: nat)
    requires Reached(p, i, k, j, done, jumps, after) && jumps > |p|
    ensures NoneShorter(p, i, outLen)
  {
    forall n: nat | Ends(p, i, n)
      ensures false
    {
      JumpsAreFew(p, i, n);
    }
  }

  lemma WalkTooLong(p: seq<byte>, i: nat, k: nat, j: nat, done: seq<seq<byte>>, jumps: nat, after: Option<nat>, outLen: nat)
    requires Reached(p, i, k, j, done, jumps, after) && |Text(done)| >= outLen
    ensures NoneShorter(p, i, outLen)
  {
    hide Text, Ends, Labels, Jumps, After;
    forall n: nat | Ends(p, i, n)
      ensures |Text(Labels(p, i, n))| >= outLen
    {
      assert Labels(p, i, n) == done + Labels(p, j, n - k);
      TextLonger(done, Labels(p, j, n - k));
    }
  }

  lemma WalkEnds(p: seq<byte>, i: nat, k: nat, j: nat, done: seq<seq<byte>>, jumps: nat, after: Option<nat>)
    requires Reached(p, i, k, j, done, jumps, after) && Look(p, j).Stop?
    ensures Reads(p, i, k, Parsed(Text(done), if after.Some? then after.value else j + 1))
  {
    assert Ends(p, j, 0);
    assert Ends(p, i, k);
    assert done + Labels(p, j, 0) == done;
  }

  /** name_parse: reads the name at `idx` exactly when it ends at all and fits the
      output; in particular the limit on jumps rejects no name that ends. */
  method NameParse(p: seq<byte>, idx: nat, outLen: nat) returns (r: Option<Parsed>)
    ensures Answer(p, idx, outLen, r)
  {
    hide Text, Ends, Labels, Jumps, After, Reached, NoneShorter, Reads;
    var nameEnd: Option<nat> := None;
    var j: nat, ptrCount: nat := idx, 0;
    var out: seq<byte> := [];
    ghost var k: nat, done: seq<seq<byte>> := 0, [];
    WalkStarts(p, idx);
    while true
      invariant Reached(p, idx, k, j, done, ptrCount, nameEnd)
      invariant out == Text(done) && (out == [] <==> done == []) && ptrCount <= |p|
      decreases |p| - ptrCount, |p| - j
    {
      if j >= |p| {
        WalkStuck(p, idx, k, j, done, ptrCount, nameEnd, outLen);
        return None;
      }
      var labelLen: nat := p[j];
      if labelLen == 0 {
        WalkEnds(p, idx, k, j, done, ptrCount, nameEnd);
        break;
      }
      if labelLen >= 64 {
        if j + 1 >= |p| {
          WalkStuck(p, idx, k, j, done, ptrCount, nameEnd, outLen);
          return None;
        }
        var low: nat := p[j + 1];
        if labelLen % 64 * 256 + low >= |p| {
          WalkStuck(p, idx, k, j, done, ptrCount, nameEnd, outLen);
          return None;
        }
        ReachedJump(p, idx, k, j, done, ptrCount, nameEnd);
        if nameEnd.None? {
          nameEnd := Some(j + 2);
        }
        j := labelLen % 64 * 256 + low;
        k := k + 1;
        ptrCount := ptrCount + 1;
        if ptrCount > |p| {
          WalkLoops(p, idx, k, j, done, ptrCount, nameEnd, outLen);
          return None;
        }
      } else {
        if j + 1 + labelLen > |p| {
          WalkStuck(p, idx, k, j, done, ptrCount, nameEnd, outLen);
          return None;
        }
        var text := p[j + 1..j + 1 + labelLen];
        ReachedLabel(p, idx, k, j, done, ptrCount, nameEnd);
        TextSnoc(done, text);
        j := j + 1;
        done := done + [text];
        k := k + 1;
        if |Text(done)| >= outLen {
          WalkTooLong(p, idx, k, j + labelLen, done, ptrCount, nameEnd, outLen);
        }
        if out != [] {
          if |out| + 1 >= outLen {
            return None;
          }
          out := out + [DOT];
        }
        if |out| + labelLen >= outLen {
          return None;
        }
        out := out + text;
        j := j + labelLen;
      }
    }
    if |out| >= outLen {
      WalkTooLong(p, idx, k, j, done, ptrCount, nameEnd, outLen);
      return None;
    }
    r := Some(Parsed(out, if nameEnd.None? then j + 1 else nameEnd.value));
    assert Reads(p, idx, k, r.value);
    return r;
  }

  lemma WalkStarts(p: seq<byte>, i: nat)
    ensures Reached(p, i, 0, i, [], 0, None) && Text([]) == []
  {
    forall n: nat | Ends(p, i, n)
      ensures Labels(p, i, n) == [] + Labels(p, i, n)
    {
    }
  }
}
