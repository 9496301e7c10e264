/** Tagged data on a byte stream: tags of 7-bit groups, integers of nibbles. */
module Tagging {
  import opened Bytes

  type nibble = x: int | 0 <= x < 16

  // Integers

  /** The significant nibbles of a number, lowest first. */
  function Nibbles(n: nat): (r: seq<nibble>) {
    if n == 0 then [] else [n % 16] + Nibbles(n / 16)
  }

  function Value(ns: seq<nibble>): nat {
    if ns == [] then 0 else ns[0] + 16 * Value(ns[1..])
  }

  function Pack(ns: seq<nibble>): (r: seq<byte>)
    ensures |r| == (|ns| + 1) / 2
  {
    if ns == [] then []
    else
      var high: int := ns[0];
      if |ns| == 1 then [high * 16]
      else
        var low: int := ns[1];
        [high * 16 + low] + Pack(ns[2..])
  }

  function NibbleAt(p: seq<byte>, k: nat): nibble
    requires k / 2 < |p|
  {
    if k % 2 == 1 then p[k / 2] % 16 else p[k / 2] / 16
  }

  /** An integer on the wire: how many nibbles follow, less one, and then these. */
  function IntBytes(n: nat): (r: seq<byte>)
    requires |Nibbles(n)| <= 16
  {
    var ns := Nibbles(n);
    Pack([if ns == [] then 0 else |ns| - 1] + ns)
  }

  lemma {:induction false} PackAt(ns: seq<nibble>, k: nat)
    requires k < 2 * |Pack(ns)|
    ensures NibbleAt(Pack(ns), k) == if k < |ns| then ns[k] else 0
  {
    if |ns| >= 2 && k >= 2 {
      PackAt(ns[2..], k - 2);
      assert Pack(ns)[k / 2] == Pack(ns[2..])[(k - 2) / 2];
    }
  }

  /** Bytes with these nibbles are the packed ones. */
  lemma SameNibbles(p: seq<byte>, ns: seq<nibble>)
    requires |p| == (|ns| + 1) / 2
    requires forall k: nat | k < 2 * |p| :: NibbleAt(p, k) == if k < |ns| then ns[k] else 0
    ensures p == Pack(ns)
  {
    hide Pack, NibbleAt;
    var q := Pack(ns);
    forall i | 0 <= i < |p|
      ensures p[i] == q[i]
    {
      PackAt(ns, 2 * i);
      PackAt(ns, 2 * i + 1);
      ByteIs(p, i);
      ByteIs(q, i);
    }
  }

  lemma ByteIs(p: seq<byte>, i: nat)
    requires i < |p|
    ensures p[i] == 16 * NibbleAt(p, 2 * i) + NibbleAt(p, 2 * i + 1)
  {
  }

  lemma {:induction false} ValueOfNibbles(n: nat)
    ensures Value(Nibbles(n)) == n
  {
    if n > 0 {
      ValueOfNibbles(n / 16);
    }
  }

  /** Sixteen to the power of `k` is the first number of more than `k` nibbles. */
  function Pow16(k: nat): (p: nat)
    ensures p > 0
  {
    if k == 0 then 1 else 16 * Pow16(k - 1)
  }

  lemma {:induction false} NibblesFit(n: nat, k: nat)
    ensures |Nibbles(n)| <= k <==> n < Pow16(k)
    decreases k
  {
    if k > 0 {
      NibblesFit(n / 16, k - 1);
    }
  }

  /** The digit of 16 to the power of `k`. */
  function Digit(n: nat, k: nat): nat
    decreases k
  {
    if k == 0 then n % 16 else Digit(n / 16, k - 1)
  }

  lemma {:induction false} NibbleIs(n: nat, k: nat)
    ensures Digit(n, k) == if k < |Nibbles(n)| then Nibbles(n)[k] else 0
    decreases k
  {
    if k > 0 {
      NibbleIs(n / 16, k - 1);
    }
  }

  lemma Widths()
    ensures Pow16(8) == 0x1_0000_0000 && Pow16(16) == 0x1_0000_0000_0000_0000
  {
    assert Pow16(4) == 0x1_0000;
    assert Pow16(8) == 0x1_0000_0000;
    assert Pow16(12) == 0x1_0000_0000_0000;
  }

  method PutNibble(data: array<byte>, k: nat, x: nibble)
    requires k / 2 < data.Length
    modifies data
    ensures data[..] == WithNibble(old(data[..]), k, x)
    ensures forall j: nat {:trigger NibbleAt(data[..], j)} | j < 2 * data.Length ::
        NibbleAt(data[..], j) == if j == k then x else NibbleAt(old(data[..]), j)
  {
    SetNibble(data[..], k, x);
    var i, y: int := k / 2, x;
    if k % 2 == 1 {
      data[i] := data[i] / 16 * 16 + y;
    } else {
      data[i] := data[i] % 16 + y * 16;
    }
  }

  /** encode_int_internal: the integer is written to the start of `data`, in n / 2 + 1
      bytes for n significant nibbles. */
  method EncodeInt(data: array<byte>, n: nat) returns (len: nat)
    requires |Nibbles(n)| <= 16 && 2 * data.Length >= |Nibbles(n)| + 2 && data.Length <= 9
    modifies data
    ensures len == |Nibbles(n)| / 2 + 1 <= data.Length && data[..len] == IntBytes(n)
    ensures data[0] == (if |Nibbles(n)| < 2 then 0 else 16 * (|Nibbles(n)| - 1)) + n % 16
    ensures forall i {:trigger data[i]} | 1 <= i < len :: data[i] == 16 * Digit(n, 2 * i - 1) + Digit(n, 2 * i)
  {
    hide Value, Pack, NibbleAt, WithNibble, Digit, IntBytes;
    forall i | 0 <= i < data.Length {
      data[i] := 0;
    }
    NoNibbles(data[..]);
    ghost var ns := Nibbles(n);
    var off: nat, number: nat := 1, n;
    assert ns[0..] == ns;
    while number > 0
      invariant 1 <= off <= |ns| + 1 && Nibbles(number) == ns[off - 1..]
      invariant Filled(data[..], ns, 1, off)
      decreases number
    {
      NibblesStep(number, ns, off - 1);
      PutNibble(data, off, number % 16);
      number := number / 16;
      off := off + 1;
    }
    var nibbles: nat := if off > 2 then off - 2 else 0;
    PutNibble(data, 0, nibbles);
    len := (off + 1) / 2;
    assert ns[off - 1..] == [];
    FilledIs(data[..], ns, nibbles, len);
    IntBytesIs(n);
    OnWire(data[..], len, n);
  }

  /** Nibbles `from` to `to` are those of `ns`, and the others, but for the first, are
      zero. */
  predicate Filled(p: seq<byte>, ns: seq<nibble>, from: nat, to: nat)
    requires 1 <= from <= to <= |ns| + 1
  {
    forall k: nat {:trigger NibbleAt(p, k)} | from <= k < 2 * |p| :: NibbleAt(p, k) == if k < to then ns[k - 1] else 0
  }

  lemma NoNibbles(p: seq<byte>)
    requires forall i | 0 <= i < |p| :: p[i] == 0
    ensures forall k: nat {:trigger NibbleAt(p, k)} | k < 2 * |p| :: NibbleAt(p, k) == 0
  {
  }

  lemma IntBytesIs(n: nat)
    requires |Nibbles(n)| <= 16
    ensures var ns := Nibbles(n); IntBytes(n) == Pack([if ns == [] then 0 else |ns| - 1] + ns)
  {
  }

  lemma FilledIs(p: seq<byte>, ns: seq<nibble>, header: nibble, len: nat)
    requires |ns| + 2 <= 2 * |p| && len == |ns| / 2 + 1
    requires NibbleAt(p, 0) == header && Filled(p, ns, 1, |ns| + 1)
    ensures p[..len] == Pack([header] + ns)
  {
    hide Pack, NibbleAt;
    var all := [header] + ns;
    forall k: nat | k < 2 * len
      ensures NibbleAt(p[..len], k) == if k < |all| then all[k] else 0
    {
      NibbleOfPrefix(p, len, k);
    }
    SameNibbles(p[..len], all);
  }

  lemma NibbleOfPrefix(p: seq<byte>, len: nat, k: nat)
    requires len <= |p| && k < 2 * len
    ensures NibbleAt(p[..len], k) == NibbleAt(p, k)
  {
  }

  lemma NibblesStep(number: nat, ns: seq<nibble>, i: nat)
    requires number > 0 && i <= |ns| && Nibbles(number) == ns[i..]
    ensures i < |ns| && ns[i] == number % 16 && Nibbles(number / 16) == ns[i + 1..]
  {
    assert ns[i..][0] == ns[i] && ns[i..][1..] == ns[i + 1..];
  }

  function WithNibble(p: seq<byte>, k: nat, x: nibble): seq<byte>
    requires k / 2 < |p|
  {
    var y: int := x;
    p[k / 2 := if k % 2 == 1 then p[k / 2] / 16 * 16 + y else p[k / 2] % 16 + y * 16]
  }

  lemma SetNibble(p: seq<byte>, k: nat, x: nibble)
    requires k / 2 < |p|
    ensures forall j: nat {:trigger NibbleAt(WithNibble(p, k, x), j)} | j < 2 * |p| ::
        NibbleAt(WithNibble(p, k, x), j) == if j == k then x else NibbleAt(p, j)
  {
  }

  /** The nibbles of `p` from number `k` to number `n`. */
  function NibblesAt(p: seq<byte>, k: nat, n: nat): (r: seq<nibble>)
    requires n / 2 < |p| && k <= n + 1
    ensures |r| == n + 1 - k
    decreases n + 1 - k
  {
    if k > n then [] else [NibbleAt(p, k)] + NibblesAt(p, k + 1, n)
  }

  /** The integer that starts `p`, if there is one of at most `maxNibbles`, and its
      length. */
  function IntAt(p: seq<byte>, maxNibbles: nat): (r: Option<(nat, nat)>)
    ensures r.Some? ==> 1 <= r.value.1 <= |p|
  {
    if p == [] then None
    else
      var nibbles := p[0] / 16 + 1;
      if nibbles > maxNibbles || nibbles / 2 + 1 > |p| then None
      else Some((Value(NibblesAt(p, 1, nibbles)), nibbles / 2 + 1))
  }

  lemma {:induction false} DigitOfValue(ns: seq<nibble>, k: nat)
    ensures Digit(Value(ns), k) == if k < |ns| then ns[k] else 0
    decreases k
  {
    if ns != [] {
      assert Value(ns) == ns[0] + 16 * Value(ns[1..]);
      if k > 0 {
        DigitOfValue(ns[1..], k - 1);
      }
    } else if k > 0 {
      DigitOfValue(ns, k - 1);
    }
  }

  lemma {:induction false} NibbleOf(p: seq<byte>, k: nat, n: nat, j: nat)
    requires n / 2 < |p| && k <= j <= n
    ensures NibblesAt(p, k, n)[j - k] == NibbleAt(p, j)
    decreases n - k
  {
    if k < j {
      NibbleOf(p, k + 1, n, j);
    }
  }

  /** The digits that are read: those of the bytes, in order, as many as the upper half of
      the first one says and one. */
  lemma DigitsRead(p: seq<byte>, maxNibbles: nat, j: nat)
    requires IntAt(p, maxNibbles).Some?
    ensures p != [] && IntAt(p, maxNibbles).value.1 == (p[0] / 16 + 1) / 2 + 1 <= |p|
    ensures var v := IntAt(p, maxNibbles).value.0;
      Digit(v, j) == if j > p[0] / 16 then 0 else if j % 2 == 0 then p[(j + 1) / 2] % 16 else p[(j + 1) / 2] / 16
  {
    hide Value, NibblesAt;
    var n := p[0] / 16 + 1;
    DigitOfValue(NibblesAt(p, 1, n), j);
    if j < n {
      NibbleOf(p, 1, n, j + 1);
    }
  }

  /** decode_int_internal, from index `offset`. */
  method DecodeInt(p: seq<byte>, offset: nat, maxNibbles: nat) returns (r: Option<(nat, nat)>)
    requires offset <= |p|
    ensures r == IntAt(p[offset..], maxNibbles)
    ensures r.None? <==>
      offset == |p| || p[offset] / 16 >= maxNibbles || offset + (p[offset] / 16 + 1) / 2 + 1 > |p|
  {
    hide Value, NibbleAt;
    if |p| - offset <= 0 {
      return None;
    }
    var data := p[offset..];
    var nibbles := data[0] / 16 + 1;
    if nibbles > maxNibbles || nibbles / 2 + 1 > |data| {
      return None;
    }
    var number: nat, k: nat := 0, nibbles;
    NoValue();
    while k > 0
      invariant k <= nibbles && number == Value(NibblesAt(data, k + 1, nibbles))
      decreases k
    {
      ValueStep(data, k, nibbles);
      number := number * 16 + NibbleAt(data, k);
      k := k - 1;
    }
    return Some((number, nibbles / 2 + 1));
  }

  lemma NoValue()
    ensures Value([]) == 0
  {
  }

  lemma ValueStep(p: seq<byte>, k: nat, n: nat)
    requires n / 2 < |p| && 0 < k <= n
    ensures Value(NibblesAt(p, k, n)) == 16 * Value(NibblesAt(p, k + 1, n)) + NibbleAt(p, k)
  {
    assert NibblesAt(p, k, n)[1..] == NibblesAt(p, k + 1, n);
  }

  lemma {:induction false} NibblesAtIs(p: seq<byte>, k: nat, n: nat, ns: seq<nibble>)
    requires n / 2 < |p| && k <= n + 1 && |ns| == n + 1
    requires forall j: nat {:trigger NibbleAt(p, j)} | k <= j <= n :: NibbleAt(p, j) == ns[j]
    ensures NibblesAt(p, k, n) == ns[k..]
    decreases n + 1 - k
  {
    if k <= n {
      NibblesAtIs(p, k + 1, n, ns);
    }
  }

  function Header(ns: seq<nibble>): nat {
    if ns == [] then 0 else |ns| - 1
  }

  lemma IntNibble(n: nat, more: seq<byte>, k: nat)
    requires |Nibbles(n)| <= 16 && k < 2 * |IntBytes(n)|
    ensures var ns := Nibbles(n);
      NibbleAt(IntBytes(n) + more, k) == if k == 0 then Header(ns) else if k <= |ns| then ns[k - 1] else 0
  {
    hide Pack, NibbleAt;
    var ns := Nibbles(n);
    var p := IntBytes(n) + more;
    NibbleOfPrefix(p, |IntBytes(n)|, k);
    assert p[..|IntBytes(n)|] == IntBytes(n);
    PackAt([Header(ns)] + ns, k);
  }

  /** An integer is read back as written, whatever follows, and its length is found. */
  lemma IntRoundTrip(n: nat, more: seq<byte>, maxNibbles: nat)
    requires |Nibbles(n)| <= maxNibbles <= 16 && maxNibbles > 0
    ensures IntAt(IntBytes(n) + more, maxNibbles) == Some((n, |IntBytes(n)|))
    ensures |IntBytes(n)| == |Nibbles(n)| / 2 + 1
  {
    hide Pack, NibbleAt, IntBytes, Nibbles, NibblesAt;
    var ns := Nibbles(n);
    var p := IntBytes(n) + more;
    IntLen(n);
    IntNibble(n, more, 0);
    HighNibble(p);
    var nibbles: nat := Header(ns) + 1;
    var all: seq<nibble> := if ns == [] then [0, 0] else [0] + ns;
    forall j: nat | 1 <= j <= nibbles
      ensures NibbleAt(p, j) == all[j]
    {
      IntNibble(n, more, j);
    }
    NibblesAtIs(p, 1, nibbles, all);
    ValueOfNibbles(n);
    ValueZero(ns);
    assert ns != [] ==> all[1..] == ns;
    assert ns == [] ==> all[1..] == [0];
  }

  /** The bytes of an integer: the upper half of the first one is how many digits there
      are, less one, and then the digits follow, the lowest one first and each even one
      in the lower half of its byte. */
  lemma IntOnWire(n: nat)
    requires |Nibbles(n)| <= 16
    ensures var p, k := IntBytes(n), |Nibbles(n)|;
      && |p| == k / 2 + 1
      && p[0] == (if k < 2 then 0 else 16 * (k - 1)) + n % 16
      && forall i | 1 <= i < |p| :: p[i] == 16 * Digit(n, 2 * i - 1) + Digit(n, 2 * i)
  {
    hide Pack, IntBytes, Nibbles;
    var p, ns := IntBytes(n), Nibbles(n);
    IntLen(n);
    assert p + [] == p;
    IntNibble(n, [], 0);
    IntNibble(n, [], 1);
    NibbleIs(n, 0);
    forall i | 1 <= i < |p|
      ensures p[i] == 16 * Digit(n, 2 * i - 1) + Digit(n, 2 * i)
    {
      IntNibble(n, [], 2 * i);
      IntNibble(n, [], 2 * i + 1);
      NibbleIs(n, 2 * i - 1);
      NibbleIs(n, 2 * i);
    }
  }

  lemma OnWire(d: seq<byte>, len: nat, n: nat)
    requires |Nibbles(n)| <= 16 && len <= |d| && d[..len] == IntBytes(n)
    ensures len > 0 && d[0] == (if |Nibbles(n)| < 2 then 0 else 16 * (|Nibbles(n)| - 1)) + n % 16
    ensures forall i {:trigger d[i]} | 1 <= i < len :: d[i] == 16 * Digit(n, 2 * i - 1) + Digit(n, 2 * i)
  {
    hide Digit, IntBytes, Nibbles;
    IntOnWire(n);
    assert forall i | 0 <= i < len :: d[i] == IntBytes(n)[i];
  }

  lemma ValueZero(ns: seq<nibble>)
    ensures ns == [] ==> Value(ns) == Value([0]) == 0
  {
  }

  lemma IntLen(n: nat)
    requires |Nibbles(n)| <= 16
    ensures |IntBytes(n)| == |Nibbles(n)| / 2 + 1
  {
  }

  lemma HighNibble(p: seq<byte>)
    requires p != []
    ensures NibbleAt(p, 0) == p[0] / 16
  {
  }

  // Tags

  /** A tag on the wire: groups of seven bits, lowest first, all but the last with the
      high bit set. */
  function TagBytes(t: nat): (r: seq<byte>)
    ensures |r| > 0
  {
    if t < 128 then [t] else [t % 128 + 128] + TagBytes(t / 128)
  }

  /** The groups that start `p`, up to the first without a high bit, and how many. */
  function Groups(p: seq<byte>, limit: nat): (r: Option<(nat, nat)>)
    ensures r.Some? ==> 1 <= r.value.1 <= |p|
  {
    if p == [] || limit == 0 then None
    else if p[0] < 128 then Some((p[0], 1))
    else
      match Groups(p[1..], limit - 1)
      case None => None
      case Some((v, n)) => Some((p[0] - 128 + 128 * v, n + 1))
  }

  const TAG_BYTES: nat := 5

  function TagAt(p: seq<byte>): (r: Option<(u32, nat)>)
    ensures r.Some? ==> 1 <= r.value.1 <= |p|
  {
    match Groups(p, TAG_BYTES)
    case None => None
    case Some((v, n)) => Some((v % 0x1_0000_0000, n))
  }

  lemma {:induction false} GroupsRoundTrip(t: nat, more: seq<byte>, limit: nat)
    requires |TagBytes(t)| <= limit
    ensures Groups(TagBytes(t) + more, limit) == Some((t, |TagBytes(t)|))
  {
    if t >= 128 {
      GroupsRoundTrip(t / 128, more, limit - 1);
      assert (TagBytes(t) + more)[1..] == TagBytes(t / 128) + more;
    }
  }

  /** The bytes of a tag: its groups of seven bits, the lowest one first, with the high
      bit set in all but the last, which is not zero unless it is the only one. */
  lemma {:induction false} TagOnWire(t: nat, i: nat)
    requires i < |TagBytes(t)|
    ensures TagBytes(t)[i] == Group(t, i) + if i < |TagBytes(t)| - 1 then 128 else 0
    ensures i > 0 && i == |TagBytes(t)| - 1 ==> Group(t, i) > 0
    decreases i
  {
    if i > 0 {
      TagOnWire(t / 128, i - 1);
    }
  }

  /** The digit of 128 to the power of `i`. */
  function Group(t: nat, i: nat): nat
    decreases i
  {
    if i == 0 then t % 128 else Group(t / 128, i - 1)
  }

  lemma TagFits(t: u32)
    ensures |TagBytes(t)| <= TAG_BYTES
  {
    assert t / 128 / 128 / 128 / 128 < 128;
    var a := t / 128;
    var b := a / 128;
    var c := b / 128;
    var d := c / 128;
    assert |TagBytes(d)| == 1;
    assert |TagBytes(c)| <= 2;
    assert |TagBytes(b)| <= 3;
    assert |TagBytes(a)| <= 4;
  }

  lemma TagRoundTrip(t: u32, more: seq<byte>)
    ensures TagAt(TagBytes(t) + more) == Some((t, |TagBytes(t)|))
  {
    TagFits(t);
    GroupsRoundTrip(t, more, TAG_BYTES);
  }

  lemma {:induction false} NoGroup(i: nat)
    ensures Group(0, i) == 0
  {
    if i > 0 {
      NoGroup(i - 1);
    }
  }

  lemma GroupCons(a: nat, v: nat, i: nat)
    requires a < 128
    ensures Group(a + 128 * v, i) == if i == 0 then a else Group(v, i - 1)
  {
    assert (a + 128 * v) / 128 == v && (a + 128 * v) % 128 == a;
  }

  /** Which groups are read, where they end, and when they do not end. */
  lemma {:induction false} GroupsRead(p: seq<byte>, limit: nat, i: nat)
    ensures Groups(p, limit).None? ==> i >= limit || i >= |p| || p[i] >= 128
    ensures Groups(p, limit).Some? ==>
      var (v, n) := Groups(p, limit).value;
      n <= limit && p[n - 1] < 128 && (i < n - 1 ==> p[i] >= 128) && Group(v, i) == if i < n then p[i] % 128 else 0
    decreases limit
  {
    hide Group;
    if p != [] && limit > 0 {
      if p[0] >= 128 {
        GroupsRead(p[1..], limit - 1, if i > 0 then i - 1 else 0);
        if Groups(p[1..], limit - 1).Some? {
          GroupCons(p[0] - 128, Groups(p[1..], limit - 1).value.0, i);
        }
      } else {
        GroupCons(p[0], 0, i);
        if i > 0 {
          NoGroup(i - 1);
        }
      }
    }
  }

  /** A tag that is read: the groups of the bytes up to the first without a high bit,
      which is one of the first five; of the fifth only four bits count. */
  lemma TagRead(p: seq<byte>, i: nat)
    ensures TagAt(p).None? ==> i >= 5 || i >= |p| || p[i] >= 128
    ensures TagAt(p).Some? ==>
      var (v, n) := TagAt(p).value;
      && n <= 5 && p[n - 1] < 128 && (i < n - 1 ==> p[i] >= 128)
      && (i < 5 ==> Group(v, i) == if i >= n then 0 else if i < 4 then p[i] % 128 else p[i] % 16)
  {
    hide Group, Groups;
    GroupsRead(p, TAG_BYTES, i);
    if Groups(p, TAG_BYTES).Some? && i < 5 {
      GroupOfRest(Groups(p, TAG_BYTES).value.0, i);
      if i < Groups(p, TAG_BYTES).value.1 {
        Rest4(p[i]);
      }
    }
  }

  lemma GroupOfRest(v: nat, i: nat)
    requires i < 5
    ensures Group(v % 0x1_0000_0000, i) == if i < 4 then Group(v, i) else Group(v, i) % 16
  {
    hide Group;
    GroupIs(v, i);
    GroupIs(v % 0x1_0000_0000, i);
    GroupsOfRest(v);
  }

  lemma GroupsOfRest(v: nat)
    ensures var w := v % 0x1_0000_0000;
      && w % 128 == v % 128
      && w / 128 % 128 == v / 128 % 128
      && w / 128 / 128 % 128 == v / 128 / 128 % 128
      && w / 128 / 128 / 128 % 128 == v / 128 / 128 / 128 % 128
      && w / 128 / 128 / 128 / 128 % 128 == v / 128 / 128 / 128 / 128 % 128 % 16
  {
    var w := v % 0x1_0000_0000;
    Rest32(v);
    var a, a' := v / 128, w / 128;
    Rest25(a);
    assert a' == a % 0x200_0000;
    var b, b' := a / 128, a' / 128;
    Rest18(b);
    assert b' == b % 0x4_0000;
    var c, c' := b / 128, b' / 128;
    Rest11(c);
    assert c' == c % 0x800;
    Rest4(c / 128);
  }

  lemma Rest4(v: nat)
    ensures v % 16 % 128 == v % 128 % 16 == v % 16
  {
    var q, r := v / 128, v % 128;
    assert v == 16 * (8 * q + r / 16) + r % 16;
  }

  lemma GroupIs(v: nat, i: nat)
    requires i < 5
    ensures i == 0 ==> Group(v, i) == v % 128
    ensures i == 1 ==> Group(v, i) == v / 128 % 128
    ensures i == 2 ==> Group(v, i) == v / 128 / 128 % 128
    ensures i == 3 ==> Group(v, i) == v / 128 / 128 / 128 % 128
    ensures i == 4 ==> Group(v, i) == v / 128 / 128 / 128 / 128 % 128
  {
    if i > 0 {
      GroupIs(v / 128, i - 1);
    }
  }

  lemma Rest32(v: nat)
    ensures v % 0x1_0000_0000 / 128 == v / 128 % 0x200_0000 && v % 0x1_0000_0000 % 128 == v % 128
  {
    var q, r := v / 0x1_0000_0000, v % 0x1_0000_0000;
    assert v == 128 * (0x200_0000 * q + r / 128) + r % 128;
  }

  lemma Rest25(v: nat)
    ensures v % 0x200_0000 / 128 == v / 128 % 0x4_0000 && v % 0x200_0000 % 128 == v % 128
  {
    var q, r := v / 0x200_0000, v % 0x200_0000;
    assert v == 128 * (0x4_0000 * q + r / 128) + r % 128;
  }

  lemma Rest18(v: nat)
    ensures v % 0x4_0000 / 128 == v / 128 % 0x800 && v % 0x4_0000 % 128 == v % 128
  {
    var q, r := v / 0x4_0000, v % 0x4_0000;
    assert v == 128 * (0x800 * q + r / 128) + r % 128;
  }

  lemma Rest11(v: nat)
    ensures v % 0x800 / 128 == v / 128 % 16 && v % 0x800 % 128 == v % 128
  {
    var q, r := v / 0x800, v % 0x800;
    assert v == 128 * (16 * q + r / 128) + r % 128;
  }

  /** evtag_encode_tag without the buffer. */
  method EncodeTag(tag: u32) returns (data: seq<byte>)
    ensures data == TagBytes(tag) && 1 <= |data| <= 5
    ensures forall i {:trigger data[i]} | 0 <= i < |data| ::
      data[i] == Group(tag, i) + if i < |data| - 1 then 128 else 0
  {
    data := [];
    var t: nat := tag;
    while true
      invariant data + TagBytes(t) == TagBytes(tag)
      decreases t
    {
      var lower := t % 128;
      t := t / 128;
      if t != 0 {
        lower := lower + 128;
        Assoc(data, [lower], TagBytes(t));
      }
      data := data + [lower];
      if t == 0 {
        break;
      }
    }
    TagFits(tag);
    forall i | 0 <= i < |data|
      ensures data[i] == Group(tag, i) + if i < |data| - 1 then 128 else 0
    {
      TagOnWire(tag, i);
    }
  }

  function Pow128(k: nat): nat {
    if k == 0 then 1 else 128 * Pow128(k - 1)
  }

  /** decode_tag_internal without the draining. Tags of more than five bytes, for which
      the code reads past what it has pulled up, are refused. */
  method DecodeTag(p: seq<byte>) returns (r: Option<(u32, nat)>)
    ensures r == TagAt(p)
  {
    hide Groups, Pow128;
    var number: u32, count: nat := 0, 0;
    ghost var exact: nat := 0;
    assert p[0..] == p;
    PowZero();
    while count < |p| && count < TAG_BYTES
      invariant count <= |p| && count <= TAG_BYTES && number == exact % 0x1_0000_0000
      invariant Groups(p, TAG_BYTES) == After(exact, Pow128(count), count, Groups(p[count..], TAG_BYTES - count))
    {
      var lower := p[count];
      GroupsStep(p, exact, count, TAG_BYTES - count);
      ModAdd(exact, lower % 128 * Pow128(count));
      number := (number + lower % 128 * Pow128(count)) % 0x1_0000_0000;
      exact := exact + lower % 128 * Pow128(count);
      count := count + 1;
      if lower < 128 {
        return Some((number, count));
      }
    }
    GroupsNone(p[count..], TAG_BYTES - count);
    return None;
  }

  /** What the first `count` groups and those behind them make together. */
  function After(exact: nat, weight: nat, count: nat, rest: Option<(nat, nat)>): Option<(nat, nat)> {
    match rest
    case None => None
    case Some((v, n)) => Some((exact + v * weight, count + n))
  }

  lemma PowZero()
    ensures Pow128(0) == 1
  {
  }

  lemma GroupsNone(p: seq<byte>, limit: nat)
    requires p == [] || limit == 0
    ensures Groups(p, limit) == None
  {
  }

  lemma GroupsStep(p: seq<byte>, exact: nat, count: nat, limit: nat)
    requires count < |p| && limit > 0
    ensures var lower := p[count];
      After(exact, Pow128(count), count, Groups(p[count..], limit)) ==
        if lower < 128 then Some((exact + lower % 128 * Pow128(count), count + 1))
        else After(exact + lower % 128 * Pow128(count), Pow128(count + 1), count + 1, Groups(p[count + 1..], limit - 1))
  {
    var q := p[count..];
    assert q[1..] == p[count + 1..];
    match Groups(q[1..], limit - 1)
    case None =>
    case Some((v, n)) =>
      Distribute(q[0] % 128, v, Pow128(count));
  }

  lemma Distribute(a: int, v: int, w: int)
    ensures (a + 128 * v) * w == a * w + v * (128 * w)
  {
  }

  lemma ModAdd(a: nat, b: nat)
    ensures (a % 0x1_0000_0000 + b) % 0x1_0000_0000 == (a + b) % 0x1_0000_0000
  {
    var m := 0x1_0000_0000;
    assert a == a / m * m + a % m;
    ModPlus(a / m, a % m + b);
  }

  lemma {:induction false} ModPlus(k: nat, x: nat)
    ensures (k * 0x1_0000_0000 + x) % 0x1_0000_0000 == x % 0x1_0000_0000
  {
    if k > 0 {
      ModPlus(k - 1, x);
      assert k * 0x1_0000_0000 + x == (k - 1) * 0x1_0000_0000 + x + 0x1_0000_0000;
    }
  }
}
