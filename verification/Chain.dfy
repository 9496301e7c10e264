/** The chunks an evbuffer stores its bytes in, and lists of them. */
module Chains {
  import opened Bytes

  const MIN_BUFFER_SIZE: nat := 1024
  const CHAIN_SIZE: nat := 48
  const CHAIN_MAX: nat := SSIZE_MAX
  const MAX_ALLOC: nat := CHAIN_MAX - CHAIN_SIZE
  const MAX_AUTO_SIZE: nat := 4096
  const MAX_TO_REALIGN: nat := 2048
  const MAX_TO_COPY: nat := 4096

  /** A chunk: its whole buffer and the window of the buffer that
      holds data.  The window of a read-only chunk ends where the buffer ends. */
  datatype RawChain = Chain(buffer: seq<byte>, misalign: nat, off: nat, immutable: bool) {
    predicate Ok() {
      && misalign + off <= |buffer| <= MAX_ALLOC
      && if immutable then misalign + off == |buffer| else 0 < |buffer|
    }
  }

  type Chain = c: RawChain | c.Ok() witness Chain([0], 0, 0, false)

  function Data(c: Chain): (d: seq<byte>)
    ensures |d| == c.off
  {
    c.buffer[c.misalign..c.misalign + c.off]
  }

  /** How many bytes can be written after the data. */
  function SpaceLen(c: Chain): nat {
    if c.immutable then 0 else |c.buffer| - (c.misalign + c.off)
  }

  /** The buffer `b` after copying `d` to offset `at`. */
  function CopyTo(b: seq<byte>, at: nat, d: seq<byte>): (r: seq<byte>)
    requires at + |d| <= |b|
    ensures |r| == |b|
    ensures r[at..at + |d|] == d && r[..at] == b[..at] && r[at + |d|..] == b[at + |d|..]
  {
    b[..at] + d + b[at + |d|..]
  }

  /** Writes `d` right after the bytes already stored. */
  function Append(c: Chain, d: seq<byte>): (r: Chain)
    requires !c.immutable && |d| <= SpaceLen(c)
    ensures Data(r) == Data(c) + d
    ensures r.misalign == c.misalign && |r.buffer| == |c.buffer| && !r.immutable
  {
    var b := CopyTo(c.buffer, c.misalign + c.off, d);
    assert b[..c.misalign + c.off][c.misalign..] == c.buffer[..c.misalign + c.off][c.misalign..];
    assert b[c.misalign..c.misalign + c.off + |d|] == Data(c) + d;
    c.(buffer := b, off := c.off + |d|)
  }

  /** Writes `d` right before the bytes already stored. */
  function PushFront(c: Chain, d: seq<byte>): (r: Chain)
    requires !c.immutable && |d| <= c.misalign
    ensures Data(r) == d + Data(c)
    ensures r.misalign == c.misalign - |d| && |r.buffer| == |c.buffer| && !r.immutable
  {
    var b := CopyTo(c.buffer, c.misalign - |d|, d);
    assert b[c.misalign..][..c.off] == c.buffer[c.misalign..][..c.off];
    assert b[c.misalign - |d|..c.misalign + c.off] == d + Data(c);
    c.(buffer := b, misalign := c.misalign - |d|, off := c.off + |d|)
  }

  /** Forgets the first `n` bytes. */
  function TrimFront(c: Chain, n: nat): (r: Chain)
    requires n <= c.off
    ensures Data(r) == Data(c)[n..]
    ensures r.buffer == c.buffer && r.immutable == c.immutable
  {
    c.(misalign := c.misalign + n, off := c.off - n)
  }

  predicate ShouldRealign(c: Chain, datlen: nat) {
    |c.buffer| - c.off >= datlen && c.off < |c.buffer| / 2 && c.off <= MAX_TO_REALIGN
  }

  /** Moves the data to the start of the buffer. */
  function Align(c: Chain): (r: Chain)
    requires !c.immutable
    ensures Data(r) == Data(c) && r.misalign == 0
    ensures |r.buffer| == |c.buffer| && !r.immutable
  {
    c.(buffer := CopyTo(c.buffer, 0, Data(c)), misalign := 0)
  }

  /** The bytes of a list of chains, front first. */
  ghost function Content(cs: seq<Chain>): seq<byte> {
    if cs == [] then [] else Data(cs[0]) + Content(cs[1..])
  }

  lemma {:induction false} ContentAppend(a: seq<Chain>, b: seq<Chain>)
    ensures Content(a + b) == Content(a) + Content(b)
  {
    if a == [] {
      assert a + b == b;
    } else {
      ContentAppend(a[1..], b);
      assert (a + b)[0] == a[0] && (a + b)[1..] == a[1..] + b;
      Assoc(Data(a[0]), Content(a[1..]), Content(b));
    }
  }

  lemma ContentOne(c: Chain)
    ensures Content([c]) == Data(c)
  {
    assert [c][1..] == [];
  }

  lemma ContentSplit(cs: seq<Chain>, k: nat)
    requires k <= |cs|
    ensures Content(cs) == Content(cs[..k]) + Content(cs[k..])
  {
    hide Content, Data;
    assert Content(cs[..k] + cs[k..]) == Content(cs[..k]) + Content(cs[k..]) by {
      ContentAppend(cs[..k], cs[k..]);
    }
    assert cs[..k] + cs[k..] == cs;
  }

  /** The list seen from chain number `k`. */
  lemma ContentAt(cs: seq<Chain>, k: nat)
    requires k < |cs|
    ensures Content(cs[k..]) == Data(cs[k]) + Content(cs[k + 1..])
    ensures Content(cs[..k + 1]) == Content(cs[..k]) + Data(cs[k])
  {
    assert Content(cs[k..]) == Data(cs[k]) + Content(cs[k + 1..]) by {
      assert cs[k..][1..] == cs[k + 1..];
    }
    assert Content(cs[..k + 1]) == Content(cs[..k]) + Data(cs[k]) by {
      assert cs[..k + 1] == cs[..k] + [cs[k]];
      ContentAppend(cs[..k], [cs[k]]);
      ContentOne(cs[k]);
    }
  }

  ghost predicate AllEmpty(cs: seq<Chain>) {
    forall i {:trigger cs[i].off} | 0 <= i < |cs| :: cs[i].off == 0
  }

  lemma {:induction false} ContentEmpty(cs: seq<Chain>)
    requires AllEmpty(cs)
    ensures Content(cs) == []
  {
    if cs != [] {
      ContentEmpty(cs[1..]);
    }
  }

  /** A pointer to a pointer into a list of chains: the head of the list, or the
      `next` field of chain number `i`. */
  datatype Slot = Head | NextOf(i: nat) {
    /** The number of the chain that the pointer leads to. */
    function Index(): nat {
      if Head? then 0 else i + 1
    }
  }

  /** evbuffer_chain_new: a new empty chain with room for `size` bytes.  The
      allocation with its header is rounded up to a power of two. */
  method NewChain(size: nat) returns (r: Option<Chain>)
    ensures r.None? <==> size > MAX_ALLOC
    ensures r.Some? ==> r.value.misalign == 0 && r.value.off == 0 && !r.value.immutable
    ensures r.Some? ==> size <= |r.value.buffer|
    ensures r.Some? && size + 48 <= 1024 ==> |r.value.buffer| == 976
    ensures r.Some? && 1024 < size + 48 < CHAIN_MAX / 2 ==> |r.value.buffer| + 48 < 2 * (size + 48)
    ensures r.Some? && size + 48 >= CHAIN_MAX / 2 ==> |r.value.buffer| == size
  {
    if size > MAX_ALLOC {
      return None;
    }
    var toAlloc := size + CHAIN_SIZE;
    if toAlloc < CHAIN_MAX / 2 {
      toAlloc := MIN_BUFFER_SIZE;
      while toAlloc < size + CHAIN_SIZE
        invariant MIN_BUFFER_SIZE <= toAlloc <= CHAIN_MAX
        invariant toAlloc == MIN_BUFFER_SIZE || MIN_BUFFER_SIZE < size + CHAIN_SIZE
        invariant toAlloc == MIN_BUFFER_SIZE || toAlloc < 2 * (size + CHAIN_SIZE)
      {
        toAlloc := toAlloc * 2;
      }
    }
    var n := toAlloc - CHAIN_SIZE;
    assert |seq(n, _ => 0 as byte)| == n;
    var buffer: seq<byte> :| |buffer| == n;
    return Some(Chain(buffer, 0, 0, false));
  }
}
