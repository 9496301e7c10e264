/** Marshalling to and from a stream of tagged data. The stream is the byte queue that
    an evbuffer stands for. */
module TagStream {
  import opened Bytes
  import opened Tagging

  datatype Item =
    | Raw(tag: u32, data: seq<byte>)
    | Int32(tag: u32, n32: u32)
    | Int64(tag: u32, n64: u64)
    | Timeval(tag: u32, sec: u32, usec: u32)

  lemma Fits32(n: u32)
    ensures |Nibbles(n)| <= 8 && |IntBytes(n)| == |Nibbles(n)| / 2 + 1 <= 5
  {
    Widths();
    NibblesFit(n, 8);
  }

  lemma Fits64(n: u64)
    ensures |Nibbles(n)| <= 16 && |IntBytes(n)| == |Nibbles(n)| / 2 + 1 <= 9
  {
    Widths();
    NibblesFit(n, 16);
  }

  function Int32Bytes(n: u32): (r: seq<byte>)
    ensures 1 <= |r| <= 5
  {
    Fits32(n);
    IntBytes(n)
  }

  function Int64Bytes(n: u64): (r: seq<byte>)
    ensures 1 <= |r| <= 9
  {
    Fits64(n);
    IntBytes(n)
  }

  function Payload(i: Item): seq<byte> {
    match i
    case Raw(_, data) => data
    case Int32(_, n) => Int32Bytes(n)
    case Int64(_, n) => Int64Bytes(n)
    case Timeval(_, sec, usec) => Int32Bytes(sec) + Int32Bytes(usec)
  }

  /** The length of the item can be written. */
  predicate Writable(i: Item) {
    |Payload(i)| < 0x1_0000_0000
  }

  /** The length of the item can be read. */
  predicate Short(i: Item) {
    |Payload(i)| <= INT_MAX
  }

  function Encoded(i: Item): seq<byte>
    requires Writable(i)
  {
    TagBytes(i.tag) + (Int32Bytes(|Payload(i)|) + Payload(i))
  }

  /** The value that was read, or nothing, and the bytes that are left. */
  datatype Got<T> = Got(value: T, rest: seq<byte>) | Fail(rest: seq<byte>)

  /** A number of 32 bits as a C int: the length that evtag_unmarshal_header returns, or
      the size that evtag_unmarshal_string asks for. */
  function AsInt(len: int): int {
    if len > INT_MAX then len - 0x1_0000_0000 else len
  }

  /** The tag and the length of an item as it is returned, once both and the whole data
      are there. A length that turns into -1 cannot be told from an error. */
  function GetHeader(p: seq<byte>): (r: Got<(u32, int)>)
    ensures r.Got? ==> r.value.1 <= |r.rest| && r.value.1 != -1
  {
    match TagAt(p)
    case None => Fail(p)
    case Some((tag, n)) =>
      match IntAt(p[n..], 8)
      case None => Fail(p[n..])
      case Some((len, m)) =>
        if |p[n + m..]| < len || AsInt(len) == -1 then Fail(p[n + m..]) else Got((tag, AsInt(len)), p[n + m..])
  }

  /** What evbuffer_drain leaves for a length that was turned into an unsigned one:
      nothing, if it was negative. */
  function Drained(q: seq<byte>, len: int): seq<byte>
    requires len <= |q|
  {
    if len < 0 then [] else q[len..]
  }

  function GetConsumed(p: seq<byte>): Got<()> {
    match GetHeader(p)
    case Fail(rest) => Fail(rest)
    case Got((_, len), q) => Got((), Drained(q, len))
  }

  /** The data of an item; a negative length makes evbuffer_add refuse it. */
  function GetRaw(p: seq<byte>): Got<(u32, seq<byte>)> {
    match GetHeader(p)
    case Fail(rest) => Fail(rest)
    case Got((tag, len), q) => if len < 0 then Fail(q) else Got((tag, q[..len]), q[len..])
  }

  /** An integer of at most `maxNibbles` behind the tag `need`. */
  function GetInt(p: seq<byte>, need: u32, maxNibbles: nat): Got<nat> {
    match TagAt(p)
    case None => Fail(p)
    case Some((tag, n)) =>
      if tag != need then Fail(p[n..])
      else
        match IntAt(p[n..], 8)
        case None => Fail(p[n..])
        case Some((len, m)) =>
          var q := p[n + m..];
          if |q| < len then Fail(q)
          else
            match IntAt(q, maxNibbles)
            case None => Fail(q[len..])
            case Some((value, k)) => if k > len then Fail(q[len..]) else Got(value, q[len..])
  }

  function GetTimeval(p: seq<byte>, need: u32): Got<(nat, nat)> {
    match GetHeader(p)
    case Fail(rest) => Fail(rest)
    case Got((tag, len), q) =>
      if tag != need then Fail(Drained(q, len))
      else
        match IntAt(q, 8)
        case None => Fail(Drained(q, len))
        case Some((sec, m)) =>
          match IntAt(q[m..], 8)
          case None => Fail(Drained(q, len))
          case Some((usec, k)) => if m + k > len then Fail(Drained(q, len)) else Got((sec, usec), q[len..])
  }

  /** Data of a fixed length; nothing of it is taken when tag or length are wrong. */
  function GetFixed(p: seq<byte>, need: u32, size: nat): Got<seq<byte>> {
    match GetHeader(p)
    case Fail(rest) => Fail(rest)
    case Got((tag, len), q) => if tag != need || len != size then Fail(q) else Got(q[..len], q[len..])
  }

  /** The size to allocate is the length and one as a C int; if that is negative there is
      no memory to be had. */
  function GetString(p: seq<byte>, need: u32): Got<seq<byte>> {
    match GetHeader(p)
    case Fail(rest) => Fail(rest)
    case Got((tag, len), q) => if tag != need || AsInt(len + 1) < 0 then Fail(q) else Got(q[..len], q[len..])
  }

  /** How much evtag_peek_length says the first item takes. */
  function PeekedLength(p: seq<byte>): Option<u32> {
    match TagAt(p)
    case None => None
    case Some((_, n)) =>
      match IntAt(p[n..], 8)
      case None => None
      case Some((len, m)) => Some((len + m + n) % 0x1_0000_0000)
  }

  // Round trips

  lemma DropTag(a: seq<byte>, b: seq<byte>, c: seq<byte>, more: seq<byte>)
    ensures a + (b + c) + more == a + (b + (c + more))
    ensures (a + (b + (c + more)))[|a|..] == b + (c + more)
    ensures (a + (b + (c + more)))[|a| + |b|..] == c + more
    ensures (c + more)[..|c|] == c && (c + more)[|c|..] == more
  {
  }

  /** Whatever follows an item, its tag and length are read back and the data comes
      next; the header is returned as it was exactly for lengths that fit an int. */
  lemma HeaderBack(i: Item, more: seq<byte>)
    requires Writable(i)
    ensures var p := Encoded(i) + more;
      && TagAt(p) == Some((i.tag, |TagBytes(i.tag)|))
      && IntAt(p[|TagBytes(i.tag)|..], 8) == Some((|Payload(i)|, |Int32Bytes(|Payload(i)|)|))
      && p[|TagBytes(i.tag)| + |Int32Bytes(|Payload(i)|)|..] == Payload(i) + more
      && (GetHeader(p) == Got((i.tag, |Payload(i)|), Payload(i) + more) <==> Short(i))
      && (!Short(i) ==>
            (GetHeader(p) == if |Payload(i)| == 0xffff_ffff then Fail(Payload(i) + more)
                             else Got((i.tag, |Payload(i)| - 0x1_0000_0000), Payload(i) + more)))
  {
    hide TagAt, IntAt, TagBytes, IntBytes, Payload;
    var tag, len := TagBytes(i.tag), Int32Bytes(|Payload(i)|);
    DropTag(tag, len, Payload(i), more);
    TagRoundTrip(i.tag, len + (Payload(i) + more));
    Fits32(|Payload(i)|);
    IntRoundTrip(|Payload(i)|, Payload(i) + more, 8);
  }

  /** Data comes back exactly if its length fits an int, and as a string only if a byte
      more does too; otherwise it stays on the stream behind its header. */
  lemma RawBack(tag: u32, data: seq<byte>, more: seq<byte>)
    requires |data| < 0x1_0000_0000
    ensures var p := Encoded(Raw(tag, data)) + more;
      && (GetRaw(p) == Got((tag, data), more) <==> |data| <= INT_MAX)
      && (GetString(p, tag) == Got(data, more) <==> |data| < INT_MAX)
      && (GetFixed(p, tag, |data|) == Got(data, more) <==> |data| <= INT_MAX)
      && (|data| > INT_MAX ==> GetRaw(p) == Fail(data + more) && GetFixed(p, tag, |data|) == Fail(data + more))
      && (|data| >= INT_MAX ==> GetString(p, tag) == Fail(data + more))
  {
    hide TagAt, IntAt, TagBytes, IntBytes, GetHeader;
    HeaderBack(Raw(tag, data), more);
    DropTag([], [], data, more);
  }

  /** Consuming takes exactly an item whose length fits an int; of longer ones it takes
      too much, or, for the one length that reads as -1, too little. */
  lemma ConsumedBack(i: Item, more: seq<byte>)
    requires Writable(i)
    ensures GetConsumed(Encoded(i) + more) ==
      if Short(i) then Got((), more)
      else if |Payload(i)| == 0xffff_ffff then Fail(Payload(i) + more)
      else Got((), [])
  {
    hide TagAt, IntAt, TagBytes, IntBytes, GetHeader, Payload;
    HeaderBack(i, more);
    DropTag([], [], Payload(i), more);
  }

  /** An item of two gigabytes, which no call gives back. */
  lemma TooLong(more: seq<byte>) returns (i: Item)
    ensures i.Raw? && Writable(i) && |i.data| == 0x8000_0000
    ensures var p := Encoded(i) + more;
      GetRaw(p) == Fail(i.data + more) && GetString(p, i.tag) == Fail(i.data + more) && GetConsumed(p) == Got((), [])
  {
    hide TagAt, IntAt, TagBytes, IntBytes, GetHeader;
    i := Raw(1, seq(0x8000_0000, _ => 0));
    RawBack(i.tag, i.data, more);
    ConsumedBack(i, more);
  }

  /** An item that every call but that for strings gives back. */
  lemma StringTooLong(more: seq<byte>) returns (i: Item)
    ensures i.Raw? && Writable(i) && |i.data| == 0x7fff_ffff
    ensures var p := Encoded(i) + more;
      && GetRaw(p) == Got((i.tag, i.data), more) && GetFixed(p, i.tag, |i.data|) == Got(i.data, more)
      && GetString(p, i.tag) == Fail(i.data + more)
  {
    hide TagAt, IntAt, TagBytes, IntBytes, GetHeader;
    i := Raw(1, seq(0x7fff_ffff, _ => 0));
    RawBack(i.tag, i.data, more);
  }

  lemma Int32Back(tag: u32, n: u32, more: seq<byte>)
    ensures Short(Int32(tag, n)) && GetInt(Encoded(Int32(tag, n)) + more, tag, 8) == Got(n, more)
  {
    hide TagAt, IntAt, TagBytes, IntBytes;
    HeaderBack(Int32(tag, n), more);
    Fits32(n);
    IntRoundTrip(n, more, 8);
    DropTag([], [], Int32Bytes(n), more);
  }

  lemma Int64Back(tag: u32, n: u64, more: seq<byte>)
    ensures Short(Int64(tag, n)) && GetInt(Encoded(Int64(tag, n)) + more, tag, 16) == Got(n, more)
  {
    hide TagAt, IntAt, TagBytes, IntBytes;
    HeaderBack(Int64(tag, n), more);
    Fits64(n);
    IntRoundTrip(n, more, 16);
    DropTag([], [], Int64Bytes(n), more);
  }

  lemma TimevalBack(tag: u32, sec: u32, usec: u32, more: seq<byte>)
    ensures Short(Timeval(tag, sec, usec)) && GetTimeval(Encoded(Timeval(tag, sec, usec)) + more, tag) == Got((sec, usec), more)
  {
    hide TagAt, IntAt, TagBytes, IntBytes;
    var a, b := Int32Bytes(sec), Int32Bytes(usec);
    HeaderBack(Timeval(tag, sec, usec), more);
    Fits32(sec);
    Fits32(usec);
    Assoc(a, b, more);
    IntRoundTrip(sec, b + more, 8);
    IntRoundTrip(usec, more, 8);
    DropTag([], a, b, more);
    DropTag([], [], a + b, more);
  }

  /** Under another tag nothing is returned: what stands behind the tag is left, or behind
      the header, or, of a time, behind the item. */
  lemma OtherTag(i: Item, need: u32, size: nat, maxNibbles: nat, more: seq<byte>)
    requires Writable(i) && i.tag != need
    ensures var p, d := Encoded(i) + more, Payload(i);
      && GetInt(p, need, maxNibbles) == Fail(Int32Bytes(|d|) + (d + more))
      && GetFixed(p, need, size) == Fail(d + more)
      && GetString(p, need) == Fail(d + more)
      && GetTimeval(p, need) == Fail(if Short(i) then more else if |d| == 0xffff_ffff then d + more else [])
  {
    hide TagAt, IntAt, TagBytes, IntBytes, Payload;
    HeaderBack(i, more);
    DropTag([], TagBytes(i.tag), Int32Bytes(|Payload(i)|), Payload(i) + more);
    DropTag(TagBytes(i.tag), Int32Bytes(|Payload(i)|), Payload(i), more);
    DropTag([], [], Payload(i), more);
  }

  /** Data of another length than the one asked for stays on the stream. */
  lemma OtherSize(tag: u32, data: seq<byte>, size: nat, more: seq<byte>)
    requires |data| <= INT_MAX && size != |data|
    ensures GetFixed(Encoded(Raw(tag, data)) + more, tag, size) == Fail(data + more)
  {
    hide TagAt, IntAt, TagBytes, IntBytes, GetHeader;
    HeaderBack(Raw(tag, data), more);
  }

  /** An integer of more than 32 bits is not read as one of 32, and is gone. */
  lemma TooWide(tag: u32, n: u64, more: seq<byte>)
    requires n >= 0x1_0000_0000
    ensures GetInt(Encoded(Int64(tag, n)) + more, tag, 8) == Fail(more)
  {
    hide TagAt, IntBytes, TagBytes, Nibbles, NibblesAt, Pack, Value;
    HeaderBack(Int64(tag, n), more);
    Widths();
    Fits64(n);
    NibblesFit(n, 8);
    IntOnWire(n);
    DropTag([], [], Int64Bytes(n), more);
    assert (Int64Bytes(n) + more)[0] == Int64Bytes(n)[0];
  }

  lemma {:induction false} ValueBound(ns: seq<nibble>)
    ensures Value(ns) < Pow16(|ns|)
  {
    if ns != [] {
      ValueBound(ns[1..]);
    }
  }

  lemma IntBound(p: seq<byte>)
    ensures IntAt(p, 8).Some? ==> IntAt(p, 8).value.0 < 0x1_0000_0000
  {
    Widths();
    if IntAt(p, 8).Some? {
      var nibbles := p[0] / 16 + 1;
      ValueBound(NibblesAt(p, 1, nibbles));
      PowGrows(nibbles, 8);
    }
  }

  lemma {:induction false} PowGrows(i: nat, j: nat)
    requires i <= j
    ensures Pow16(i) <= Pow16(j)
    decreases j
  {
    if i < j {
      PowGrows(i, j - 1);
    }
  }

  /** When an item is there, the length that a peek tells is what consuming takes,
      exactly if the length of the data fits an int, or the data is all there is and the
      whole fits 32 bits. */
  lemma PeekIsConsume(p: seq<byte>, n: nat, len: nat, m: nat)
    requires TagAt(p).Some? && TagAt(p).value.1 == n && IntAt(p[n..], 8) == Some((len, m)) && len <= |p[n + m..]|
    ensures PeekedLength(p) == Some(|p| - |GetConsumed(p).rest|) <==>
      len <= INT_MAX || (len + n + m < 0x1_0000_0000 && |p[n + m..]| == len)
  {
    hide TagAt, IntAt;
    IntBound(p[n..]);
    TagSize(p, n);
    assert p[n..][m..] == p[n + m..];
  }

  lemma TagSize(p: seq<byte>, n: nat)
    requires n <= |p|
    ensures TagAt(p).Some? ==> TagAt(p).value.1 <= TAG_BYTES
    ensures IntAt(p[n..], 8).Some? ==> IntAt(p[n..], 8).value.1 <= 5
  {
    GroupsSize(p, TAG_BYTES);
  }

  lemma {:induction false} GroupsSize(p: seq<byte>, limit: nat)
    ensures Groups(p, limit).Some? ==> Groups(p, limit).value.1 <= limit
    decreases limit
  {
    if p != [] && limit > 0 {
      GroupsSize(p[1..], limit - 1);
    }
  }

  class Stream {
    var bytes: seq<byte>

    constructor (bytes: seq<byte>)
      ensures this.bytes == bytes
    {
      this.bytes := bytes;
    }

    /** evtag_encode_int and evtag_encode_int64. */
    method AddInt(n: nat, width: nat)
      requires (width == 5 && n < 0x1_0000_0000) || (width == 9 && n < 0x1_0000_0000_0000_0000)
      modifies this
      ensures |Nibbles(n)| <= 16 && bytes == old(bytes) + IntBytes(n)
    {
      hide IntBytes, Nibbles;
      if width == 5 {
        Fits32(n);
      } else {
        Fits64(n);
      }
      var data := new byte[width];
      var len := EncodeInt(data, n);
      bytes := bytes + data[..len];
    }

    method AddTag(tag: u32)
      modifies this
      ensures bytes == old(bytes) + TagBytes(tag)
    {
      var data := EncodeTag(tag);
      bytes := bytes + data;
    }

    /** evtag_marshal, evtag_marshal_string, and, for the contents of another buffer,
        evtag_marshal_buffer. */
    method Marshal(tag: u32, data: seq<byte>)
      requires |data| < 0x1_0000_0000
      modifies this
      ensures bytes == old(bytes) + Encoded(Raw(tag, data))
      ensures |Nibbles(|data|)| <= 16 && bytes == old(bytes) + (TagBytes(tag) + (IntBytes(|data|) + data))
    {
      hide TagBytes, IntBytes;
      AddTag(tag);
      AddInt(|data|, 5);
      bytes := bytes + data;
      DropTag(TagBytes(tag), IntBytes(|data|), data, []);
    }

    /** evtag_marshal_int and evtag_marshal_int64. */
    method MarshalInt(tag: u32, n: nat, wide: bool)
      requires n < if wide then 0x1_0000_0000_0000_0000 else 0x1_0000_0000
      modifies this
      ensures Short(Int64(tag, n)) && bytes == old(bytes) + Encoded(Int64(tag, n))
      ensures !wide ==> Short(Int32(tag, n)) && Encoded(Int64(tag, n)) == Encoded(Int32(tag, n))
      ensures var d := Int64Bytes(n);
        d == IntBytes(n) && bytes == old(bytes) + (TagBytes(tag) + (Int32Bytes(|d|) + d))
    {
      hide TagBytes, IntBytes, Nibbles;
      Fits64(n);
      var data := new byte[if wide then 9 else 5];
      if !wide {
        Fits32(n);
      }
      var len := EncodeInt(data, n);
      Marshal(tag, data[..len]);
    }

    method MarshalTimeval(tag: u32, sec: u32, usec: u32)
      modifies this
      ensures Short(Timeval(tag, sec, usec)) && bytes == old(bytes) + Encoded(Timeval(tag, sec, usec))
      ensures var d := Int32Bytes(sec) + Int32Bytes(usec);
        bytes == old(bytes) + (TagBytes(tag) + (Int32Bytes(|d|) + d))
    {
      hide TagBytes, IntBytes, Nibbles;
      Fits32(sec);
      Fits32(usec);
      var first, second := new byte[5], new byte[5];
      var len := EncodeInt(first, sec);
      var more := EncodeInt(second, usec);
      Marshal(tag, first[..len] + second[..more]);
    }

    /** evtag_unmarshal_header: takes the tag and the length off the stream; where the
        length cannot be read the tag is gone all the same. */
    method UnmarshalHeader() returns (r: Option<(u32, int)>)
      modifies this
      ensures match GetHeader(old(bytes))
        case Got(v, rest) => r == Some(v) && bytes == rest
        case Fail(rest) => r == None && bytes == rest
    {
      hide TagAt, IntAt;
      var t := DecodeTag(bytes);
      if t.None? {
        return None;
      }
      bytes := bytes[t.value.1..];
      var n := DecodeInt(bytes, 0, 8);
      assert bytes[0..] == bytes;
      if n.None? {
        return None;
      }
      DropTwice(old(bytes), t.value.1, n.value.1);
      bytes := bytes[n.value.1..];
      if |bytes| < n.value.0 {
        return None;
      }
      var len := AsInt(n.value.0);
      return if len == -1 then None else Some((t.value.0, len));
    }

    /** evtag_consume */
    method Consume() returns (ok: bool)
      modifies this
      ensures ok == GetConsumed(old(bytes)).Got? && bytes == GetConsumed(old(bytes)).rest
    {
      hide GetHeader;
      var h := UnmarshalHeader();
      if h.None? {
        return false;
      }
      bytes := Drained(bytes, h.value.1);
      return true;
    }

    /** evtag_unmarshal */
    method Unmarshal() returns (r: Option<(u32, seq<byte>)>)
      modifies this
      ensures bytes == GetRaw(old(bytes)).rest
      ensures r == if GetRaw(old(bytes)).Got? then Some(GetRaw(old(bytes)).value) else None
    {
      hide GetHeader;
      var h := UnmarshalHeader();
      if h.None? {
        return None;
      }
      if h.value.1 < 0 {
        return None;
      }
      r := Some((h.value.0, bytes[..h.value.1]));
      bytes := bytes[h.value.1..];
    }

    /** evtag_unmarshal_int and evtag_unmarshal_int64. */
    method UnmarshalInt(need: u32, maxNibbles: nat) returns (r: Option<nat>)
      modifies this
      ensures bytes == GetInt(old(bytes), need, maxNibbles).rest
      ensures r == if GetInt(old(bytes), need, maxNibbles).Got? then Some(GetInt(old(bytes), need, maxNibbles).value) else None
    {
      hide TagAt, IntAt;
      var t := DecodeTag(bytes);
      if t.None? {
        return None;
      }
      bytes := bytes[t.value.1..];
      if t.value.0 != need {
        return None;
      }
      var n := DecodeInt(bytes, 0, 8);
      assert bytes[0..] == bytes;
      if n.None? {
        return None;
      }
      DropTwice(old(bytes), t.value.1, n.value.1);
      bytes := bytes[n.value.1..];
      var len := n.value.0;
      if |bytes| < len {
        return None;
      }
      var v := DecodeInt(bytes, 0, maxNibbles);
      assert bytes[0..] == bytes;
      bytes := bytes[len..];
      return if v.None? || v.value.1 > len then None else Some(v.value.0);
    }

    /** evtag_unmarshal_timeval */
    method UnmarshalTimeval(need: u32) returns (r: Option<(nat, nat)>)
      modifies this
      ensures bytes == GetTimeval(old(bytes), need).rest
      ensures r == if GetTimeval(old(bytes), need).Got? then Some(GetTimeval(old(bytes), need).value) else None
    {
      hide GetHeader, IntAt;
      var h := UnmarshalHeader();
      if h.None? {
        return None;
      }
      var q, len := bytes, h.value.1;
      r := None;
      if h.value.0 == need {
        var a := DecodeInt(q, 0, 8);
        assert q[0..] == q;
        if a.Some? {
          var b := DecodeInt(q, a.value.1, 8);
          if b.Some? && a.value.1 + b.value.1 <= len {
            r := Some((a.value.0, b.value.0));
          }
        }
      }
      bytes := Drained(q, len);
    }

    /** evtag_unmarshal_fixed: on a mismatch only the header is taken. */
    method UnmarshalFixed(need: u32, size: nat) returns (r: Option<seq<byte>>)
      modifies this
      ensures bytes == GetFixed(old(bytes), need, size).rest
      ensures r == if GetFixed(old(bytes), need, size).Got? then Some(GetFixed(old(bytes), need, size).value) else None
    {
      hide GetHeader;
      var h := UnmarshalHeader();
      if h.None? || h.value.0 != need || h.value.1 != size {
        return None;
      }
      r := Some(bytes[..size]);
      bytes := bytes[size..];
    }

    method UnmarshalString(need: u32) returns (r: Option<seq<byte>>)
      modifies this
      ensures bytes == GetString(old(bytes), need).rest
      ensures r == if GetString(old(bytes), need).Got? then Some(GetString(old(bytes), need).value) else None
    {
      hide GetHeader;
      var h := UnmarshalHeader();
      if h.None? || h.value.0 != need || AsInt(h.value.1 + 1) < 0 {
        return None;
      }
      r := Some(bytes[..h.value.1]);
      bytes := bytes[h.value.1..];
    }

    /** evtag_peek_length */
    method PeekLength() returns (r: Option<u32>)
      ensures r == PeekedLength(bytes)
    {
      var t := DecodeTag(bytes);
      if t.None? {
        return None;
      }
      var n := DecodeInt(bytes, t.value.1, 8);
      return if n.None? then None else Some((n.value.0 + n.value.1 + t.value.1) % 0x1_0000_0000);
    }

    method MarshalItem(i: Item)
      requires Writable(i)
      modifies this
      ensures bytes == old(bytes) + Encoded(i)
    {
      match i {
        case Raw(tag, data) => Marshal(tag, data);
        case Int32(tag, n) => MarshalInt(tag, n, false);
        case Int64(tag, n) => MarshalInt(tag, n, true);
        case Timeval(tag, sec, usec) => MarshalTimeval(tag, sec, usec);
      }
    }

    /** Reads an item of the kind, and with the tag, of `like`. */
    method UnmarshalItem(like: Item) returns (r: Option<Item>)
      modifies this
      ensures forall i: Item, more | Short(i) && SameKind(i, like) && old(bytes) == Encoded(i) + more :: r == Some(i) && bytes == more
    {
      hide GetRaw, GetInt, GetTimeval;
      ghost var was := bytes;
      match like {
        case Raw(tag, _) =>
          var v := Unmarshal();
          r := if v.Some? then Some(Raw(v.value.0, v.value.1)) else None;
        case Int32(tag, _) =>
          var v := UnmarshalInt(tag, 8);
          r := if v.Some? && v.value < 0x1_0000_0000 then Some(Int32(tag, v.value)) else None;
        case Int64(tag, _) =>
          var v := UnmarshalInt(tag, 16);
          r := if v.Some? && v.value < 0x1_0000_0000_0000_0000 then Some(Int64(tag, v.value)) else None;
        case Timeval(tag, _, _) =>
          var v := UnmarshalTimeval(tag);
          r := if v.Some? && v.value.0 < 0x1_0000_0000 && v.value.1 < 0x1_0000_0000 then Some(Timeval(tag, v.value.0, v.value.1)) else None;
      }
      forall i: Item, more | Short(i) && SameKind(i, like) && was == Encoded(i) + more
        ensures r == Some(i) && bytes == more
      {
        match i
        case Raw(tag, data) => RawBack(tag, data, more);
        case Int32(tag, n) => Int32Back(tag, n, more);
        case Int64(tag, n) => Int64Back(tag, n, more);
        case Timeval(tag, sec, usec) => TimevalBack(tag, sec, usec, more);
      }
    }
  }

  lemma DropTwice(p: seq<byte>, n: nat, m: nat)
    requires n + m <= |p|
    ensures p[n..][m..] == p[n + m..]
  {
  }

  predicate SameKind(i: Item, like: Item) {
    i.tag == like.tag
    && match i
       case Raw(_, _) => like.Raw?
       case Int32(_, _) => like.Int32?
       case Int64(_, _) => like.Int64?
       case Timeval(_, _, _) => like.Timeval?
  }

  predicate AllShort(items: seq<Item>) {
    forall k {:trigger items[k]} | 0 <= k < |items| :: Short(items[k])
  }

  function AllEncoded(items: seq<Item>): seq<byte>
    requires AllShort(items)
  {
    if items == [] then [] else Encoded(items[0]) + AllEncoded(items[1..])
  }

  lemma NoneEncoded(items: seq<Item>)
    requires AllShort(items)
    ensures AllEncoded(items[|items|..]) == [] && [] + AllEncoded(items[0..]) == AllEncoded(items)
  {
    assert items[0..] == items;
  }

  lemma EncodedFrom(items: seq<Item>, k: nat)
    requires AllShort(items) && k < |items|
    ensures Short(items[k]) && AllEncoded(items[k..]) == Encoded(items[k]) + AllEncoded(items[k + 1..])
  {
    assert items[k..][0] == items[k] && items[k..][1..] == items[k + 1..];
  }

  /** Any list of items is read back in order by the matching calls, and what follows
      them on the stream is left exactly. */
  method SendAndReceive(items: seq<Item>, before: seq<Item>, more: seq<byte>) returns (got: seq<Item>, s: Stream)
    requires AllShort(items) && |before| == |items| && forall k | 0 <= k < |items| :: SameKind(items[k], before[k])
    ensures got == items && s.bytes == more
  {
    hide Encoded, SameKind, Short, AllEncoded;
    s := new Stream([]);
    NoneEncoded(items);
    for k := 0 to |items|
      invariant s.bytes + AllEncoded(items[k..]) == AllEncoded(items)
      invariant fresh(s)
    {
      EncodedFrom(items, k);
      Assoc(s.bytes, Encoded(items[k]), AllEncoded(items[k + 1..]));
      s.MarshalItem(items[k]);
    }
    s.bytes := s.bytes + more;
    got := [];
    for k := 0 to |items|
      invariant got == items[..k] && s.bytes == AllEncoded(items[k..]) + more && fresh(s)
    {
      EncodedFrom(items, k);
      Assoc(Encoded(items[k]), AllEncoded(items[k + 1..]), more);
      assert SameKind(items[k], before[k]);
      var i := s.UnmarshalItem(before[k]);
      got := got + [i.value];
    }
  }
}
