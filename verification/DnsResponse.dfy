/** The reply that a DNS server sends: header, questions, and three sections of
    resource records, with names compressed across the whole packet. */
module DnsResponse {
  import opened Bytes
  import opened DnsNames
  import opened DnsCompress

  const BUF: nat := 1500
  const LIMIT: nat := 512

  /** A C string: no zero byte inside. */
  type Str = s: seq<byte> | 0 !in s
  type Blob = s: seq<byte> | |s| < 0x10000

  datatype Question = Question(name: Str, qtype: int, qclass: int)
  datatype RData = Name(text: Str) | Raw(bytes: Blob)
  datatype Item = Item(name: Str, rtype: u16, rclass: u16, ttl: u32, data: RData)
  datatype Request = Request(transId: u16, flags: bv16, questions: seq<Question>,
                             answer: seq<Item>, authority: seq<Item>, additional: seq<Item>)

  function BE32(x: u32): (d: seq<byte>)
    ensures |d| == 4
  {
    [x / 0x1000000, x / 0x10000 % 0x100, x / 0x100 % 0x100, x % 0x100]
  }

  /** A C integer cut to 16 bits. */
  function Cut(x: int): (d: seq<byte>)
    ensures |d| == 2
  {
    BE16(x % 0x10000)
  }

  /** What was written so far and the label table; or, once a piece does not fit, what
      was written before that piece; or the error code of a question that cannot be
      written. */
  datatype Draft =
    | Good(bytes: seq<byte>, entries: seq<Entry>)
    | Stuck(bytes: seq<byte>)
    | Rejected(code: int)

  function AddBytes(d: Draft, x: seq<byte>): Draft {
    if !d.Good? then d
    else if |d.bytes| + |x| > BUF then Stuck(d.bytes)
    else d.(bytes := d.bytes + x)
  }

  function AddName(d: Draft, name: seq<byte>): Draft {
    if !d.Good? then d
    else
      var e := EncodeName(BUF, |d.bytes|, name, d.entries);
      if e.Bytes? then Good(d.bytes + e.bytes, e.entries) else Stuck(d.bytes)
  }

  function AddQuestionName(d: Draft, name: seq<byte>): Draft {
    if !d.Good? then d
    else
      match EncodeName(BUF, |d.bytes|, name, d.entries)
      case Bytes(bytes, entries) => Good(d.bytes + bytes, entries)
      case LabelTooLong => Rejected(-1)
      case NoRoom => Rejected(-2)
  }

  /** A name behind its length, which is known only once the name is written. */
  function AddNameData(d: Draft, name: seq<byte>): Draft {
    if !d.Good? then d
    else
      var e := EncodeName(BUF, |d.bytes| + 2, name, d.entries);
      if e.Bytes? then Good(d.bytes + Cut(|e.bytes|) + e.bytes, e.entries) else Stuck(d.bytes)
  }

  function AddQuestion(d: Draft, q: Question): Draft {
    AddBytes(AddBytes(AddQuestionName(d, q.name), Cut(q.qtype)), Cut(q.qclass))
  }

  function AddQuestions(d: Draft, qs: seq<Question>): Draft
    decreases |qs|
  {
    if qs == [] then d else AddQuestions(AddQuestion(d, qs[0]), qs[1..])
  }

  function AddFixed(d: Draft, i: Item): Draft {
    AddBytes(AddBytes(AddBytes(AddName(d, i.name), BE16(i.rtype)), BE16(i.rclass)), BE32(i.ttl))
  }

  function AddItem(d: Draft, i: Item): Draft {
    match i.data
    case Name(text) => AddNameData(AddFixed(d, i), text)
    case Raw(bytes) => AddBytes(AddBytes(AddFixed(d, i), BE16(|bytes|)), bytes)
  }

  function AddItems(d: Draft, items: seq<Item>): Draft
    decreases |items|
  {
    if items == [] then d else AddItems(AddItem(d, items[0]), items[1..])
  }

  function Flags(req: Request, err: nat): u16
    requires err < 16
  {
    (req.flags | 0x8000 | (err as bv16)) as int
  }

  function Header(req: Request, err: nat): (h: seq<byte>)
    requires err < 16
    ensures |h| == 12
  {
    BE16(req.transId) + BE16(Flags(req, err)) + Cut(|req.questions|)
    + Cut(|req.answer|) + Cut(|req.authority|) + Cut(|req.additional|)
  }

  function Compose(req: Request, err: nat): Draft
    requires err < 16
  {
    AddItems(AddItems(AddItems(AddQuestions(Good(Header(req, err), []), req.questions),
                               req.answer), req.authority), req.additional)
  }

  /** Sets bit 1. */
  function Mark(b: byte): (r: byte)
    ensures r / 2 % 2 == 1 && r % 2 == b % 2 && r / 4 == b / 4
  {
    if b / 2 % 2 == 1 then b else b + 2
  }

  predicate Truncated(p: seq<byte>)
    requires |p| > 2
  {
    p[2] / 2 % 2 == 1
  }

  /** A packet with its truncated bit set. */
  function Marked(p: seq<byte>): seq<byte>
    requires |p| > 2
  {
    p[2 := Mark(p[2])]
  }

  // Layout

  ghost predicate Starts(p: seq<byte>, i: nat, x: seq<byte>) {
    i + |x| <= |p| && p[i..i + |x|] == x
  }

  ghost predicate NameAt(p: seq<byte>, i: nat, name: seq<byte>, end: nat) {
    DecodesTo(p, i, CanonLabels(name), end)
  }

  /** The 16 bits at index `i`, high byte first, are `x`. */
  predicate At16(p: seq<byte>, i: nat, x: int) {
    i + 2 <= |p| && p[i] as int * 0x100 + p[i + 1] as int == x
  }

  predicate At32(p: seq<byte>, i: nat, x: int) {
    && i + 4 <= |p|
    && p[i] as int * 0x1000000 + p[i + 1] as int * 0x10000 + p[i + 2] as int * 0x100 + p[i + 3] as int == x
  }

  /** A name up to `mid`, and its type and class. */
  ghost predicate QuestionAt(p: seq<byte>, i: nat, q: Question, mid: nat, end: nat) {
    NameAt(p, i, q.name, mid) && At16(p, mid, q.qtype % 0x10000) && At16(p, mid + 2, q.qclass % 0x10000) && end == mid + 4
  }

  /** A name up to `mid`, type, class, time to live, the length of the data, and the data. */
  ghost predicate ItemAt(p: seq<byte>, i: nat, item: Item, mid: nat, end: nat) {
    && NameAt(p, i, item.name, mid)
    && At16(p, mid, item.rtype) && At16(p, mid + 2, item.rclass) && At32(p, mid + 4, item.ttl)
    && mid + 10 <= end <= |p| && At16(p, mid + 8, end - (mid + 10))
    && match item.data
       case Name(text) => NameAt(p, mid + 10, text, end)
       case Raw(bytes) => p[mid + 10..end] == bytes
  }

  lemma Reads16(p: seq<byte>, i: nat, x: u16)
    requires Starts(p, i, BE16(x))
    ensures At16(p, i, x)
  {
    assert p[i..i + 2][0] == p[i] && p[i..i + 2][1] == p[i + 1];
  }

  lemma Reads32(p: seq<byte>, i: nat, x: u32)
    requires Starts(p, i, BE32(x))
    ensures At32(p, i, x)
  {
    var d := p[i..i + 4];
    assert d[0] == p[i] && d[1] == p[i + 1] && d[2] == p[i + 2] && d[3] == p[i + 3];
    Digits32(x);
  }

  lemma Digits32(x: u32)
    ensures x / 0x1000000 * 0x1000000 + x / 0x10000 % 0x100 * 0x10000 + x / 0x100 % 0x100 * 0x100 + x % 0x100 == x
  {
    var a := x / 0x100;
    var b := a / 0x100;
    assert b == x / 0x10000 && b / 0x100 == x / 0x1000000;
  }

  lemma StartsSplit(p: seq<byte>, i: nat, x: seq<byte>, y: seq<byte>)
    requires Starts(p, i, x + y)
    ensures Starts(p, i, x) && Starts(p, i + |x|, y)
  {
    assert p[i..i + |x|] == p[i..i + |x + y|][..|x|];
    assert p[i + |x|..i + |x + y|] == p[i..i + |x + y|][|x|..];
  }

  ghost predicate QuestionsAt(p: seq<byte>, i: nat, qs: seq<Question>, end: nat)
    decreases |qs|
  {
    if qs == [] then i == end
    else exists mid: nat, next: nat :: QuestionAt(p, i, qs[0], mid, next) && QuestionsAt(p, next, qs[1..], end)
  }

  ghost predicate ItemsAt(p: seq<byte>, i: nat, items: seq<Item>, end: nat)
    decreases |items|
  {
    if items == [] then i == end
    else exists mid: nat, next: nat :: ItemAt(p, i, items[0], mid, next) && ItemsAt(p, next, items[1..], end)
  }

  lemma NameAtExtend(p: seq<byte>, q: seq<byte>, i: nat, name: seq<byte>, end: nat)
    requires p <= q && NameAt(p, i, name, end)
    ensures NameAt(q, i, name, end)
  {
    hide Ends, Labels, After, StrictRead;
    var n: nat :| Agreed(p, i, n) && Labels(p, i, n) == CanonLabels(name) && After(p, i, n) == end;
    AgreedExtend(p, q, i, n);
  }

  lemma StartsExtend(p: seq<byte>, q: seq<byte>, i: nat, x: seq<byte>)
    requires p <= q && Starts(p, i, x)
    ensures Starts(q, i, x)
  {
  }

  lemma QuestionAtExtend(p: seq<byte>, q: seq<byte>, i: nat, x: Question, mid: nat, end: nat)
    requires p <= q && QuestionAt(p, i, x, mid, end)
    ensures QuestionAt(q, i, x, mid, end)
  {
    NameAtExtend(p, q, i, x.name, mid);
  }

  lemma ItemAtExtend(p: seq<byte>, q: seq<byte>, i: nat, x: Item, mid: nat, end: nat)
    requires p <= q && ItemAt(p, i, x, mid, end)
    ensures ItemAt(q, i, x, mid, end)
  {
    hide NameAt;
    NameAtExtend(p, q, i, x.name, mid);
    match x.data
    case Name(text) =>
      NameAtExtend(p, q, mid + 10, text, end);
    case Raw(bytes) =>
      assert q[mid + 10..end] == p[mid + 10..end];
  }

  lemma {:induction false} QuestionsAtExtend(p: seq<byte>, q: seq<byte>, i: nat, qs: seq<Question>, end: nat)
    requires p <= q && QuestionsAt(p, i, qs, end)
    ensures QuestionsAt(q, i, qs, end)
    decreases |qs|
  {
    hide QuestionAt;
    if qs != [] {
      var mid: nat, next: nat :| QuestionAt(p, i, qs[0], mid, next) && QuestionsAt(p, next, qs[1..], end);
      QuestionAtExtend(p, q, i, qs[0], mid, next);
      QuestionsAtExtend(p, q, next, qs[1..], end);
    }
  }

  lemma {:induction false} ItemsAtExtend(p: seq<byte>, q: seq<byte>, i: nat, items: seq<Item>, end: nat)
    requires p <= q && ItemsAt(p, i, items, end)
    ensures ItemsAt(q, i, items, end)
    decreases |items|
  {
    hide ItemAt;
    if items != [] {
      var mid: nat, next: nat :| ItemAt(p, i, items[0], mid, next) && ItemsAt(p, next, items[1..], end);
      ItemAtExtend(p, q, i, items[0], mid, next);
      ItemsAtExtend(p, q, next, items[1..], end);
    }
  }

  /** A draft in which every table entry is right. */
  ghost predicate Sound(d: Draft) {
    d.Good? ==> TableOk(d.bytes, d.entries)
  }

  /** `e` is good only if `d` is, and then continues it. */
  ghost predicate Continues(d: Draft, e: Draft) {
    e.Good? ==> d.Good? && d.bytes <= e.bytes && Sound(e)
  }

  lemma AddBytesLaid(d: Draft, x: seq<byte>)
    requires Sound(d)
    ensures var e := AddBytes(d, x);
      Continues(d, e) && (e.Good? ==> e.bytes == d.bytes + x && Starts(e.bytes, |d.bytes|, x))
  {
    var e := AddBytes(d, x);
    if e.Good? {
      TableExtend(d.bytes, e.bytes, d.entries);
    }
  }

  lemma AddNameLaid(d: Draft, name: seq<byte>)
    requires Sound(d)
    ensures var e := AddName(d, name);
      Continues(d, e) && (e.Good? && NoGap(name) ==> NameAt(e.bytes, |d.bytes|, name, |e.bytes|))
    ensures AddQuestionName(d, name).Good? ==> AddQuestionName(d, name) == AddName(d, name)
  {
    hide EncodeName;
    if d.Good? {
      NameIsWritten(d.bytes, BUF, name, d.entries);
    }
  }

  lemma AddNameDataLaid(d: Draft, name: seq<byte>)
    requires Sound(d)
    ensures var e := AddNameData(d, name);
      && Continues(d, e)
      && (e.Good? ==> |d.bytes| + 2 <= |e.bytes| < |d.bytes| + 300 && Starts(e.bytes, |d.bytes|, BE16(|e.bytes| - |d.bytes| - 2)))
      && (e.Good? && NoGap(name) ==> NameAt(e.bytes, |d.bytes| + 2, name, |e.bytes|))
  {
    hide EncodeName, TableOk, DecodesTo, Decodes, NoGap, CanonLabels, BE16, Encode;
    if d.Good? && AddNameData(d, name).Good? {
      var n := EncodeName(BUF, |d.bytes| + 2, name, d.entries);
      NameSize(BUF, |d.bytes| + 2, name, d.entries);
      var p0 := d.bytes + Cut(|n.bytes|);
      TableExtend(d.bytes, p0, d.entries);
      NameIsWritten(p0, BUF, name, d.entries);
      StartsExtend(p0, p0 + n.bytes, |d.bytes|, Cut(|n.bytes|));
    }
  }

  lemma NameSize(bufLen: nat, j: nat, name: seq<byte>, entries: seq<Entry>)
    ensures var e := EncodeName(bufLen, j, name, entries); e.Bytes? ==> |e.bytes| < 298
  {
    EncodeFits(bufLen, j, name, entries);
  }

  predicate Proper(i: Item) {
    NoGap(i.name) && (i.data.Name? ==> NoGap(i.data.text))
  }

  lemma StartsJoin(p: seq<byte>, i: nat, x: seq<byte>, y: seq<byte>)
    requires Starts(p, i, x) && Starts(p, i + |x|, y)
    ensures Starts(p, i, x + y)
  {
    assert p[i..i + |x + y|] == p[i..i + |x|] + p[i + |x|..i + |x| + |y|];
  }

  lemma AddTwoLaid(d: Draft, x: seq<byte>, y: seq<byte>)
    requires Sound(d)
    ensures var e := AddBytes(AddBytes(d, x), y);
      Continues(d, e) && (e.Good? ==> e.bytes == d.bytes + (x + y) && Starts(e.bytes, |d.bytes|, x + y))
  {
    hide TableOk;
    var e := AddBytes(d, x);
    AddBytesLaid(d, x);
    AddBytesLaid(e, y);
    if AddBytes(e, y).Good? {
      StartsExtend(e.bytes, AddBytes(e, y).bytes, |d.bytes|, x);
      StartsJoin(AddBytes(e, y).bytes, |d.bytes|, x, y);
      Assoc(d.bytes, x, y);
    }
  }

  lemma AddQuestionLaid(d: Draft, q: Question)
    requires Sound(d)
    ensures var e := AddQuestion(d, q);
      Continues(d, e) && (e.Good? && NoGap(q.name) ==> QuestionAt(e.bytes, |d.bytes|, q, |e.bytes| - 4, |e.bytes|))
    ensures AddQuestion(d, q).Good? ==> |AddQuestion(d, q).bytes| >= |d.bytes| + 4
  {
    hide TableOk, EncodeName, NoGap, AddName, AddQuestionName, AddBytes, DecodesTo, BE16, CanonLabels;
    var n := AddQuestionName(d, q.name);
    AddNameLaid(d, q.name);
    BadStays(n, Cut(q.qtype));
    BadStays(AddBytes(n, Cut(q.qtype)), Cut(q.qclass));
    if n.Good? {
      AddTwoLaid(n, Cut(q.qtype), Cut(q.qclass));
      var e := AddQuestion(d, q);
      if e.Good? && NoGap(q.name) {
        NameAtExtend(n.bytes, e.bytes, |d.bytes|, q.name, |n.bytes|);
        StartsSplit(e.bytes, |n.bytes|, Cut(q.qtype), Cut(q.qclass));
        Reads16(e.bytes, |n.bytes|, q.qtype % 0x10000);
        Reads16(e.bytes, |n.bytes| + 2, q.qclass % 0x10000);
      }
    }
  }

  lemma BadStays(d: Draft, x: seq<byte>)
    ensures !d.Good? ==> AddBytes(d, x) == d
  {
  }

  lemma AddFixedLaid(d: Draft, i: Item)
    requires Sound(d)
    ensures var e := AddFixed(d, i);
      && Continues(d, e)
      && (e.Good? ==> |e.bytes| >= |d.bytes| + 8 && Starts(e.bytes, |e.bytes| - 8, BE16(i.rtype) + BE16(i.rclass) + BE32(i.ttl)))
      && (e.Good? && NoGap(i.name) ==> NameAt(e.bytes, |d.bytes|, i.name, |e.bytes| - 8))
  {
    hide TableOk, EncodeName, NoGap, AddName, AddBytes, DecodesTo, BE16, BE32, CanonLabels;
    var n := AddName(d, i.name);
    AddNameLaid(d, i.name);
    var f := AddBytes(AddBytes(n, BE16(i.rtype)), BE16(i.rclass));
    var e := AddBytes(f, BE32(i.ttl));
    AddTwoLaid(n, BE16(i.rtype), BE16(i.rclass));
    AddBytesLaid(f, BE32(i.ttl));
    if e.Good? {
      StartsExtend(f.bytes, e.bytes, |n.bytes|, BE16(i.rtype) + BE16(i.rclass));
      StartsJoin(e.bytes, |n.bytes|, BE16(i.rtype) + BE16(i.rclass), BE32(i.ttl));
      if NoGap(i.name) {
        NameAtExtend(n.bytes, e.bytes, |d.bytes|, i.name, |n.bytes|);
      }
    }
  }

  lemma FixedReads(p: seq<byte>, q: seq<byte>, mid: nat, i: Item)
    requires p <= q && Starts(p, mid, BE16(i.rtype) + BE16(i.rclass) + BE32(i.ttl))
    ensures At16(q, mid, i.rtype) && At16(q, mid + 2, i.rclass) && At32(q, mid + 4, i.ttl)
  {
    hide BE16, BE32, Starts, At16, At32;
    StartsExtend(p, q, mid, BE16(i.rtype) + BE16(i.rclass) + BE32(i.ttl));
    StartsSplit(q, mid, BE16(i.rtype) + BE16(i.rclass), BE32(i.ttl));
    StartsSplit(q, mid, BE16(i.rtype), BE16(i.rclass));
    Reads16(q, mid, i.rtype);
    Reads16(q, mid + 2, i.rclass);
    Reads32(q, mid + 4, i.ttl);
  }

  lemma AddItemLaid(d: Draft, i: Item)
    requires Sound(d)
    ensures var e := AddItem(d, i);
      Continues(d, e) && (e.Good? ==> |e.bytes| >= |d.bytes| + 10)
    ensures var f, e := AddFixed(d, i), AddItem(d, i);
      e.Good? && Proper(i) ==> f.Good? && |f.bytes| >= 8 && ItemAt(e.bytes, |d.bytes|, i, |f.bytes| - 8, |e.bytes|)
  {
    hide TableOk, EncodeName, NoGap, AddFixed, AddNameData, AddBytes, DecodesTo, BE16, BE32, CanonLabels;
    var f := AddFixed(d, i);
    var e := AddItem(d, i);
    AddFixedLaid(d, i);
    match i.data {
      case Name(text) =>
        AddNameDataLaid(f, text);
      case Raw(bytes) =>
        AddTwoLaid(f, BE16(|bytes|), bytes);
    }
    if e.Good? && Proper(i) {
      FixedReads(f.bytes, e.bytes, |f.bytes| - 8, i);
      NameAtExtend(f.bytes, e.bytes, |d.bytes|, i.name, |f.bytes| - 8);
      match i.data {
        case Name(text) =>
          Reads16(e.bytes, |f.bytes|, |e.bytes| - |f.bytes| - 2);
        case Raw(bytes) =>
          StartsSplit(e.bytes, |f.bytes|, BE16(|bytes|), bytes);
          Reads16(e.bytes, |f.bytes|, |bytes|);
      }
    }
  }

  lemma {:induction false} AddQuestionsLaid(d: Draft, qs: seq<Question>)
    requires Sound(d)
    ensures var e := AddQuestions(d, qs);
      && Continues(d, e)
      && (e.Good? ==> |e.bytes| >= |d.bytes| + |qs|)
      && (e.Good? && (forall q | q in qs :: NoGap(q.name)) ==> QuestionsAt(e.bytes, |d.bytes|, qs, |e.bytes|))
    decreases |qs|
  {
    hide TableOk, QuestionAt, AddQuestion, NoGap;
    if qs != [] {
      var f, e := AddQuestion(d, qs[0]), AddQuestions(d, qs);
      AddQuestionLaid(d, qs[0]);
      AddQuestionsLaid(f, qs[1..]);
      if e.Good? && forall q | q in qs :: NoGap(q.name) {
        assert qs[0] in qs;
        QuestionAtExtend(f.bytes, e.bytes, |d.bytes|, qs[0], |f.bytes| - 4, |f.bytes|);
      }
    }
  }

  lemma {:induction false} AddItemsLaid(d: Draft, items: seq<Item>)
    requires Sound(d)
    ensures var e := AddItems(d, items);
      && Continues(d, e)
      && (e.Good? ==> |e.bytes| >= |d.bytes| + |items|)
      && (e.Good? && (forall i | i in items :: Proper(i)) ==> ItemsAt(e.bytes, |d.bytes|, items, |e.bytes|))
    decreases |items|
  {
    hide TableOk, ItemAt, AddItem, Proper;
    if items != [] {
      var f, e := AddItem(d, items[0]), AddItems(d, items);
      AddItemLaid(d, items[0]);
      AddItemsLaid(f, items[1..]);
      if e.Good? && forall i | i in items :: Proper(i) {
        assert items[0] in items;
        ItemAtExtend(f.bytes, e.bytes, |d.bytes|, items[0], |AddFixed(d, items[0]).bytes| - 8, |f.bytes|);
      }
    }
  }

  predicate AllProper(req: Request) {
    && (forall q | q in req.questions :: NoGap(q.name))
    && (forall i | i in req.answer :: Proper(i))
    && (forall i | i in req.authority :: Proper(i))
    && (forall i | i in req.additional :: Proper(i))
  }

  /** The twelve bytes at the start: transaction id, flags and the four counts. */
  ghost predicate HeaderAt(p: seq<byte>, req: Request, err: nat)
    requires err < 16
  {
    && At16(p, 0, req.transId)
    && At16(p, 2, (req.flags | 0x8000 | (err as bv16)) as int)
    && At16(p, 4, |req.questions| % 0x10000) && At16(p, 6, |req.answer| % 0x10000)
    && At16(p, 8, |req.authority| % 0x10000) && At16(p, 10, |req.additional| % 0x10000)
  }

  lemma HeaderReads(p: seq<byte>, req: Request, err: nat)
    requires err < 16 && Header(req, err) <= p
    ensures HeaderAt(p, req, err)
  {
    hide At16;
    HeaderParts(p, req, err);
    FlagsIs(req, err);
  }

  lemma HeaderParts(p: seq<byte>, req: Request, err: nat)
    requires err < 16 && Header(req, err) <= p
    ensures At16(p, 0, req.transId) && At16(p, 2, Flags(req, err))
    ensures At16(p, 4, |req.questions| % 0x10000) && At16(p, 6, |req.answer| % 0x10000)
    ensures At16(p, 8, |req.authority| % 0x10000) && At16(p, 10, |req.additional| % 0x10000)
  {
    hide BE16, At16, Flags;
    assert Starts(p, 0, Header(req, err));
    var id, flags := BE16(req.transId), BE16(Flags(req, err));
    var q, a, u, d := Cut(|req.questions|), Cut(|req.answer|), Cut(|req.authority|), Cut(|req.additional|);
    StartsSplit(p, 0, id + flags + q + a + u, d);
    StartsSplit(p, 0, id + flags + q + a, u);
    StartsSplit(p, 0, id + flags + q, a);
    StartsSplit(p, 0, id + flags, q);
    StartsSplit(p, 0, id, flags);
    Reads16(p, 0, req.transId);
    Reads16(p, 2, Flags(req, err));
    Reads16(p, 4, |req.questions| % 0x10000);
    Reads16(p, 6, |req.answer| % 0x10000);
    Reads16(p, 8, |req.authority| % 0x10000);
    Reads16(p, 10, |req.additional| % 0x10000);
  }

  lemma FlagsIs(req: Request, err: nat)
    requires err < 16
    ensures Flags(req, err) == (req.flags | 0x8000 | (err as bv16)) as int
  {
  }

  /** The packet `p` is the reply, each part behind the one before. */
  ghost predicate LaidOut(p: seq<byte>, req: Request, err: nat)
    requires err < 16
  {
    && HeaderAt(p, req, err)
    && |req.questions| < 0x10000 && |req.answer| < 0x10000 && |req.authority| < 0x10000 && |req.additional| < 0x10000
    && exists a: nat, b: nat, c: nat ::
         && QuestionsAt(p, 12, req.questions, a) && ItemsAt(p, a, req.answer, b)
         && ItemsAt(p, b, req.authority, c) && ItemsAt(p, c, req.additional, |p|)
  }

  lemma ComposeLaid(req: Request, err: nat)
    requires err < 16
    ensures var d := Compose(req, err);
      && Sound(d)
      && (d.Good? ==> Header(req, err) <= d.bytes)
      && (d.Good? && AllProper(req) && |d.bytes| < 0x10000 ==> LaidOut(d.bytes, req, err))
  {
    hide TableOk, AddItems, AddQuestions, Proper, QuestionsAt, ItemsAt, NoGap, Header, HeaderAt;
    var d0 := Good(Header(req, err), []);
    var d1 := AddQuestions(d0, req.questions);
    var d2 := AddItems(d1, req.answer);
    var d3 := AddItems(d2, req.authority);
    var d := AddItems(d3, req.additional);
    EmptyTable(Header(req, err));
    AddQuestionsLaid(d0, req.questions);
    AddItemsLaid(d1, req.answer);
    AddItemsLaid(d2, req.authority);
    AddItemsLaid(d3, req.additional);
    if d.Good? && AllProper(req) {
      QuestionsAtExtend(d1.bytes, d.bytes, 12, req.questions, |d1.bytes|);
      ItemsAtExtend(d2.bytes, d.bytes, |d1.bytes|, req.answer, |d2.bytes|);
      ItemsAtExtend(d3.bytes, d.bytes, |d2.bytes|, req.authority, |d3.bytes|);
      HeaderReads(d.bytes, req, err);
    }
  }

  // The imperative form

  datatype Outcome = Ok(j: nat) | Overflow | Reject(code: int) {
    predicate IsFailure() {
      !Ok?
    }

    function PropagateFailure(): Outcome
      requires IsFailure()
    {
      this
    }

    function Extract(): nat
      requires !IsFailure()
    {
      j
    }
  }

  /** A buffer and the outcome of writing to it, as a draft. */
  ghost predicate Mirrors(b: seq<byte>, o: Outcome, entries: seq<Entry>, d: Draft) {
    match o
    case Ok(j) => j <= |b| && d == Good(b[..j], entries)
    case Overflow => d.Stuck? && d.bytes <= b
    case Reject(code) => d == Rejected(code)
  }

  method WriteBytes(buf: array<byte>, j: nat, x: seq<byte>, table: LabelTable) returns (o: Outcome)
    requires buf.Length == BUF + 2 && j <= buf.Length
    modifies buf
    ensures Mirrors(buf[..], o, table.entries, AddBytes(Good(old(buf[..j]), table.entries), x))
    ensures o.Ok? ==> o.j <= BUF
  {
    if j + |x| > BUF {
      return Outcome.Overflow;
    }
    Put(buf, j, x);
    return Ok(j + |x|);
  }

  method WriteName(buf: array<byte>, j: nat, name: Str, table: LabelTable) returns (o: Outcome)
    requires buf.Length == BUF + 2 && j <= BUF + 1
    modifies buf, table
    ensures Mirrors(buf[..], o, table.entries, AddName(old(Good(buf[..j], table.entries)), name))
    ensures o.Ok? ==> o.j <= BUF + 1
  {
    hide EncodeName;
    var r := DnsnameToLabels(buf, BUF, j, name, table);
    assert buf[..][..j] == buf[..j];
    return if r.End? then Ok(r.j) else Outcome.Overflow;
  }

  method WriteQuestionName(buf: array<byte>, j: nat, name: Str, table: LabelTable) returns (o: Outcome)
    requires buf.Length == BUF + 2 && j <= BUF
    modifies buf, table
    ensures Mirrors(buf[..], o, table.entries, AddQuestionName(old(Good(buf[..j], table.entries)), name))
    ensures o.Ok? ==> o.j <= BUF + 1
  {
    hide EncodeName;
    var r := DnsnameToLabels(buf, BUF, j, name, table);
    return match r case End(k) => Ok(k) case TooLong => Reject(-1) case Overflow => Reject(-2);
  }

  /** Leaves two bytes for the length and fills them in afterwards. */
  method WriteNameData(buf: array<byte>, j: nat, name: Str, table: LabelTable) returns (o: Outcome)
    requires buf.Length == BUF + 2 && j <= BUF
    modifies buf, table
    ensures Mirrors(buf[..], o, table.entries, AddNameData(old(Good(buf[..j], table.entries)), name))
    ensures o.Ok? ==> o.j <= BUF + 1
  {
    hide EncodeName, BE16, Cut;
    ghost var e := EncodeName(BUF, j + 2, name, table.entries);
    var r := DnsnameToLabels(buf, BUF, j + 2, name, table);
    assert buf[..j] == buf[..j + 2][..j];
    if !r.End? {
      return Outcome.Overflow;
    }
    assert buf[j + 2..r.j] == buf[..r.j][j + 2..] == e.bytes;
    PutLength(buf, j, r.j);
    return Ok(r.j);
  }

  /** Fills in the two bytes at `j` for what was written behind them up to `end`. */
  method PutLength(buf: array<byte>, j: nat, end: nat)
    requires j + 2 <= end <= buf.Length
    modifies buf
    ensures buf[..end] == old(buf[..j]) + Cut(end - (j + 2)) + old(buf[j + 2..end])
  {
    var d := Cut(end - (j + 2));
    buf[j] := d[0];
    buf[j + 1] := d[1];
  }

  method WriteQuestion(buf: array<byte>, j0: nat, q: Question, table: LabelTable) returns (o: Outcome)
    requires buf.Length == BUF + 2 && j0 <= BUF
    modifies buf, table
    ensures Mirrors(buf[..], o, table.entries, AddQuestion(old(Good(buf[..j0], table.entries)), q))
    ensures o.Ok? ==> o.j <= BUF
  {
    hide AddQuestionName;
    var j :- WriteQuestionName(buf, j0, q.name, table);
    j :- WriteBytes(buf, j, Cut(q.qtype), table);
    o := WriteBytes(buf, j, Cut(q.qclass), table);
  }

  method WriteItem(buf: array<byte>, j0: nat, item: Item, table: LabelTable) returns (o: Outcome)
    requires buf.Length == BUF + 2 && j0 <= BUF + 1
    modifies buf, table
    ensures Mirrors(buf[..], o, table.entries, AddItem(old(Good(buf[..j0], table.entries)), item))
    ensures o.Ok? ==> o.j <= BUF + 1
  {
    hide AddName, EncodeName;
    ghost var d := Good(buf[..j0], table.entries);
    var j :- WriteName(buf, j0, item.name, table);
    j :- WriteBytes(buf, j, BE16(item.rtype), table);
    j :- WriteBytes(buf, j, BE16(item.rclass), table);
    j :- WriteBytes(buf, j, BE32(item.ttl), table);
    assert AddFixed(d, item) == Good(buf[..j], table.entries);
    match item.data {
      case Name(text) =>
        o := WriteNameData(buf, j, text, table);
      case Raw(bytes) =>
        j :- WriteBytes(buf, j, BE16(|bytes|), table);
        o := WriteBytes(buf, j, bytes, table);
    }
  }

  lemma {:induction false} StuckItems(d: Draft, items: seq<Item>)
    ensures !d.Good? ==> AddItems(d, items) == d
    decreases |items|
  {
    if items != [] {
      StuckItems(d, items[1..]);
    }
  }

  lemma {:induction false} StuckQuestions(d: Draft, qs: seq<Question>)
    ensures !d.Good? ==> AddQuestions(d, qs) == d
    decreases |qs|
  {
    if qs != [] {
      StuckQuestions(d, qs[1..]);
    }
  }

  method WriteQuestions(buf: array<byte>, j0: nat, qs: seq<Question>, table: LabelTable) returns (o: Outcome)
    requires buf.Length == BUF + 2 && j0 <= BUF
    modifies buf, table
    ensures Mirrors(buf[..], o, table.entries, AddQuestions(old(Good(buf[..j0], table.entries)), qs))
    ensures o.Ok? ==> o.j <= BUF
  {
    hide AddQuestion;
    ghost var d := AddQuestions(Good(buf[..j0], table.entries), qs);
    var j: nat := j0;
    for i := 0 to |qs|
      invariant j <= BUF && d == AddQuestions(Good(buf[..j], table.entries), qs[i..])
    {
      assert qs[i..][0] == qs[i] && qs[i..][1..] == qs[i + 1..];
      StuckQuestions(AddQuestion(Good(buf[..j], table.entries), qs[i]), qs[i + 1..]);
      j :- WriteQuestion(buf, j, qs[i], table);
    }
    return Ok(j);
  }

  method WriteItems(buf: array<byte>, j0: nat, items: seq<Item>, table: LabelTable) returns (o: Outcome)
    requires buf.Length == BUF + 2 && j0 <= BUF + 1
    modifies buf, table
    ensures Mirrors(buf[..], o, table.entries, AddItems(old(Good(buf[..j0], table.entries)), items))
    ensures o.Ok? ==> o.j <= BUF + 1
  {
    hide AddItem;
    ghost var d := AddItems(Good(buf[..j0], table.entries), items);
    var j: nat := j0;
    for i := 0 to |items|
      invariant j <= BUF + 1 && d == AddItems(Good(buf[..j], table.entries), items[i..])
    {
      assert items[i..][0] == items[i] && items[i..][1..] == items[i + 1..];
      StuckItems(AddItem(Good(buf[..j], table.entries), items[i]), items[i + 1..]);
      j :- WriteItem(buf, j, items[i], table);
    }
    return Ok(j);
  }

  /** Nothing written is taken back. */
  ghost predicate Keeps(d: Draft, e: Draft) {
    !e.Rejected? ==> !d.Rejected? && d.bytes <= e.bytes
  }

  lemma ItemKeeps(d: Draft, i: Item)
    ensures Keeps(d, AddItem(d, i))
  {
    hide EncodeName;
    var f := AddFixed(d, i);
    assert Keeps(d, f);
    assert Keeps(f, AddItem(d, i));
  }

  lemma {:induction false} ItemsKeep(d: Draft, items: seq<Item>)
    ensures Keeps(d, AddItems(d, items))
    decreases |items|
  {
    hide AddItem;
    if items != [] {
      ItemKeeps(d, items[0]);
      ItemsKeep(AddItem(d, items[0]), items[1..]);
    }
  }

  lemma {:induction false} QuestionsKeep(d: Draft, qs: seq<Question>)
    ensures Keeps(d, AddQuestions(d, qs))
    decreases |qs|
  {
    hide EncodeName;
    if qs != [] {
      assert Keeps(d, AddQuestion(d, qs[0]));
      QuestionsKeep(AddQuestion(d, qs[0]), qs[1..]);
    }
  }

  lemma ComposeKeepsHeader(req: Request, err: nat)
    requires err < 16
    ensures !Compose(req, err).Rejected? ==> Header(req, err) <= Compose(req, err).bytes
  {
    hide AddItems, AddQuestions, Header;
    var d := AddQuestions(Good(Header(req, err), []), req.questions);
    var e := AddItems(d, req.answer);
    QuestionsKeep(Good(Header(req, err), []), req.questions);
    ItemsKeep(d, req.answer);
    ItemsKeep(e, req.authority);
    ItemsKeep(AddItems(e, req.authority), req.additional);
  }

  method WriteAll(buf: array<byte>, req: Request, err: nat) returns (o: Outcome)
    requires buf.Length == BUF + 2 && err < 16
    modifies buf
    ensures exists entries :: Mirrors(buf[..], o, entries, Compose(req, err))
    ensures o.Ok? ==> 12 <= o.j
  {
    hide AddItems, AddQuestions, Header;
    var table := new LabelTable();
    var h := Header(req, err);
    Put(buf, 0, h);
    ComposeKeepsHeader(req, err);
    assert buf[..12] == h;
    ghost var d := AddQuestions(Good(h, []), req.questions);
    StuckItems(d, req.answer);
    StuckItems(AddItems(d, req.answer), req.authority);
    StuckItems(AddItems(AddItems(d, req.answer), req.authority), req.additional);
    var j :- WriteQuestions(buf, 12, req.questions, table);
    j :- WriteItems(buf, j, req.answer, table);
    j :- WriteItems(buf, j, req.authority, table);
    o := WriteItems(buf, j, req.additional, table);
    assert Mirrors(buf[..], o, table.entries, Compose(req, err));
  }

  /** What evdns_server_request_format_response returns, or the reply it leaves. */
  datatype Response = Failed(code: int) | Sent(bytes: seq<byte>)

  ghost predicate IsResponse(req: Request, err: int, r: Response) {
    if !(0 <= err < 16) then r == Failed(-1)
    else
      match Compose(req, err)
      case Rejected(code) => r == Failed(code)
      case Good(p, _) => if |p| <= LIMIT then r == Sent(p) else CutShort(p, r)
      case Stuck(p) => CutShort(p, r)
  }

  /** 512 bytes that start like `p`, with the truncated bit set. */
  ghost predicate CutShort(p: seq<byte>, r: Response) {
    && |p| > 2 && r.Sent? && |r.bytes| == LIMIT
    && if |p| <= LIMIT then Marked(p) <= r.bytes else r.bytes <= Marked(p)
  }

  lemma QuestionFails(d: Draft, q: Question, code: int)
    requires AddQuestion(d, q) == Rejected(code) && !d.Rejected?
    ensures (code == -1 && !LabelsShort(q.name)) || code == -2
  {
    if d.Good? {
      EncodeFits(BUF, |d.bytes|, q.name, d.entries);
    }
  }

  lemma {:induction false} QuestionsFail(d: Draft, qs: seq<Question>, code: int)
    requires AddQuestions(d, qs) == Rejected(code) && !d.Rejected?
    ensures (code == -1 && exists q: Question :: q in qs && !LabelsShort(q.name)) || code == -2
    decreases |qs|
  {
    hide AddQuestion, LabelsShort;
    if qs != [] {
      var e := AddQuestion(d, qs[0]);
      StuckQuestions(e, qs[1..]);
      if e.Rejected? {
        QuestionFails(d, qs[0], code);
        assert qs[0] in qs;
      } else {
        QuestionsFail(e, qs[1..], code);
      }
    }
  }

  lemma ItemNotRejected(d: Draft, i: Item)
    ensures AddItem(d, i).Rejected? ==> AddItem(d, i) == d
  {
    hide EncodeName;
  }

  lemma {:induction false} ItemsNotRejected(d: Draft, items: seq<Item>)
    ensures AddItems(d, items).Rejected? ==> AddItems(d, items) == d
    decreases |items|
  {
    hide AddItem;
    if items != [] {
      ItemNotRejected(d, items[0]);
      ItemsNotRejected(AddItem(d, items[0]), items[1..]);
    }
  }

  /** The only errors: -1 for a label that is too long, and -2 for a question that does
      not fit; a record never makes one. */
  lemma ComposeFails(req: Request, err: nat, code: int)
    requires err < 16 && Compose(req, err) == Rejected(code)
    ensures (code == -1 && exists q: Question :: q in req.questions && !LabelsShort(q.name)) || code == -2
  {
    hide AddItems, AddQuestions, Header, LabelsShort;
    var d := AddQuestions(Good(Header(req, err), []), req.questions);
    var e := AddItems(d, req.answer);
    ItemsNotRejected(d, req.answer);
    ItemsNotRejected(e, req.authority);
    ItemsNotRejected(AddItems(e, req.authority), req.additional);
    QuestionsFail(Good(Header(req, err), []), req.questions, code);
  }

  // The flags as numbers

  lemma LowSum(x: bv16)
    ensures x as int == (x & 0xfff0) as int + (x & 15) as int
  {
  }

  lemma HighMul(x: bv16)
    requires x & 15 == 0
    ensures x as int == 16 * ((x >> 4) as int)
  {
  }

  lemma LowSmall(x: bv16, e: nat)
    requires e < 16
    ensures (x & 15) as int < 16 && (e as bv16) as int == e && e as bv16 < 16
  {
    assert x & 15 < 16;
  }

  lemma OrLow(x: bv16, e: bv16)
    requires x & 15 == 0 && e < 16
    ensures (x | 0x8000 | e) & 15 == e
  {
  }

  lemma Rem16(n: int, k: int, l: int)
    requires n == 16 * k + l && 0 <= l < 16
    ensures n % 16 == l
  {
  }

  lemma LowMod(x: bv16)
    ensures x as int % 16 == (x & 15) as int
  {
    LowSmall(x, 0);
    LowSum(x);
    HighMul(x & 0xfff0);
    Rem16(x as int, ((x & 0xfff0) >> 4) as int, (x & 15) as int);
  }

  /** The response bit is set, and the code is in the lowest four bits. */
  lemma FlagBits(x: bv16, e: nat)
    requires e < 16
    ensures var f := (x | 0x8000 | (e as bv16)) as int;
      0x8000 <= f < 0x10000 && (x & 15 == 0 ==> f % 16 == e)
  {
    var y := x | 0x8000 | (e as bv16);
    assert y >= 0x8000;
    if x & 15 == 0 {
      LowSmall(y, e);
      OrLow(x, e as bv16);
      LowMod(y);
    }
  }

  lemma FlagBytes(a: byte, b: byte, f: int)
    requires a as int * 0x100 + b as int == f >= 0x8000
    ensures a / 128 == 1 && b as int % 16 == f % 16
  {
    Rem16(f, a as int * 16 + b as int / 16, b as int % 16);
  }

  /** What the header says. */
  ghost predicate HeaderSays(p: seq<byte>, req: Request, err: nat)
    requires |p| >= 12
  {
    && p[0] as int * 256 + p[1] as int == req.transId
    && p[2] / 128 == 1 && (req.flags & 15 == 0 ==> p[3] as int % 16 == err)
    && p[4] as int * 256 + p[5] as int == |req.questions| % 0x10000
    && p[6] as int * 256 + p[7] as int == |req.answer| % 0x10000
    && p[8] as int * 256 + p[9] as int == |req.authority| % 0x10000
    && p[10] as int * 256 + p[11] as int == |req.additional| % 0x10000
  }

  lemma HeaderMeans(p: seq<byte>, req: Request, err: nat)
    requires err < 16 && Header(req, err) <= p && |p| >= 12
    ensures HeaderSays(p, req, err)
  {
    hide Header, Flags;
    HeaderParts(p, req, err);
    FlagsMean(req, err);
    FlagBytes(p[2], p[3], Flags(req, err));
  }

  lemma FlagsMean(req: Request, err: nat)
    requires err < 16
    ensures Flags(req, err) >= 0x8000 && (req.flags & 15 == 0 ==> Flags(req, err) % 16 == err)
  {
    FlagBits(req.flags, err);
  }

  lemma MarkedMeans(p: seq<byte>, r: seq<byte>, req: Request, err: nat)
    requires |p| >= 12 && |r| >= 12 && r[..12] == Marked(p)[..12] && HeaderSays(p, req, err)
    ensures HeaderSays(r, req, err)
  {
    hide Mark;
    forall i | 0 <= i < 12
      ensures r[i] == Marked(p)[i]
    {
      assert r[..12][i] == Marked(p)[..12][i];
    }
  }

  /** evdns_server_request_format_response: the code of an error, the reply, or as much of
      it as fits into 512 bytes. What a client reads from the header is true either way. */
  method FormatResponse(buf: array<byte>, req: Request, err: int) returns (r: Response)
    requires buf.Length == BUF + 2
    modifies buf
    ensures IsResponse(req, err, r)
    ensures err < 0 || err > 15 ==> r == Failed(-1)
    ensures r.Failed? && 0 <= err <= 15 ==>
      (r.code == -1 && exists q: Question :: q in req.questions && !LabelsShort(q.name)) || r.code == -2
    ensures r.Sent? ==> 12 <= |r.bytes| <= 512
    ensures r.Sent? ==> HeaderSays(r.bytes, req, err)
    ensures r.Sent? && AllProper(req) && r.bytes[2] / 2 % 2 == 0 ==> LaidOut(r.bytes, req, err)
    ensures r.Sent? && |r.bytes| < 512 ==> Compose(req, err).Good? && r.bytes == Compose(req, err).bytes
  {
    if !(0 <= err < 16) {
      return Failed(-1);
    }
    hide Compose, LaidOut, Header, HeaderSays;
    var o := WriteAll(buf, req, err);
    ComposeKeepsHeader(req, err);
    ghost var whole := Compose(req, err);
    ComposeLaid(req, err);
    if whole.Rejected? {
      ComposeFails(req, err, whole.code);
    } else {
      HeaderMeans(whole.bytes, req, err);
    }
    var j := LIMIT;
    match o {
      case Reject(code) =>
        return Failed(code);
      case Ok(end) =>
        if end <= LIMIT {
          return Sent(buf[..end]);
        }
      case Overflow =>
    }
    ghost var p := buf[..];
    buf[2] := Mark(buf[2]);
    r := Sent(buf[..LIMIT]);
    assert buf[..] == Marked(p);
    CutShortIs(p, whole.bytes, r);
    assert r.bytes[..12] == Marked(p)[..12] == Marked(whole.bytes)[..12];
    MarkedMeans(whole.bytes, r.bytes, req, err);
  }

  lemma CutShortIs(b: seq<byte>, p: seq<byte>, r: Response)
    requires 2 < |p| && |b| >= LIMIT && p <= b && r == Sent(Marked(b)[..LIMIT])
    ensures CutShort(p, r)
  {
    hide Mark;
  }

  /** A reply whose truncated bit is clear holds everything that was asked of it,
      names and records in order, whatever was compressed. */
  lemma WholeReply(req: Request, err: nat, r: Response)
    requires err < 16 && IsResponse(req, err, r) && AllProper(req)
    requires r.Sent? && |r.bytes| > 2 && !Truncated(r.bytes)
    ensures LaidOut(r.bytes, req, err) && |r.bytes| <= LIMIT
  {
    hide Compose, LaidOut, Mark;
    var d := Compose(req, err);
    ComposeLaid(req, err);
  }

  /** A name of the reply reads back as the name that was given, and its end is found. */
  lemma NameReadsBack(p: seq<byte>, i: nat, name: seq<byte>, end: nat, outLen: nat, r: Option<Parsed>)
    requires NameAt(p, i, name, end) && Answer(p, i, outLen, r) && outLen > |name|
    requires NoEmptyLabel(name) || name == []
    ensures r == Some(Parsed(name, end))
    ensures exists n: nat {:trigger StrictRead(p, i, n)} :: StrictRead(p, i, n) == Some((CanonLabels(name), end))
  {
    hide Ends, Labels, After, Text, CanonLabels, StrictRead;
    var n: nat :| Agreed(p, i, n) && Labels(p, i, n) == CanonLabels(name) && After(p, i, n) == end;
    CanonText(name);
    AnswerIs(p, i, n, outLen, r);
  }
}
