/**
  A decoder written from RFC 8949 section 3 and appendix C, independent of the
  encoder, and the proof that it gets back every forest the encoder serialized.
 */
module CborDecoder {
  import opened BigEndian
  import opened CborHead
  import opened EncoderSpec
  import opened CborForest

  /** The generic data model of RFC 8949 section 2; maps list keys and values in turn. */
  datatype Data =
    | Unsigned(n: nat)
    | Negative(n: nat)  // the number -1 - n
    | ByteString(b: bytes)
    | TextString(b: bytes)
    | Array(items: seq<Data>, indefinite: bool)
    | Map(items: seq<Data>, indefinite: bool)
    | Tagged(tag: nat, content: Data)
    | Simple(n: nat)
    | Float(octets: nat, bits: nat)

  datatype Decoded<T> = Got(value: T, rest: bytes) | NotWellFormed

  const BREAK: byte := 0xff

  /** One data item from the front; indefinite-length strings, which are never written, are refused. */
  function DecodeItem(bs: bytes): (r: Decoded<Data>)
    ensures r.Got? ==> |r.rest| < |bs|
    decreases |bs|, 0
  {
    var h := ParseHead(bs);
    if h.Malformed? then NotWellFormed
    else if h.info == 31 then
      if h.major == 4 || h.major == 5 then
        var items := DecodeToBreak(h.rest);
        if items.NotWellFormed? then NotWellFormed
        else if h.major == 4 then Got(Array(items.value, true), items.rest)
        else if |items.value| % 2 == 0 then Got(Map(items.value, true), items.rest)
        else NotWellFormed
      else NotWellFormed
    else if h.major == 0 then Got(Unsigned(h.arg), h.rest)
    else if h.major == 1 then Got(Negative(h.arg), h.rest)
    else if h.major == 2 || h.major == 3 then
      if |h.rest| < h.arg then NotWellFormed
      else
        var content, rest := h.rest[..h.arg], h.rest[h.arg..];
        Got(if h.major == 2 then ByteString(content) else TextString(content), rest)
    else if h.major == 4 || h.major == 5 then
      var items := DecodeMany(if h.major == 4 then h.arg else 2 * h.arg, h.rest);
      if items.NotWellFormed? then NotWellFormed
      else Got(if h.major == 4 then Array(items.value, false) else Map(items.value, false), items.rest)
    else if h.major == 6 then
      var content := DecodeItem(h.rest);
      if content.NotWellFormed? then NotWellFormed else Got(Tagged(h.arg, content.value), content.rest)
    else if h.info < 24 then Got(Simple(h.arg), h.rest)
    else if h.info == 24 then
      if h.arg < 32 then NotWellFormed else Got(Simple(h.arg), h.rest)
    else Got(Float(if h.info == 25 then 2 else if h.info == 26 then 4 else 8, h.arg), h.rest)
  }

  /** n data items one after the other. */
  function DecodeMany(n: nat, bs: bytes): (r: Decoded<seq<Data>>)
    ensures r.Got? ==> |r.rest| <= |bs|
    decreases |bs|, 1, n
  {
    if n == 0 then Got([], bs)
    else
      var first := DecodeItem(bs);
      if first.NotWellFormed? then NotWellFormed
      else
        var others := DecodeMany(n - 1, first.rest);
        if others.NotWellFormed? then NotWellFormed else Got([first.value] + others.value, others.rest)
  }

  /** Data items up to a break. */
  function DecodeToBreak(bs: bytes): (r: Decoded<seq<Data>>)
    ensures r.Got? ==> |r.rest| < |bs|
    decreases |bs|, 1
  {
    if bs == [] then NotWellFormed
    else if bs[0] == BREAK then Got([], bs[1..])
    else
      var first := DecodeItem(bs);
      if first.NotWellFormed? then NotWellFormed
      else
        var others := DecodeToBreak(first.rest);
        if others.NotWellFormed? then NotWellFormed else Got([first.value] + others.value, others.rest)
  }

  /** A CBOR sequence (RFC 8742): data items to the end of the input. */
  function DecodeSequence(bs: bytes): (r: Decoded<seq<Data>>)
    decreases |bs|
  {
    if bs == [] then Got([], [])
    else
      var first := DecodeItem(bs);
      if first.NotWellFormed? then NotWellFormed
      else
        var others := DecodeSequence(first.rest);
        if others.NotWellFormed? then NotWellFormed else Got([first.value] + others.value, [])
  }

  // ----- what a forest means -----

  function LeafMeaning(op: Op): Data {
    match op
    case OpUInt(u) => Unsigned(u)
    case OpInt(n) => if n < 0 then Negative(-1 - n) else Unsigned(n)
    case OpBuffer(major, b) => if major == BYTE_STRING then ByteString(b) else TextString(b)
    case OpType7(minLen, bits) =>
      var width := ArgumentWidth(minLen, bits);
      if width <= 1 then Simple(bits) else Float(width, bits)
    case _ => Simple(0)
  }

  /** A wrapped byte string and bytes written in place are read as byte strings. */
  function Meaning(e: Elem): Data
    decreases e
  {
    match e
    case Leaf(op) => LeafMeaning(op)
    case Group(kind, items) =>
      (match kind
       case DefArray => Array(MeaningAll(items), false)
       case DefMap => Map(MeaningAll(items), false)
       case IndefArray => Array(MeaningAll(items), true)
       case IndefMap => Map(MeaningAll(items), true)
       case BstrWrap => ByteString(SerialAll(items)))
    case OpenedBytes(_, written) => ByteString(written)
    case Cancelled(_) => Simple(0)
  }

  /** The data items of a sequence of elements; a tag takes in the item behind it. */
  function MeaningAll(es: seq<Elem>): seq<Data>
    decreases es
  {
    if es == [] then []
    else
      var others := MeaningAll(es[1..]);
      if Weight(es[0]) == 1 then [Meaning(es[0])] + others
      else if es[0].Leaf? && es[0].op.OpTag? && others != [] then [Tagged(es[0].op.tag, others[0])] + others[1..]
      else others
  }

  /**
    What the caller must see to: text, byte and simple values as CBOR has them,
    keys with values, tags with something behind them, nothing else written while
    a byte string is open.
   */
  predicate WellFormed(e: Elem)
    decreases e
  {
    match e
    case Leaf(op) =>
      && IsLeaf(op)
      && (op.OpBuffer? ==> op.major in {BYTE_STRING, TEXT_STRING} && |op.b| <= SIZE_MAX)
      && (op.OpType7? ==> op.minLen <= 8 && (ArgumentWidth(op.minLen, op.bits) == 1 ==> op.bits >= 32))
    case Group(kind, items) =>
      if kind == BstrWrap then |SerialAll(items)| <= SIZE_MAX
      else
        && WellFormedAll(items) && Count(items) <= SIZE_MAX
        && (kind == DefMap || kind == IndefMap ==> Count(items) % 2 == 0)
    case OpenedBytes(items, written) => items == [] && |written| <= SIZE_MAX
    case Cancelled(items) => SerialAll(items) == []
  }

  predicate WellFormedAll(es: seq<Elem>)
    decreases es
  {
    es == [] || (
      WellFormed(es[0]) && WellFormedAll(es[1..]) && (es[0].Leaf? && es[0].op.OpTag? ==> Count(es[1..]) > 0))
  }

  // ----- the forest from the front -----

  lemma {:induction false} SerialFront(es: seq<Elem>)
    requires es != []
    ensures SerialAll(es) == Serial(es[0]) + SerialAll(es[1..])
    ensures Count(es) == Weight(es[0]) + Count(es[1..])
    decreases |es|
  {
    hide Serial, Weight;
    var front, last := es[..|es| - 1], es[|es| - 1];
    if |es| == 1 {
      assert front == [] && es[1..] == [];
    } else {
      SerialFront(front);
      assert front[1..] == es[1..][..|es[1..]| - 1];
    }
  }

  lemma {:induction false} MeaningCount(es: seq<Elem>)
    requires WellFormedAll(es)
    ensures |MeaningAll(es)| == Count(es)
    decreases |es|
  {
    if es != [] {
      SerialFront(es);
      MeaningCount(es[1..]);
    }
  }

  /** How many elements make up the first data item of es, tags and cancelled wraps in front included. */
  function FirstLength(es: seq<Elem>): (k: nat)
    ensures k <= |es| && (es != [] ==> k > 0)
  {
    if es == [] then 0 else if Weight(es[0]) == 1 then 1 else 1 + FirstLength(es[1..])
  }

  lemma {:induction false} NothingCounted(es: seq<Elem>)
    requires WellFormedAll(es) && Count(es) == 0
    ensures SerialAll(es) == [] && MeaningAll(es) == []
    decreases |es|
  {
    if es != [] {
      SerialFront(es);
      NothingCounted(es[1..]);
    }
  }

  /** Decoding one element that stands for a data item. */
  ghost predicate ReadsBack(e: Elem, tail: bytes) {
    && DecodeItem(Serial(e) + tail) == Got(Meaning(e), tail)
    && (Serial(e) + tail)[0] != BREAK
  }

  lemma ReadHead(major: byte, minLen: nat, arg: uint64, tail: bytes)
    requires major < 8 && minLen <= 8
    ensures var bs, width := Head(major, minLen, arg) + tail, ArgumentWidth(minLen, arg);
            && ParseHead(bs) == ParsedHead(major, AdditionalInfo(width, arg), arg, tail)
            && AdditionalInfo(width, arg) < 28 && bs[0] != BREAK
  {
    HeadRoundTrip(major, minLen, arg, tail);
  }

  lemma ReadString(major: byte, b: bytes, tail: bytes)
    requires major == BYTE_STRING || major == TEXT_STRING
    requires |b| <= SIZE_MAX
    ensures var bs := Head(major, 0, |b|) + b + tail;
            && DecodeItem(bs) == Got(if major == BYTE_STRING then ByteString(b) else TextString(b), tail)
            && bs[0] != BREAK
  {
    ReadHead(major, 0, |b|, b + tail);
    assert Head(major, 0, |b|) + b + tail == Head(major, 0, |b|) + (b + tail);
    assert (b + tail)[..|b|] == b && (b + tail)[|b|..] == tail;
  }

  lemma ReadLeaf(op: Op, tail: bytes)
    requires WellFormed(Leaf(op)) && !op.OpTag?
    ensures ReadsBack(Leaf(op), tail)
  {
    hide Head, ParseHead, DecodeMany, DecodeToBreak;
    match op
    case OpUInt(u) => ReadHead(0, 0, u, tail);
    case OpInt(n) => if n < 0 { ReadHead(1, 0, -1 - n, tail); } else { ReadHead(0, 0, n, tail); }
    case OpBuffer(major, b) => ReadString(major, b, tail);
    case OpType7(minLen, bits) => ReadHead(SIMPLE, minLen, bits, tail);
  }

  /** One element that stands for a data item. */
  lemma {:induction false} ReadElem(e: Elem, tail: bytes)
    requires WellFormed(e) && Weight(e) == 1
    ensures ReadsBack(e, tail)
    decreases e, 0
  {
    match e
    case Leaf(op) => ReadLeaf(op, tail);
    case OpenedBytes(items, written) =>
      assert SerialAll(items) + written == written;
      ReadString(BYTE_STRING, written, tail);
    case Group(kind, items) =>
      var body := SerialAll(items);
      assert OpeningBytes(DefArray) + Closed(kind, body, Count(items)) == Closed(kind, body, Count(items));
      match kind {
        case BstrWrap => ReadString(BYTE_STRING, body, tail);
        case DefArray => ReadDefinite(kind, items, tail);
        case DefMap => ReadDefinite(kind, items, tail);
        case IndefArray => ReadIndefinite(kind, items, tail);
        case IndefMap => ReadIndefinite(kind, items, tail);
      }
  }

  lemma {:induction false} ReadDefinite(kind: Kind, items: seq<Elem>, tail: bytes)
    requires WellFormed(Group(kind, items)) && (kind == DefArray || kind == DefMap)
    ensures ReadsBack(Group(kind, items), tail)
    decreases items, 4
  {
    var body, n := SerialAll(items), if kind == DefArray then Count(items) else Count(items) / 2;
    var major: byte := if kind == DefArray then ARRAY else MAP;
    assert Serial(Group(kind, items)) + tail == Head(major, 0, n) + (body + tail);
    hide Serial, SerialAll, Count, MeaningAll, WellFormedAll, DecodeMany, Head, ParseHead, ArgumentWidth,
      AdditionalInfo;
    ReadHead(major, 0, n, body + tail);
    ReadMany(items, tail);
  }

  lemma {:induction false} ReadIndefinite(kind: Kind, items: seq<Elem>, tail: bytes)
    requires WellFormed(Group(kind, items)) && (kind == IndefArray || kind == IndefMap)
    ensures ReadsBack(Group(kind, items), tail)
    decreases items, 4
  {
    var rest := SerialAll(items) + [BREAK] + tail;
    var bs := Serial(Group(kind, items)) + tail;
    assert bs[0] == (if kind == IndefArray then 0x9f else 0xbf);
    assert bs == [bs[0]] + rest;
    assert bs[1..] == rest;
    assert ParseHead(bs) == ParsedHead(if kind == IndefArray then 4 else 5, 31, 0, rest);
    hide Serial, SerialAll, Count, MeaningAll, WellFormedAll, DecodeToBreak, ParseHead;
    ReadToBreak(items, tail);
    MeaningCount(items);
  }

  /** Decoding the first data item of a sequence of elements leaves the other elements. */
  ghost predicate ReadsFirst(es: seq<Elem>, tail: bytes) {
    var others := es[FirstLength(es)..];
    && |MeaningAll(es)| == Count(es) > 0
    && DecodeItem(SerialAll(es) + tail) == Got(MeaningAll(es)[0], SerialAll(others) + tail)
    && |SerialAll(es)| > 0 && SerialAll(es)[0] != BREAK
    && WellFormedAll(others) && Count(others) == Count(es) - 1 && MeaningAll(others) == MeaningAll(es)[1..]
  }

  lemma {:induction false} ReadFirst(es: seq<Elem>, tail: bytes)
    requires WellFormedAll(es) && Count(es) > 0
    ensures ReadsFirst(es, tail)
    decreases es, 1
  {
    SerialFront(es);
    if Weight(es[0]) == 1 {
      ReadElem(es[0], SerialAll(es[1..]) + tail);
      FirstIsItem(es, tail);
    } else {
      ReadFirst(es[1..], tail);
      FirstIsPrefix(es, tail);
    }
  }

  lemma MeaningFront(es: seq<Elem>)
    requires es != [] && WellFormedAll(es)
    ensures WellFormed(es[0]) && WellFormedAll(es[1..])
    ensures Weight(es[0]) == 1 ==> MeaningAll(es) == [Meaning(es[0])] + MeaningAll(es[1..]) && FirstLength(es) == 1
    ensures es[0].Cancelled? ==> MeaningAll(es) == MeaningAll(es[1..]) && Serial(es[0]) == []
    ensures es[0].Leaf? && es[0].op.OpTag? && MeaningAll(es[1..]) != [] ==>
              MeaningAll(es) == [Tagged(es[0].op.tag, MeaningAll(es[1..])[0])] + MeaningAll(es[1..])[1..]
    ensures Weight(es[0]) == 0 ==> es[FirstLength(es)..] == es[1..][FirstLength(es[1..])..]
  {
    hide Meaning, SerialAll;
  }

  lemma FirstIsItem(es: seq<Elem>, tail: bytes)
    requires WellFormedAll(es) && es != [] && Weight(es[0]) == 1 && ReadsBack(es[0], SerialAll(es[1..]) + tail)
    ensures ReadsFirst(es, tail)
  {
    hide Serial, DecodeItem, Meaning, MeaningAll, WellFormed, WellFormedAll, SerialAll, Count, Weight, FirstLength;
    SerialFront(es);
    MeaningFront(es);
    MeaningCount(es);
    SerialNonempty(es[0]);
    assert SerialAll(es) + tail == Serial(es[0]) + (SerialAll(es[1..]) + tail);
    assert MeaningAll(es)[1..] == MeaningAll(es[1..]);
  }

  /** A tag, or a wrap that was cancelled, in front of the rest. */
  lemma FirstIsPrefix(es: seq<Elem>, tail: bytes)
    requires WellFormedAll(es) && es != [] && Weight(es[0]) == 0 && ReadsFirst(es[1..], tail)
    ensures ReadsFirst(es, tail)
  {
    hide Serial, DecodeItem, Meaning, MeaningAll, WellFormed, WellFormedAll, SerialAll, Count, FirstLength;
    var rest := SerialAll(es[1..]) + tail;
    SerialFront(es);
    MeaningFront(es);
    MeaningCount(es);
    if es[0].Leaf? {
      ReadTag(es[0].op.tag, rest);
    }
    assert SerialAll(es) + tail == Serial(es[0]) + rest;
    if es[0].Cancelled? {
      assert Serial(es[0]) + rest == rest && [] + SerialAll(es[1..]) == SerialAll(es[1..]);
    } else {
      assert MeaningAll(es)[1..] == MeaningAll(es[1..])[1..];
    }
  }

  lemma ReadTag(tag: uint64, rest: bytes)
    ensures var bs, content := Serial(Leaf(OpTag(tag))) + rest, DecodeItem(rest);
            && (content.Got? ==> DecodeItem(bs) == Got(Tagged(tag, content.value), content.rest))
            && |Serial(Leaf(OpTag(tag)))| > 0 && bs[0] != BREAK
  {
    ReadHead(TAG, 0, tag, rest);
  }

  lemma SerialNonempty(e: Elem)
    requires WellFormed(e) && Weight(e) == 1
    ensures |Serial(e)| > 0
  {
  }

  /** One decoded item in front of decoded items. */
  lemma OneMore(bs: bytes, all: seq<Data>, rest: bytes, tail: bytes)
    requires bs != [] && all != [] && DecodeItem(bs) == Got(all[0], rest)
    ensures DecodeMany(|all| - 1, rest) == Got(all[1..], tail) ==> DecodeMany(|all|, bs) == Got(all, tail)
    ensures bs[0] != BREAK && DecodeToBreak(rest) == Got(all[1..], tail) ==> DecodeToBreak(bs) == Got(all, tail)
    ensures DecodeSequence(rest) == Got(all[1..], []) ==> DecodeSequence(bs) == Got(all, [])
  {
    hide DecodeItem;
    assert [all[0]] + all[1..] == all;
  }

  lemma {:induction false} ReadMany(es: seq<Elem>, tail: bytes)
    requires WellFormedAll(es)
    ensures DecodeMany(Count(es), SerialAll(es) + tail) == Got(MeaningAll(es), tail)
    decreases es, 2
  {
    hide *;
    if Count(es) == 0 {
      NothingCounted(es);
      assert SerialAll(es) + tail == tail;
      ReadNothing(tail);
    } else {
      var others := es[FirstLength(es)..];
      ReadFirst(es, tail);
      ReadsFirstIs(es, tail);
      ReadMany(others, tail);
      OneMore(SerialAll(es) + tail, MeaningAll(es), SerialAll(others) + tail, tail);
    }
  }

  lemma ReadNothing(tail: bytes)
    ensures DecodeMany(0, tail) == Got([], tail)
  {
  }

  lemma {:induction false} ReadToBreak(es: seq<Elem>, tail: bytes)
    requires WellFormedAll(es)
    ensures DecodeToBreak(SerialAll(es) + [BREAK] + tail) == Got(MeaningAll(es), tail)
    decreases es, 2
  {
    hide *;
    var more := [BREAK] + tail;
    assert SerialAll(es) + [BREAK] + tail == SerialAll(es) + more;
    if Count(es) == 0 {
      NothingCounted(es);
      assert SerialAll(es) + more == [BREAK] + tail;
      ReadBreak(tail);
    } else {
      var others := es[FirstLength(es)..];
      ReadFirst(es, more);
      ReadsFirstIs(es, more);
      ReadToBreak(others, tail);
      assert SerialAll(others) + [BREAK] + tail == SerialAll(others) + more;
      OneMore(SerialAll(es) + more, MeaningAll(es), SerialAll(others) + more, tail);
    }
  }

  lemma ReadBreak(tail: bytes)
    ensures DecodeToBreak([BREAK] + tail) == Got([], tail)
  {
    assert ([BREAK] + tail)[1..] == tail;
  }

  /** The others are fewer, and the first octet is no break. */
  lemma ReadsFirstIs(es: seq<Elem>, tail: bytes)
    requires ReadsFirst(es, tail)
    ensures var others := es[FirstLength(es)..];
            && es != [] && FirstLength(es) > 0 && WellFormedAll(others) && |MeaningAll(es)| == Count(es)
               && Count(others) == Count(es) - 1
            && MeaningAll(others) == MeaningAll(es)[1..]
            && MeaningAll(es) != [] && DecodeItem(SerialAll(es) + tail)
               == Got(MeaningAll(es)[0], SerialAll(others) + tail)
            && SerialAll(es) + tail != [] && (SerialAll(es) + tail)[0] != BREAK
  {
    hide DecodeItem, SerialAll, MeaningAll, WellFormedAll;
  }

  /** The decoder gets back every forest from its serialization, all of it and nothing else. */
  lemma {:induction false} DecodesForest(f: seq<Elem>)
    requires WellFormedAll(f)
    ensures DecodeSequence(SerialAll(f)) == Got(MeaningAll(f), [])
    decreases |f|
  {
    if Count(f) == 0 {
      NothingCounted(f);
    } else {
      hide DecodeItem, DecodeSequence, SerialAll, Count, MeaningAll, WellFormedAll;
      var others := f[FirstLength(f)..];
      ReadFirst(f, []);
      assert SerialAll(f) + [] == SerialAll(f) && SerialAll(others) + [] == SerialAll(others);
      FirstIsSome(f);
      DecodesForest(others);
      OneMore(SerialAll(f), MeaningAll(f), SerialAll(others), []);
    }
  }

  lemma FirstIsSome(es: seq<Elem>)
    requires Count(es) > 0
    ensures FirstLength(es) > 0
  {
  }

  /** Encoding keeps apart what differs in meaning. */
  lemma SerializationInjective(f: seq<Elem>, g: seq<Elem>)
    requires WellFormedAll(f) && WellFormedAll(g) && SerialAll(f) == SerialAll(g)
    ensures MeaningAll(f) == MeaningAll(g)
  {
    DecodesForest(f);
    DecodesForest(g);
  }

  /** The encoder and the decoder: what Finish hands out is read back as the forest that was described. */
  lemma EncodeThenDecode(capacity: nat, f: seq<Elem>)
    requires WellFormedAll(f) && FitAll(f, 0, 0, false) && |SerialAll(f)| <= capacity
    ensures var s := Run(Init(capacity), Ops(f));
            FinishError(s) == Success && DecodeSequence(s.data) == Got(MeaningAll(f), [])
  {
    EncodesForest(capacity, f);
    DecodesForest(f);
  }
}
