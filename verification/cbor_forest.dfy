/**
  Item trees: what a well-nested sequence of encoder calls describes, and its bytes,
  which for a well-formed forest are its serialization by RFC 8949 section 3.  A run
  of the encoder over the calls, opening and closing as it goes, leaves exactly them.
 */
module CborForest {
  import opened BigEndian
  import opened CborHead
  import opened EncoderSpec

  /** A node; a tag is a node of its own in front of what it tags. */
  datatype Elem =
    | Leaf(op: Op)
    | Group(kind: Kind, items: seq<Elem>)
    | OpenedBytes(items: seq<Elem>, written: bytes)  // OpenBytes ... CloseBytes; items are none when well-formed
    | Cancelled(items: seq<Elem>)                    // BstrWrap ... CancelBstrWrap

  /** Calls that neither open nor close. */
  predicate IsLeaf(op: Op) {
    op.OpUInt? || op.OpInt? || op.OpBuffer? || op.OpTag? || op.OpType7?
  }

  // ----- the calls of a forest, in pre-order -----

  function ElemOps(e: Elem): seq<Op>
    decreases e
  {
    match e
    case Leaf(op) => [op]
    case Group(kind, items) => [OpOpen(kind)] + Ops(items) + [OpClose(kind)]
    case OpenedBytes(items, written) => [OpOpenBytes] + Ops(items) + [OpCloseBytes(written)]
    case Cancelled(items) => [OpOpen(BstrWrap)] + Ops(items) + [OpCancelWrap]
  }

  function Ops(es: seq<Elem>): seq<Op>
    decreases es
  {
    if es == [] then [] else Ops(es[..|es| - 1]) + ElemOps(es[|es| - 1])
  }

  // ----- bytes -----

  function LeafBytes(op: Op): bytes {
    match op
    case OpUInt(u) => Head(0, 0, u)
    case OpInt(n) => if n < 0 then Head(1, 0, -1 - n) else Head(0, 0, n)
    case OpBuffer(major, b) =>
      (if major == RAW then [] else Head(if major == BSTR_LEN_ONLY then BYTE_STRING else major, 0, |b|))
      + (if major == BSTR_LEN_ONLY then [] else b)
    case OpTag(tag) => Head(TAG, 0, tag)
    case OpType7(minLen, bits) => Head(SIMPLE, minLen, bits)
    case _ => []
  }

  /** The start of an array or map of indefinite length. */
  function OpeningBytes(kind: Kind): bytes {
    match kind
    case IndefArray => [0x9f]
    case IndefMap => [0xbf]
    case _ => []
  }

  /** The rest of an array, map or wrapped byte string: a length in front or a break behind. */
  function Closed(kind: Kind, body: bytes, items: nat): bytes {
    match kind
    case DefArray => Head(ARRAY, 0, items) + body
    case DefMap => Head(MAP, 0, items / 2) + body
    case BstrWrap => Head(BYTE_STRING, 0, |body|) + body
    case _ => body + [0xff]
  }

  function Serial(e: Elem): bytes
    decreases e
  {
    match e
    case Leaf(op) => LeafBytes(op)
    case Group(kind, items) => OpeningBytes(kind) + Closed(kind, SerialAll(items), Count(items))
    case OpenedBytes(items, written) => Head(BYTE_STRING, 0, |written|) + (SerialAll(items) + written)
    case Cancelled(items) => SerialAll(items)
  }

  function SerialAll(es: seq<Elem>): bytes
    decreases es
  {
    if es == [] then [] else SerialAll(es[..|es| - 1]) + Serial(es[|es| - 1])
  }

  /** How many data items a node is: a tag belongs to the item behind it. */
  function Weight(e: Elem): nat {
    if e.Cancelled? || (e.Leaf? && e.op.OpTag?) then 0 else 1
  }

  function Count(es: seq<Elem>): nat {
    if es == [] then 0 else Count(es[..|es| - 1]) + Weight(es[|es| - 1])
  }

  lemma Split(es: seq<Elem>)
    requires es != []
    ensures var front, last := es[..|es| - 1], es[|es| - 1];
            && Ops(es) == Ops(front) + ElemOps(last)
            && SerialAll(es) == SerialAll(front) + Serial(last)
            && Count(es) == Count(front) + Weight(last)
  {
    hide Serial, ElemOps, Weight;
  }

  lemma {:induction false} Concat(a: seq<Elem>, b: seq<Elem>)
    ensures Ops(a + b) == Ops(a) + Ops(b)
    ensures SerialAll(a + b) == SerialAll(a) + SerialAll(b)
    ensures Count(a + b) == Count(a) + Count(b)
    decreases |b|
  {
    NoElems();
    hide *;
    if b == [] {
      assert a + b == a;
    } else {
      var front := b[..|b| - 1];
      Concat(a, front);
      Split(b);
      Split(a + b);
      assert (a + b)[..|a + b| - 1] == a + front;
    }
  }

  lemma NoElems()
    ensures Ops([]) == [] && SerialAll([]) == [] && Count([]) == 0
  {
  }

  lemma Single(e: Elem)
    ensures Ops([e]) == ElemOps(e) && SerialAll([e]) == Serial(e) && Count([e]) == Weight(e)
  {
    assert [e][..0] == [];
    assert [] + ElemOps(e) == ElemOps(e) && [] + Serial(e) == Serial(e);
  }

  // ----- limits of the encoder -----

  /**
    e can be added when pos bytes have been written, depth levels are open and
    the innermost of them, an open byte string or not, has count items: at most
    65533 in a level, 15 levels, each begun within UINT32_MAX - 100 bytes.
   */
  predicate Fits(e: Elem, pos: nat, depth: nat, count: nat, inBytes: bool)
    decreases e
  {
    match e
    case Leaf(op) =>
      && IsLeaf(op)
      && (op.OpType7? ==> !(24 <= op.bits <= 31))
      && (!op.OpTag? ==> count < 65533)
    case Group(kind, items) =>
      var start := pos + |OpeningBytes(kind)|;
      count < 65533 && start < 4_294_967_195 && depth < 15 && FitAll(items, start, depth + 1, false)
    case OpenedBytes(items, _) =>
      !inBytes && count < 65533 && pos < 4_294_967_195 && depth < 15 && FitAll(items, pos, depth + 1, true)
    case Cancelled(items) =>
      && count < 65533 && pos < 4_294_967_195 && depth < 15 && FitAll(items, pos, depth + 1, false)
      && SerialAll(items) == []
  }

  predicate FitAll(es: seq<Elem>, pos: nat, depth: nat, inBytes: bool)
    decreases es
  {
    es == [] || (
      var front, last := es[..|es| - 1], es[|es| - 1];
      FitAll(front, pos, depth, inBytes) && Fits(last, pos + |SerialAll(front)|, depth, Count(front), inBytes))
  }

  // ----- running -----

  /** s with bytes appended and items counted at the innermost level. */
  function Advanced(s: State, added: bytes, items: nat): State {
    s.(data := s.data + added, top := s.top.(count := s.top.count + items))
  }

  /** s with a new innermost level that starts at the end of the data. */
  function Nested(s: State, major: byte): State {
    s.(below := s.below + [s.top], top := Level(|s.data|, 0, major))
  }

  predicate Healthy(s: State) {
    s.error == Success && !s.full && |s.data| <= s.capacity
  }

  /** Where an element is about to go. */
  predicate FitsHere(e: Elem, s: State) {
    Fits(e, |s.data|, |s.below|, s.top.count, s.top.major == OPEN_BSTR)
  }

  lemma AdvancedTwice(s: State, a: bytes, m: nat, b: bytes, n: nat)
    ensures Advanced(Advanced(s, a, m), b, n) == Advanced(s, a + b, m + n)
  {
    assert s.data + a + b == s.data + (a + b);
  }

  lemma AdvancedByNothing(s: State)
    ensures Advanced(s, [], 0) == s
  {
    assert s.data + [] == s.data;
  }

  lemma NestedPopped(outer: State, major: byte, body: bytes, count: nat)
    ensures Advanced(Nested(outer, major), body, count).Popped() == Advanced(outer, body, 0)
  {
    assert (outer.below + [outer.top])[..|outer.below|] == outer.below;
  }

  lemma AppendIs(s: State, added: bytes)
    requires Healthy(s) && |s.data| + |added| <= s.capacity
    ensures Append(s, added) == Advanced(s, added, 0)
  {
  }

  lemma IncrementIs(s: State)
    requires Healthy(s) && s.top.count < MAX_ITEMS - 1
    ensures Increment(s) == Advanced(s, [], 1)
  {
    assert s.data + [] == s.data;
  }

  lemma ItemRun(s: State, added: bytes)
    requires Healthy(s) && s.top.count < MAX_ITEMS - 1 && |s.data| + |added| <= s.capacity
    ensures Increment(Append(s, added)) == Advanced(s, added, 1)
  {
    AppendIs(s, added);
    IncrementIs(Advanced(s, added, 0));
    AdvancedTwice(s, added, 0, [], 1);
    assert added + [] == added;
  }

  lemma LeafRun(s: State, op: Op)
    requires Healthy(s) && FitsHere(Leaf(op), s) && |s.data| + |LeafBytes(op)| <= s.capacity
    ensures Step(s, op) == Advanced(s, LeafBytes(op), Weight(Leaf(op)))
  {
    hide Append, Increment, Advanced;
    match op
    case OpUInt(u) => ItemRun(s, Head(0, 0, u));
    case OpInt(n) => ItemRun(s, if n < 0 then Head(1, 0, -1 - n) else Head(0, 0, n));
    case OpTag(tag) => AppendIs(s, Head(TAG, 0, tag));
    case OpType7(minLen, bits) => ItemRun(s, Head(SIMPLE, minLen, bits));
    case OpBuffer(major, b) => BufferRun(s, major, b);
  }

  lemma BufferRun(s: State, major: byte, b: bytes)
    requires Healthy(s) && s.top.count < MAX_ITEMS - 1 && |s.data| + |LeafBytes(OpBuffer(major, b))| <= s.capacity
    ensures AddBuffer(s, major, b) == Advanced(s, LeafBytes(OpBuffer(major, b)), 1)
  {
    var head := Head(if major == BSTR_LEN_ONLY then BYTE_STRING else major, 0, |b|);
    if major == RAW {
      ItemRun(s, b);
      assert [] + b == b;
    } else if major == BSTR_LEN_ONLY {
      ItemRun(s, head);
      assert head + [] == head;
    } else {
      AppendIs(s, head);
      ItemRun(Advanced(s, head, 0), b);
      AdvancedTwice(s, head, 0, b, 1);
    }
  }

  lemma OpenMapOrArrayRun(s: State, major: byte)
    requires Healthy(s) && s.top.count < MAX_ITEMS - 1 && |s.below| < MAX_NESTING && |s.data| < MAX_OFFSET
    ensures OpenMapOrArray(s, major) == Nested(Advanced(s, [], 1), major)
  {
    IncrementIs(s);
  }

  lemma OpenRun(s: State, kind: Kind)
    requires Healthy(s) && s.top.count < MAX_ITEMS - 1 && |s.below| < MAX_NESTING
    requires |s.data| + |OpeningBytes(kind)| < MAX_OFFSET && |s.data| + |OpeningBytes(kind)| <= s.capacity
    ensures Step(s, OpOpen(kind)) == Nested(Advanced(s, OpeningBytes(kind), 1), kind.Major())
  {
    if kind.Indefinite() {
      IndefiniteHeads(0, 0);
      AppendIs(s, OpeningBytes(kind));
      OpenMapOrArrayRun(Advanced(s, OpeningBytes(kind), 0), kind.Major());
      AdvancedTwice(s, OpeningBytes(kind), 0, [], 1);
      assert OpeningBytes(kind) + [] == OpeningBytes(kind);
    } else {
      OpenMapOrArrayRun(s, kind.Major());
    }
  }

  /** Closing a level: its bytes, with the head in front, become part of the level around it. */
  lemma InsertHeadRun(outer: State, major: byte, body: bytes, count: nat, head: bytes, length: nat)
    requires Healthy(outer)
    requires head == Head(if major == OPEN_BSTR then BYTE_STRING else major, 0, length)
    requires |outer.data| + |head| + |body| <= outer.capacity
    ensures InsertHead(Advanced(Nested(outer, major), body, count), major, length) == Advanced(outer, head + body, 0)
  {
    var inner := Advanced(Nested(outer, major), body, count);
    NestedPopped(outer, major, body, count);
    assert inner.data[..|outer.data|] + head + inner.data[|outer.data|..] == outer.data + (head + body);
    assert Insert(inner, head, |outer.data|) == inner.(data := outer.data + (head + body));
  }

  lemma CloseIndefiniteRun(outer: State, major: byte, body: bytes, count: nat)
    requires Healthy(outer) && |outer.data| + |body| + 1 <= outer.capacity
    ensures CloseIndefinite(Advanced(Nested(outer, major), body, count), major) == Advanced(outer, body + [0xff], 0)
  {
    var inner := Advanced(Nested(outer, major), body, count);
    IndefiniteHeads(0, SIMPLE_BREAK);
    AppendIs(inner, [0xff]);
    AdvancedTwice(Nested(outer, major), body, count, [0xff], 0);
    NestedPopped(outer, major, body, count);
    NestedPopped(outer, major, body + [0xff], count);
  }

  lemma CloseRun(outer: State, kind: Kind, body: bytes, count: nat)
    requires Healthy(outer) && |outer.data| + |Closed(kind, body, count)| <= outer.capacity
    ensures Step(Advanced(Nested(outer, kind.Major()), body, count), OpClose(kind))
            == Advanced(outer, Closed(kind, body, count), 0)
  {
    if kind.Indefinite() {
      CloseIndefiniteRun(outer, kind.Major(), body, count);
    } else {
      CloseDefiniteRun(outer, kind, body, count);
    }
  }

  lemma DefiniteCloseIs(s: State, kind: Kind)
    requires !kind.Indefinite()
    ensures Step(s, OpClose(kind))
            == InsertHead(s, kind.Major(), if kind == BstrWrap then WrappedLength(s) else HeadCount(s))
  {
    hide InsertHead, WrappedLength, HeadCount;
  }

  lemma CloseDefiniteRun(outer: State, kind: Kind, body: bytes, count: nat)
    requires Healthy(outer) && |outer.data| + |Closed(kind, body, count)| <= outer.capacity && !kind.Indefinite()
    ensures Step(Advanced(Nested(outer, kind.Major()), body, count), OpClose(kind))
            == Advanced(outer, Closed(kind, body, count), 0)
  {
    var inner := Advanced(Nested(outer, kind.Major()), body, count);
    var length := if kind == BstrWrap then |body| else if kind == DefMap then count / 2 else count;
    assert HeadCount(inner) == (if kind == DefMap then count / 2 else count) && WrappedLength(inner) == |body|;
    hide Step, InsertHead, Advanced, Nested, HeadCount, WrappedLength;
    DefiniteCloseIs(inner, kind);
    InsertHeadRun(outer, kind.Major(), body, count, Head(kind.Major(), 0, length), length);
  }

  /** An opening call, what is inside, and the call that ends it. */
  lemma {:induction false} BracketedRun(s: State, open: Op, items: seq<Elem>, close: Op, outer: State, major: byte)
    requires Step(s, open) == Nested(outer, major) && Healthy(outer)
    requires FitAll(items, |outer.data|, |outer.below| + 1, major == OPEN_BSTR)
    requires |outer.data| + |SerialAll(items)| <= outer.capacity
    ensures Run(s, [open] + Ops(items) + [close])
            == Step(Advanced(Nested(outer, major), SerialAll(items), Count(items)), close)
    decreases items, 1
  {
    hide Step, Advanced, FitAll, SerialAll, Ops, Count;
    AllRun(Nested(outer, major), items);
    RunConcat(s, [open] + Ops(items), [close]);
    RunConcat(s, [open], Ops(items));
    RunOne(s, open);
    RunOne(Advanced(Nested(outer, major), SerialAll(items), Count(items)), close);
  }

  lemma {:induction false} GroupRun(s: State, kind: Kind, items: seq<Elem>)
    requires Healthy(s) && FitsHere(Group(kind, items), s) && |s.data| + |Serial(Group(kind, items))| <= s.capacity
    ensures Run(s, ElemOps(Group(kind, items))) == Advanced(s, Serial(Group(kind, items)), 1)
    decreases items, 2
  {
    var opening, closed := OpeningBytes(kind), Closed(kind, SerialAll(items), Count(items));
    var outer := Advanced(s, opening, 1);
    hide Step, Run, OpeningBytes, Closed, SerialAll, Count, Ops, FitAll;
    OpenRun(s, kind);
    ClosedIsLonger(kind, SerialAll(items), Count(items));
    BracketedRun(s, OpOpen(kind), items, OpClose(kind), outer, kind.Major());
    CloseRun(outer, kind, SerialAll(items), Count(items));
    AdvancedTwice(s, opening, 1, closed, 0);
  }

  lemma ClosedIsLonger(kind: Kind, body: bytes, items: nat)
    ensures |Closed(kind, body, items)| > |body|
  {
  }

  lemma {:induction false} OpenedBytesRun(s: State, items: seq<Elem>, written: bytes)
    requires Healthy(s) && FitsHere(OpenedBytes(items, written), s)
    requires |s.data| + |Serial(OpenedBytes(items, written))| <= s.capacity
    ensures Run(s, ElemOps(OpenedBytes(items, written))) == Advanced(s, Serial(OpenedBytes(items, written)), 1)
    decreases items, 2
  {
    var outer, body, head := Advanced(s, [], 1), SerialAll(items), Head(BYTE_STRING, 0, |written|);
    assert outer.data == s.data;
    OpenMapOrArrayRun(s, OPEN_BSTR);
    assert Step(s, OpOpenBytes) == Nested(outer, OPEN_BSTR) && FitAll(items, |outer.data|, |outer.below| + 1, true);
    hide Step, Run, Advanced, Nested, FitAll, Ops, SerialAll, Count, CloseBytes, OpenMapOrArray;
    CloseBytesIs(Advanced(Nested(outer, OPEN_BSTR), body, Count(items)), written);
    BracketedRun(s, OpOpenBytes, items, OpCloseBytes(written), outer, OPEN_BSTR);
    CloseBytesRun(outer, body, Count(items), written);
    AdvancedTwice(s, [], 1, head + (body + written), 0);
    assert [] + (head + (body + written)) == head + (body + written);
  }

  lemma CloseBytesIs(s: State, written: bytes)
    ensures Step(s, OpCloseBytes(written)) == CloseBytes(s, written)
  {
    hide CloseBytes;
  }

  lemma CloseBytesRun(outer: State, body: bytes, count: nat, written: bytes)
    requires Healthy(outer)
    requires |outer.data| + |Head(BYTE_STRING, 0, |written|)| + |body| + |written| <= outer.capacity
    ensures CloseBytes(Advanced(Nested(outer, OPEN_BSTR), body, count), written)
         == Advanced(outer, Head(BYTE_STRING, 0, |written|) + (body + written), 0)
  {
    AppendIs(Advanced(Nested(outer, OPEN_BSTR), body, count), written);
    AdvancedTwice(Nested(outer, OPEN_BSTR), body, count, written, 0);
    InsertHeadRun(outer, OPEN_BSTR, body + written, count, Head(BYTE_STRING, 0, |written|), |written|);
  }

  lemma {:induction false} CancelledRun(s: State, items: seq<Elem>)
    requires Healthy(s) && FitsHere(Cancelled(items), s)
    ensures Run(s, ElemOps(Cancelled(items))) == Advanced(s, [], 0)
    decreases items, 2
  {
    var outer := Advanced(s, [], 1);
    assert outer.data == s.data;
    assert Healthy(outer) && FitAll(items, |outer.data|, |outer.below| + 1, false) && SerialAll(items) == [];
    hide Step, Run, Advanced, Nested, FitAll, Ops, SerialAll, Count, CancelBstrWrap;
    OpenRun(s, BstrWrap);
    BracketedRun(s, OpOpen(BstrWrap), items, OpCancelWrap, outer, BYTE_STRING);
    CancelRun(s, Count(items));
    CancelIs(Advanced(Nested(outer, BYTE_STRING), [], Count(items)));
  }

  lemma CancelIs(s: State)
    ensures Step(s, OpCancelWrap) == CancelBstrWrap(s)
  {
    hide CancelBstrWrap;
  }

  lemma CancelRun(s: State, count: nat)
    requires Healthy(s)
    ensures CancelBstrWrap(Advanced(Nested(Advanced(s, [], 1), BYTE_STRING), [], count)) == Advanced(s, [], 0)
  {
    var outer := Advanced(s, [], 1);
    NestedPopped(outer, BYTE_STRING, [], count);
    AdvancedByNothing(outer);
    assert outer.data == s.data;
  }

  /** One element, started in any state where it fits. */
  lemma {:induction false} ElemRun(s: State, e: Elem)
    requires Healthy(s) && FitsHere(e, s) && |s.data| + |Serial(e)| <= s.capacity
    ensures Run(s, ElemOps(e)) == Advanced(s, Serial(e), Weight(e))
    decreases e, 3
  {
    match e
    case Leaf(op) =>
      RunOne(s, op);
      LeafRun(s, op);
    case Group(kind, items) => GroupRun(s, kind, items);
    case OpenedBytes(items, written) => OpenedBytesRun(s, items, written);
    case Cancelled(items) => CancelledRun(s, items);
  }

  /** A sequence of elements, at the start of a level. */
  lemma {:induction false} AllRun(s: State, es: seq<Elem>)
    requires Healthy(s) && s.top.count == 0
    requires FitAll(es, |s.data|, |s.below|, s.top.major == OPEN_BSTR)
    requires |s.data| + |SerialAll(es)| <= s.capacity
    ensures Run(s, Ops(es)) == Advanced(s, SerialAll(es), Count(es))
    decreases es, 0
  {
    if es == [] {
      AdvancedByNothing(s);
    } else {
      hide *;
      var front, last := es[..|es| - 1], es[|es| - 1];
      AllSplit(es, |s.data|, |s.below|, s.top.major == OPEN_BSTR);
      FrontFits(s, front, last);
      AllRun(s, front);
      ElemRun(Advanced(s, SerialAll(front), Count(front)), last);
      RunConcat(s, Ops(front), ElemOps(last));
      AdvancedTwice(s, SerialAll(front), Count(front), Serial(last), Weight(last));
    }
  }

  lemma FrontFits(s: State, front: seq<Elem>, last: Elem)
    requires Healthy(s) && s.top.count == 0 && |s.data| + |SerialAll(front) + Serial(last)| <= s.capacity
    requires Fits(last, |s.data| + |SerialAll(front)|, |s.below|, Count(front), s.top.major == OPEN_BSTR)
    ensures var t := Advanced(s, SerialAll(front), Count(front));
            Healthy(t) && FitsHere(last, t) && |t.data| + |Serial(last)| <= t.capacity
              && |s.data| + |SerialAll(front)| <= s.capacity
  {
    hide SerialAll, Serial, Count, Fits;
  }

  lemma AllSplit(es: seq<Elem>, pos: nat, depth: nat, inBytes: bool)
    requires es != []
    ensures var front, last := es[..|es| - 1], es[|es| - 1];
            && (FitAll(es, pos, depth, inBytes) <==>
                  FitAll(front, pos, depth, inBytes)
                    && Fits(last, pos + |SerialAll(front)|, depth, Count(front), inBytes))
            && Ops(es) == Ops(front) + ElemOps(last)
            && SerialAll(es) == SerialAll(front) + Serial(last)
            && Count(es) == Count(front) + Weight(last)
  {
  }

  /**
    The encoder on the calls of a forest: although every definite head is
    inserted only when its level closes, the output is the bytes of the forest.
   */
  lemma EncodesForest(capacity: nat, f: seq<Elem>)
    requires FitAll(f, 0, 0, false) && |SerialAll(f)| <= capacity
    ensures var s := Run(Init(capacity), Ops(f));
            FinishError(s) == Success && s.data == SerialAll(f) && s.below == [] && s.top == Level(0, Count(f), ARRAY)
  {
    AllRun(Init(capacity), f);
  }
}
