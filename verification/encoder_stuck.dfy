/**
  Too deep or too far into the buffer: the errors that no later call clears, and
  the proof that a forest which fits elsewhere but not here runs into them.
 */
module EncoderStuck {
  import opened BigEndian
  import opened CborHead
  import opened EncoderSpec
  import opened CborForest

  /** In error, and every further Open will fail. */
  predicate Stuck(s: State) {
    s.error != Success && s.error != ArrayTooLong && (|s.below| == MAX_NESTING || |s.data| >= MAX_OFFSET)
  }

  lemma OpenStuck(s: State, major: byte)
    requires Stuck(s)
    ensures Stuck(OpenMapOrArray(s, major))
  {
  }

  lemma AppendStuck(s: State, added: bytes)
    requires Stuck(s)
    ensures Stuck(Append(s, added)) && Increment(Append(s, added)) == Append(s, added)
  {
  }

  lemma BufferStuck(s: State, major: byte, b: bytes)
    requires Stuck(s)
    ensures Stuck(AddBuffer(s, major, b))
  {
    var head := Head(if major == BSTR_LEN_ONLY then BYTE_STRING else major, 0, |b|);
    hide Stuck, Append, Increment, Head;
    AppendStuck(s, head);
    AppendStuck(s, b);
    AppendStuck(Append(s, head), b);
    if major != BSTR_LEN_ONLY && major != RAW {
      assert AddBuffer(s, major, b) == Increment(Append(Append(s, head), b));
    }
  }

  lemma CloseStuck(s: State, major: byte, length: nat)
    requires Stuck(s)
    ensures InsertHead(s, major, length) == s && CloseIndefinite(s, major) == s && CancelBstrWrap(s) == s
  {
  }

  lemma StepStuck(s: State, op: Op)
    requires Stuck(s)
    ensures Stuck(Step(s, op))
  {
    AppendStuck(s, []);
    match op
    case OpUInt(u) => AppendStuck(s, Head(0, 0, u));
    case OpInt(n) => AppendStuck(s, if n < 0 then Head(1, 0, -(n + 1)) else Head(0, 0, n));
    case OpBuffer(major, b) => BufferStuck(s, major, b);
    case OpTag(tag) => AppendStuck(s, Head(TAG, 0, tag));
    case OpType7(minLen, bits) => AppendStuck(s, Head(SIMPLE, minLen, bits));
    case OpOpen(kind) =>
      AppendStuck(s, Head(kind.Major(), 0, 0));
      OpenStuck(if kind.Indefinite() then AppendHead(s, kind.Major(), 0, 0) else s, kind.Major());
    case OpClose(kind) => CloseStuck(s, kind.Major(), if kind == BstrWrap then WrappedLength(s) else HeadCount(s));
    case OpCancelWrap => CloseStuck(s, 0, 0);
    case OpOpenBytes => OpenStuck(s, OPEN_BSTR);
    case OpCloseBytes(written) =>
      AppendStuck(s, written);
      CloseStuck(Append(s, written), OPEN_BSTR, |written|);
  }

  lemma {:induction false} RunStuck(s: State, ops: seq<Op>)
    requires Stuck(s)
    ensures Stuck(Run(s, ops))
    decreases ops
  {
    if ops != [] {
      StepStuck(s, ops[0]);
      hide Step, Stuck;
      RunStuck(Step(s, ops[0]), ops[1..]);
    }
  }

  /** An opening that is refused for depth or offset. */
  lemma RefusedOpen(s: State, kind: Kind)
    requires Healthy(s) && |s.below| <= MAX_NESTING && |s.data| + |OpeningBytes(kind)| <= s.capacity
    requires !(|s.data| + |OpeningBytes(kind)| < MAX_OFFSET && |s.below| < MAX_NESTING)
    ensures Stuck(Step(s, OpOpen(kind)))
  {
    if kind.Indefinite() {
      IndefiniteHeads(0, 0);
      AppendIs(s, OpeningBytes(kind));
    }
  }

  lemma RefusedOpenBytes(s: State)
    requires Healthy(s) && |s.below| <= MAX_NESTING && s.top.major != OPEN_BSTR
    requires !(|s.data| < MAX_OFFSET && |s.below| < MAX_NESTING)
    ensures Stuck(Step(s, OpOpenBytes))
  {
  }

  /** A forest that fits at some other place and depth, but not here. */
  lemma {:induction false} UnfitStuck(s: State, es: seq<Elem>, pos: nat, depth: nat)
    requires Healthy(s) && s.top.count == 0 && |s.below| <= MAX_NESTING && |s.data| + |SerialAll(es)| <= s.capacity
    requires FitAll(es, pos, depth, s.top.major == OPEN_BSTR)
             && !FitAll(es, |s.data|, |s.below|, s.top.major == OPEN_BSTR)
    ensures Stuck(Run(s, Ops(es)))
    decreases es, 0
  {
    hide *;
    var inBytes := s.top.major == OPEN_BSTR;
    NothingIsFit(|s.data|, |s.below|, inBytes);
    assert es != [];
    var front, last := es[..|es| - 1], es[|es| - 1];
    AllSplit(es, |s.data|, |s.below|, inBytes);
    AllSplit(es, pos, depth, inBytes);
    if FitAll(front, |s.data|, |s.below|, inBytes) {
      LastUnfit(s, front, last, pos, depth);
      UnfitElemStuck(Run(s, Ops(front)), last, pos + |SerialAll(front)|, depth);
    } else {
      SerialIsLonger(s, front, last);
      UnfitStuck(s, front, pos, depth);
      RunStuck(Run(s, Ops(front)), ElemOps(last));
    }
    RunConcat(s, Ops(front), ElemOps(last));
  }

  lemma SerialIsLonger(s: State, front: seq<Elem>, last: Elem)
    ensures |SerialAll(front)| <= |SerialAll(front) + Serial(last)|
  {
  }

  lemma NothingIsFit(pos: nat, depth: nat, inBytes: bool)
    ensures FitAll([], pos, depth, inBytes)
  {
  }

  /** The first elements run through, and the last one stands where they end. */
  lemma LastUnfit(s: State, front: seq<Elem>, last: Elem, pos: nat, depth: nat)
    requires Healthy(s) && s.top.count == 0 && |s.below| <= MAX_NESTING
             && |s.data| + |SerialAll(front) + Serial(last)| <= s.capacity
    requires FitAll(front, |s.data|, |s.below|, s.top.major == OPEN_BSTR)
    requires Fits(last, pos + |SerialAll(front)|, depth, Count(front), s.top.major == OPEN_BSTR)
    requires !Fits(last, |s.data| + |SerialAll(front)|, |s.below|, Count(front), s.top.major == OPEN_BSTR)
    ensures var t := Run(s, Ops(front));
            && Healthy(t) && |t.below| <= MAX_NESTING && !FitsHere(last, t)
            && |t.data| + |Serial(last)| <= t.capacity
            && Fits(last, pos + |SerialAll(front)|, depth, t.top.count, t.top.major == OPEN_BSTR)
  {
    hide Run, Ops, SerialAll, Serial, Count, FitAll, Fits;
    AllRun(s, front);
  }

  lemma {:induction false} UnfitElemStuck(s: State, e: Elem, pos: nat, depth: nat)
    requires Healthy(s) && |s.below| <= MAX_NESTING && |s.data| + |Serial(e)| <= s.capacity
    requires Fits(e, pos, depth, s.top.count, s.top.major == OPEN_BSTR) && !FitsHere(e, s)
    ensures Stuck(Run(s, ElemOps(e)))
    decreases e, 1
  {
    match e
    case Leaf(_) =>
    case Group(kind, items) => UnfitGroupStuck(s, kind, items, pos + |OpeningBytes(kind)|, depth + 1);
    case OpenedBytes(items, written) => UnfitOpenedStuck(s, items, written, pos, depth + 1);
    case Cancelled(items) => UnfitCancelledStuck(s, items, pos, depth + 1);
  }

  lemma {:induction false} UnfitGroupStuck(s: State, kind: Kind, items: seq<Elem>, pos: nat, depth: nat)
    requires Healthy(s) && |s.below| <= MAX_NESTING && |s.data| + |Serial(Group(kind, items))| <= s.capacity
    requires s.top.count < MAX_ITEMS - 1 && FitAll(items, pos, depth, false) && !FitsHere(Group(kind, items), s)
    ensures Stuck(Run(s, ElemOps(Group(kind, items))))
    decreases items, 3
  {
    var start := |s.data| + |OpeningBytes(kind)|;
    ClosedIsLonger(kind, SerialAll(items), Count(items));
    NoByteString(kind);
    hide Step, Run, Stuck, Ops, FitAll, SerialAll, Count, OpeningBytes, Closed;
    if start < MAX_OFFSET && |s.below| < MAX_NESTING {
      OpenRun(s, kind);
      var outer := Advanced(s, OpeningBytes(kind), 1);
      InsideStuck(s, OpOpen(kind), items, OpClose(kind), outer, kind.Major(), pos, depth);
    } else {
      RefusedOpen(s, kind);
      StuckFrom(s, OpOpen(kind), Ops(items) + [OpClose(kind)]);
      assert [OpOpen(kind)] + (Ops(items) + [OpClose(kind)]) == [OpOpen(kind)] + Ops(items) + [OpClose(kind)];
    }
  }

  lemma NoByteString(kind: Kind)
    ensures kind.Major() != OPEN_BSTR
  {
  }

  lemma {:induction false} UnfitOpenedStuck(s: State, items: seq<Elem>, written: bytes, pos: nat, depth: nat)
    requires Healthy(s) && |s.below| <= MAX_NESTING && |s.data| + |Serial(OpenedBytes(items, written))| <= s.capacity
    requires s.top.count < MAX_ITEMS - 1 && s.top.major != OPEN_BSTR
    requires FitAll(items, pos, depth, true) && !FitsHere(OpenedBytes(items, written), s)
    ensures Stuck(Run(s, ElemOps(OpenedBytes(items, written))))
    decreases items, 3
  {
    hide Run, Stuck, Ops, FitAll, SerialAll, Count, OpenMapOrArray;
    if |s.data| < MAX_OFFSET && |s.below| < MAX_NESTING {
      OpenMapOrArrayRun(s, OPEN_BSTR);
      var outer := Advanced(s, [], 1);
      assert s.data + [] == s.data;
      assert Step(s, OpOpenBytes) == Nested(outer, OPEN_BSTR);
      hide Step;
      InsideStuck(s, OpOpenBytes, items, OpCloseBytes(written), outer, OPEN_BSTR, pos, depth);
    } else {
      hide Step;
      RefusedOpenBytes(s);
      StuckFrom(s, OpOpenBytes, Ops(items) + [OpCloseBytes(written)]);
      assert [OpOpenBytes] + (Ops(items) + [OpCloseBytes(written)])
             == [OpOpenBytes] + Ops(items) + [OpCloseBytes(written)];
    }
  }

  lemma {:induction false} UnfitCancelledStuck(s: State, items: seq<Elem>, pos: nat, depth: nat)
    requires Healthy(s) && |s.below| <= MAX_NESTING && |s.data| + |Serial(Cancelled(items))| <= s.capacity
    requires s.top.count < MAX_ITEMS - 1 && SerialAll(items) == []
    requires FitAll(items, pos, depth, false) && !FitsHere(Cancelled(items), s)
    ensures Stuck(Run(s, ElemOps(Cancelled(items))))
    decreases items, 3
  {
    hide Step, Run, Stuck, Ops, FitAll, SerialAll, Count;
    if |s.data| < MAX_OFFSET && |s.below| < MAX_NESTING {
      OpenRun(s, BstrWrap);
      var outer := Advanced(s, [], 1);
      assert s.data + [] == s.data;
      InsideStuck(s, OpOpen(BstrWrap), items, OpCancelWrap, outer, BYTE_STRING, pos, depth);
    } else {
      RefusedOpen(s, BstrWrap);
      StuckFrom(s, OpOpen(BstrWrap), Ops(items) + [OpCancelWrap]);
      assert [OpOpen(BstrWrap)] + (Ops(items) + [OpCancelWrap]) == [OpOpen(BstrWrap)] + Ops(items) + [OpCancelWrap];
    }
  }

  lemma StuckFrom(s: State, open: Op, rest: seq<Op>)
    requires Stuck(Step(s, open))
    ensures Stuck(Run(s, [open] + rest))
  {
    hide Step, Run, Stuck;
    RunConcat(s, [open], rest);
    RunOne(s, open);
    RunStuck(Step(s, open), rest);
  }

  /** The level opens, but what goes into it does not fit. */
  lemma {:induction false} InsideStuck(s: State, open: Op, items: seq<Elem>, close: Op, outer: State, major: byte,
                                       pos: nat, depth: nat)
    requires Step(s, open) == Nested(outer, major) && Healthy(outer) && |outer.below| < MAX_NESTING
    requires |outer.data| + |SerialAll(items)| <= outer.capacity
    requires FitAll(items, pos, depth, major == OPEN_BSTR)
             && !FitAll(items, |outer.data|, |outer.below| + 1, major == OPEN_BSTR)
    ensures Stuck(Run(s, [open] + Ops(items) + [close]))
    decreases items, 2
  {
    hide Step, Run, Stuck, Ops, FitAll, SerialAll;
    UnfitStuck(Nested(outer, major), items, pos, depth);
    RunConcat(s, [open] + Ops(items), [close]);
    RunConcat(s, [open], Ops(items));
    RunOne(s, open);
    RunStuck(Run(Nested(outer, major), Ops(items)), [close]);
  }
}
