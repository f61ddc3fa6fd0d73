/**
  Calls made while a byte string is open (between OpenBytes and CloseBytes) are
  accepted, though their bytes end up in front of the caller's: an example, and the
  condition on the calls under which what is accepted is well-formed CBOR.
 */
module OpenBytesGuard {
  import opened BigEndian
  import opened CborHead
  import opened EncoderSpec
  import opened CborForest
  import opened CborDecoder
  import opened EncoderLegal

  /** No item is added and no level opened while a byte string is open. */
  predicate Guarded(s: State, ops: seq<Op>)
    decreases ops
  {
    ops == [] || (
      && (IsLeaf(ops[0]) || ops[0].Opening() ==> s.top.major != OPEN_BSTR)
      && Guarded(Step(s, ops[0]), ops[1..]))
  }

  /** Between OpenBytes and CloseBytes there is nothing, here and further inside. */
  predicate NothingInside(e: Elem)
    decreases e
  {
    match e
    case Leaf(_) => true
    case Group(_, items) => NothingInsideAll(items)
    case OpenedBytes(items, _) => items == []
    case Cancelled(items) => NothingInsideAll(items)
  }

  predicate NothingInsideAll(es: seq<Elem>)
    decreases es
  {
    es == [] || (NothingInsideAll(es[..|es| - 1]) && NothingInside(es[|es| - 1]))
  }

  lemma {:induction false} GuardedConcat(s: State, a: seq<Op>, b: seq<Op>)
    ensures Guarded(s, a + b) <==> Guarded(s, a) && Guarded(Run(s, a), b)
    decreases a
  {
    hide Step;
    if a == [] {
      assert a + b == b;
    } else {
      assert (a + b)[1..] == a[1..] + b;
      GuardedConcat(Step(s, a[0]), a[1..], b);
    }
  }

  lemma GuardedOne(s: State, op: Op)
    ensures Guarded(s, [op]) <==> (IsLeaf(op) || op.Opening() ==> s.top.major != OPEN_BSTR)
  {
    hide Step, IsLeaf;
    assert [op][1..] == [];
  }

  /** For the calls of a forest the guard says that nothing is put into an open byte string. */
  lemma {:induction false} GuardedIff(s: State, es: seq<Elem>)
    requires Healthy(s) && s.top.count == 0 && s.top.major != OPEN_BSTR
    requires FitAll(es, |s.data|, |s.below|, false) && |s.data| + |SerialAll(es)| <= s.capacity
    ensures Guarded(s, Ops(es)) <==> NothingInsideAll(es)
    decreases es, 0
  {
    if es != [] {
      var front, last := es[..|es| - 1], es[|es| - 1];
      AllSplit(es, |s.data|, |s.below|, false);
      var t := Advanced(s, SerialAll(front), Count(front));
      hide Run, Guarded, Ops, ElemOps, SerialAll, Serial, Count, Weight, FitAll, Fits, NothingInside;
      GuardedIff(s, front);
      AllRun(s, front);
      ElemGuardedIff(t, last);
      GuardedConcat(s, Ops(front), ElemOps(last));
    }
  }

  lemma {:induction false} ElemGuardedIff(s: State, e: Elem)
    requires Healthy(s) && FitsHere(e, s) && |s.data| + |Serial(e)| <= s.capacity && s.top.major != OPEN_BSTR
    ensures Guarded(s, ElemOps(e)) <==> NothingInside(e)
    decreases e, 2
  {
    hide Healthy, FitsHere, Serial, Guarded, NothingInsideAll;
    match e
    case Leaf(op) => GuardedOne(s, op);
    case Group(kind, items) => GroupGuardedIff(s, kind, items);
    case OpenedBytes(items, written) => OpenedBytesGuardedIff(s, items, written);
    case Cancelled(items) => CancelledGuardedIff(s, items);
  }

  lemma {:induction false} GroupGuardedIff(s: State, kind: Kind, items: seq<Elem>)
    requires Healthy(s) && FitsHere(Group(kind, items), s) && |s.data| + |Serial(Group(kind, items))| <= s.capacity
    requires s.top.major != OPEN_BSTR
    ensures Guarded(s, ElemOps(Group(kind, items))) <==> NothingInsideAll(items)
    decreases items, 2
  {
    hide Step, Guarded, Ops, FitAll, SerialAll, Count, OpeningBytes, Closed, NothingInsideAll;
    var outer := Advanced(s, OpeningBytes(kind), 1);
    OpenRun(s, kind);
    ClosedIsLonger(kind, SerialAll(items), Count(items));
    GuardedIff(Nested(outer, kind.Major()), items);
    BracketGuardedIff(s, OpOpen(kind), items, OpClose(kind), outer, kind.Major());
  }

  lemma {:induction false} CancelledGuardedIff(s: State, items: seq<Elem>)
    requires Healthy(s) && FitsHere(Cancelled(items), s) && |s.data| + |Serial(Cancelled(items))| <= s.capacity
    requires s.top.major != OPEN_BSTR
    ensures Guarded(s, ElemOps(Cancelled(items))) <==> NothingInsideAll(items)
    decreases items, 2
  {
    hide Step, Guarded, Ops, FitAll, SerialAll, Count, NothingInsideAll;
    var outer := Advanced(s, [], 1);
    OpenRun(s, BstrWrap);
    assert s.data + [] == s.data;
    GuardedIff(Nested(outer, BYTE_STRING), items);
    BracketGuardedIff(s, OpOpen(BstrWrap), items, OpCancelWrap, outer, BYTE_STRING);
  }

  lemma {:induction false} OpenedBytesGuardedIff(s: State, items: seq<Elem>, written: bytes)
    requires Healthy(s) && FitsHere(OpenedBytes(items, written), s)
    requires |s.data| + |Serial(OpenedBytes(items, written))| <= s.capacity && s.top.major != OPEN_BSTR
    ensures Guarded(s, ElemOps(OpenedBytes(items, written))) <==> items == []
    decreases items, 2
  {
    hide Guarded, Ops, FitAll, SerialAll, Count, OpenMapOrArray;
    var outer := Advanced(s, [], 1);
    OpenMapOrArrayRun(s, OPEN_BSTR);
    assert s.data + [] == s.data;
    assert Step(s, OpOpenBytes) == Nested(outer, OPEN_BSTR);
    hide Step;
    BracketGuardedIff(s, OpOpenBytes, items, OpCloseBytes(written), outer, OPEN_BSTR);
    NoCallsGuarded(Nested(outer, OPEN_BSTR));
    if items != [] {
      FirstAdds(items, |s.data|, |s.below| + 1, true);
      NotGuarded(Nested(outer, OPEN_BSTR), Ops(items));
    }
  }

  lemma NoCallsGuarded(s: State)
    ensures Guarded(s, Ops([]))
  {
  }

  lemma NotGuarded(s: State, ops: seq<Op>)
    requires ops != [] && (IsLeaf(ops[0]) || ops[0].Opening()) && s.top.major == OPEN_BSTR
    ensures !Guarded(s, ops)
  {
    hide Step;
  }

  /** The first call of a forest adds or opens. */
  lemma {:induction false} FirstAdds(es: seq<Elem>, pos: nat, depth: nat, inBytes: bool)
    requires es != [] && FitAll(es, pos, depth, inBytes)
    ensures Ops(es) != [] && (IsLeaf(Ops(es)[0]) || Ops(es)[0].Opening())
  {
    var front, last := es[..|es| - 1], es[|es| - 1];
    AllSplit(es, pos, depth, inBytes);
    hide FitAll, SerialAll, Ops;
    if front == [] {
      NoElems();
    } else {
      FirstAdds(front, pos, depth, inBytes);
    }
  }

  lemma {:induction false} BracketGuardedIff(s: State, open: Op, items: seq<Elem>, close: Op, outer: State, major: byte)
    requires s.top.major != OPEN_BSTR && !IsLeaf(close) && !close.Opening()
    requires Step(s, open) == Nested(outer, major)
    ensures Guarded(s, [open] + Ops(items) + [close]) <==> Guarded(Nested(outer, major), Ops(items))
  {
    hide Step, Ops, IsLeaf, Guarded, Run;
    GuardedOne(s, open);
    RunOne(s, open);
    GuardedConcat(s, [open], Ops(items));
    GuardedOne(Run(s, [open] + Ops(items)), close);
    GuardedConcat(s, [open] + Ops(items), [close]);
  }

  // ----- what the guard is good for -----

  /** The rest of what the caller must see to, as WellFormed has it. */
  predicate Sound(e: Elem)
    decreases e
  {
    match e
    case OpenedBytes(_, written) => |written| <= SIZE_MAX
    case Group(kind, items) =>
      if kind == BstrWrap then WellFormed(e)
      else SoundAll(items) && Count(items) <= SIZE_MAX && (kind == DefMap || kind == IndefMap ==> Count(items) % 2 == 0)
    case _ => WellFormed(e)
  }

  predicate SoundAll(es: seq<Elem>)
    decreases es
  {
    es == [] || (
      Sound(es[0]) && SoundAll(es[1..]) && (es[0].Leaf? && es[0].op.OpTag? ==> Count(es[1..]) > 0))
  }

  lemma {:induction false} NothingInsideFront(es: seq<Elem>)
    requires es != [] && NothingInsideAll(es)
    ensures NothingInside(es[0]) && NothingInsideAll(es[1..])
    decreases |es|
  {
    hide NothingInside;
    var front := es[..|es| - 1];
    if front != [] {
      NothingInsideFront(front);
      assert es[1..][..|es| - 2] == front[1..];
    }
  }

  lemma {:induction false} SoundWellFormed(es: seq<Elem>)
    requires SoundAll(es) && NothingInsideAll(es)
    ensures WellFormedAll(es)
    decreases es, 0
  {
    if es != [] {
      NothingInsideFront(es);
      SoundWellFormed(es[1..]);
      ElemWellFormed(es[0]);
      hide Sound, WellFormed, Count, NothingInside;
    }
  }

  lemma {:induction false} ElemWellFormed(e: Elem)
    requires Sound(e) && NothingInside(e)
    ensures WellFormed(e)
    decreases e, 1
  {
    if e.Group? && e.kind != BstrWrap {
      SoundWellFormed(e.items);
    }
  }

  /**
    The calls of a forest are read back as what they mean whenever they keep the
    guard, and they keep it exactly when the forest has nothing in an open byte string.
   */
  lemma GuardedReadsBack(f: seq<Elem>, ops: seq<Op>, capacity: nat)
    requires Describes(f, ops, capacity)
    ensures Guarded(Init(capacity), ops) <==> NothingInsideAll(f)
    ensures Guarded(Init(capacity), ops) && SoundAll(f) ==>
              var s := Run(Init(capacity), ops);
              WellFormedAll(f) && FinishError(s) == Success && DecodeSequence(s.data) == Got(MeaningAll(f), [])
  {
    hide Guarded, Run, Ops, FitAll, SerialAll, DecodeSequence, SoundAll, WellFormedAll, NothingInsideAll, MeaningAll;
    GuardedIff(Init(capacity), f);
    if NothingInsideAll(f) && SoundAll(f) {
      SoundWellFormed(f);
      EncodeThenDecode(capacity, f);
    }
  }

  /** A byte string with other calls inside is read back if and only if these leave no bytes. */
  lemma OpenedBytesReadBackIff(items: seq<Elem>, written: bytes)
    requires |written| <= SIZE_MAX
    ensures DecodeSequence(Serial(OpenedBytes(items, written))) == Got([ByteString(written)], []) <==>
              SerialAll(items) == []
  {
    var bs, shifted := Serial(OpenedBytes(items, written)), SerialAll(items) + written;
    var n := |written|;
    hide SerialAll, DecodeSequence;
    assert shifted == shifted[..n] + shifted[n..];
    assert bs == Head(BYTE_STRING, 0, n) + shifted[..n] + shifted[n..];
    ReadString(BYTE_STRING, shifted[..n], shifted[n..]);
    hide DecodeItem;
    OneItemOnly(bs, ByteString(shifted[..n]), shifted[n..]);
    if SerialAll(items) == [] {
      assert shifted[..n] == written;
    }
  }

  lemma OneItemOnly(bs: bytes, first: Data, rest: bytes)
    requires DecodeItem(bs) == Got(first, rest) && bs != []
    ensures rest == [] ==> DecodeSequence(bs) == Got([first], [])
    ensures rest != [] ==> DecodeSequence(bs).NotWellFormed? || |DecodeSequence(bs).value| > 1
  {
    hide DecodeItem;
    if rest == [] {
      assert DecodeSequence(rest) == Got([], []);
      assert [first] + [] == [first];
    }
  }

  /** Legal, accepted, one item counted: and read back as two items, neither of them the caller's three bytes. */
  lemma InsideOpenBytesExample()
    ensures var ops := [OpOpenBytes, OpUInt(7), OpCloseBytes([1, 2, 3])];
            var s := Run(Init(5), ops);
            && Legal(ops, 5) && FinishError(s) == Success && s.top.count == 1
            && s.data == [0x43, 7, 1, 2, 3]
            && DecodeSequence(s.data) == Got([ByteString([7, 1, 2]), Unsigned(3)], [])
  {
    var seven := [Leaf(OpUInt(7))];
    var e := OpenedBytes(seven, [1, 2, 3]);
    ExampleForest(seven, e);
    var ops := [OpOpenBytes, OpUInt(7), OpCloseBytes([1, 2, 3])];
    hide *;
    ExampleDecodes();
    assert Describes([e], ops, 5) by { ExampleDescribes(e, ops); }
    ExampleRuns(e, ops);
  }

  lemma ExampleForest(seven: seq<Elem>, e: Elem)
    requires seven == [Leaf(OpUInt(7))] && e == OpenedBytes(seven, [1, 2, 3])
    ensures SerialAll(seven) == [7] && Serial(e) == [0x43, 7, 1, 2, 3]
    ensures ElemOps(e) == [OpOpenBytes, OpUInt(7), OpCloseBytes([1, 2, 3])]
    ensures Fits(e, 0, 0, 0, false) && Weight(e) == 1
  {
    Single(Leaf(OpUInt(7)));
    assert seven[..0] == [];
    assert Head(0, 0, 7) == [7] && Head(BYTE_STRING, 0, 3) == [0x43];
    assert Fits(Leaf(OpUInt(7)), 0, 1, 0, true);
  }

  lemma ExampleDescribes(e: Elem, ops: seq<Op>)
    requires ElemOps(e) == ops && Fits(e, 0, 0, 0, false) && |Serial(e)| == 5
    ensures Describes([e], ops, 5)
  {
    hide ElemOps, Fits, Serial;
    Single(e);
    NoElems();
    assert [e][..0] == [];
    AllSplit([e], 0, 0, false);
  }

  lemma ExampleRuns(e: Elem, ops: seq<Op>)
    requires ElemOps(e) == ops && Fits(e, 0, 0, 0, false) && Serial(e) == [0x43, 7, 1, 2, 3] && Weight(e) == 1
    ensures var s := Run(Init(5), ops);
            Legal(ops, 5) && FinishError(s) == Success && s.top.count == 1 && s.data == Serial(e)
  {
    hide ElemOps, Fits, Serial, Run, Weight;
    ExampleDescribes(e, ops);
    Single(e);
    assert Describes([e], ops, 5);
    EncodesForest(5, [e]);
  }

  lemma ExampleDecodes()
    ensures DecodeSequence([0x43, 7, 1, 2, 3]) == Got([ByteString([7, 1, 2]), Unsigned(3)], [])
  {
    var bs: bytes := [0x43, 7, 1, 2, 3];
    ReadString(BYTE_STRING, [7, 1, 2], [3]);
    assert Head(BYTE_STRING, 0, 3) == [0x43];
    assert [0x43] + [7, 1, 2] + [3] == bs;
    ReadHead(0, 0, 3, []);
    assert Head(0, 0, 3) + [] == [3];
    assert DecodeItem([3]) == Got(Unsigned(3), []);
    OneItemOnly([3], Unsigned(3), []);
    hide DecodeItem;
    assert [ByteString([7, 1, 2])] + [Unsigned(3)] == [ByteString([7, 1, 2]), Unsigned(3)];
  }
}
