/**
  Which calls the encoder accepts from any state without error: exactly those that
  put forests into its open levels and close these one after the other.
 */
module EncoderEndings {
  import opened BigEndian
  import opened CborHead
  import opened EncoderSpec
  import opened EncoderSafety
  import opened CborForest

  // ----- what it takes for a call to go through -----

  predicate GoesThrough(t: State) {
    t.error == Success && !t.full
  }

  lemma LeafGoesThrough(s: State, op: Op)
    requires Healthy(s) && IsLeaf(op) && GoesThrough(Step(s, op))
    ensures FitsHere(Leaf(op), s) && |s.data| + |LeafBytes(op)| <= s.capacity
  {
  }

  lemma OpenKindGoesThrough(s: State, kind: Kind)
    requires Healthy(s) && GoesThrough(Step(s, OpOpen(kind)))
    ensures |s.below| != MAX_NESTING && |s.data| + |OpeningBytes(kind)| < MAX_OFFSET
    ensures |s.data| + |OpeningBytes(kind)| <= s.capacity
  {
    IndefiniteHeads(0, 0);
  }

  lemma OpenBytesGoesThrough(s: State)
    requires Healthy(s) && GoesThrough(OpenBytes(s))
    ensures |s.below| != MAX_NESTING && |s.data| < MAX_OFFSET && s.top.major != OPEN_BSTR
  {
  }

  lemma InsertHeadGoesThrough(s: State, major: byte, length: nat)
    requires Healthy(s) && GoesThrough(InsertHead(s, major, length))
    ensures s.InNest() && s.top.major == major
    ensures |s.data| + |Head(if major == OPEN_BSTR then BYTE_STRING else major, 0, length)| <= s.capacity
  {
  }

  lemma CloseGoesThrough(s: State, kind: Kind)
    requires Healthy(s) && s.top.start <= |s.data| && GoesThrough(Step(s, OpClose(kind)))
    ensures s.InNest() && s.top.major == kind.Major()
    ensures forall body: bytes :: |body| == |s.data| - s.top.start ==>
              s.top.start + |Closed(kind, body, s.top.count)| <= s.capacity
  {
    if kind.Indefinite() {
      IndefiniteHeads(0, SIMPLE_BREAK);
    } else {
      DefiniteCloseIs(s, kind);
      InsertHeadGoesThrough(s, kind.Major(), if kind == BstrWrap then WrappedLength(s) else HeadCount(s));
    }
  }

  lemma CloseBytesGoesThrough(s: State, written: bytes)
    requires Healthy(s) && GoesThrough(CloseBytes(s, written))
    ensures s.InNest() && s.top.major == OPEN_BSTR
    ensures |s.data| + |written| + |Head(BYTE_STRING, 0, |written|)| <= s.capacity
  {
    InsertHeadGoesThrough(Append(s, written), OPEN_BSTR, |written|);
  }

  lemma CancelGoesThrough(s: State)
    requires Healthy(s) && GoesThrough(CancelBstrWrap(s))
    ensures s.InNest() && s.top.major == BYTE_STRING && s.top.start == |s.data|
  {
  }

  // ----- clean runs -----

  /** No level is opened after an error, or where its own item count overflows. */
  predicate Clean(s: State, ops: seq<Op>)
    decreases ops
  {
    ops == [] || (
      && (ops[0].Opening() ==> s.error == Success && s.top.count < MAX_ITEMS - 1)
      && Clean(Step(s, ops[0]), ops[1..]))
  }

  /** Without such an Open no error is forgotten. */
  lemma {:induction false} TroubleStays(s: State, ops: seq<Op>)
    requires Clean(s, ops) && !GoesThrough(s)
    ensures !GoesThrough(Run(s, ops))
    decreases ops
  {
    if ops != [] {
      TroubleStaysOnce(s, ops[0]);
      TroubleStays(Step(s, ops[0]), ops[1..]);
    }
  }

  lemma TroubleStaysOnce(s: State, op: Op)
    requires !GoesThrough(s) && (op.Opening() ==> s.error == Success)
    ensures !GoesThrough(Step(s, op))
  {
  }

  lemma {:induction false} CleanConcat(s: State, a: seq<Op>, b: seq<Op>)
    ensures Clean(s, a + b) <==> Clean(s, a) && Clean(Run(s, a), b)
    decreases a
  {
    if a == [] {
      assert a + b == b;
    } else {
      assert (a + b)[1..] == a[1..] + b;
      CleanConcat(Step(s, a[0]), a[1..], b);
    }
  }

  /** The calls of a forest that fits are clean. */
  lemma {:induction false} AllClean(s: State, es: seq<Elem>)
    requires Healthy(s) && s.top.count == 0
    requires FitAll(es, |s.data|, |s.below|, s.top.major == OPEN_BSTR)
    requires |s.data| + |SerialAll(es)| <= s.capacity
    ensures Clean(s, Ops(es))
    decreases es, 0
  {
    if es != [] {
      var front, last := es[..|es| - 1], es[|es| - 1];
      AllSplit(es, |s.data|, |s.below|, s.top.major == OPEN_BSTR);
      var t := Advanced(s, SerialAll(front), Count(front));
      hide Run, Clean, Ops, ElemOps, SerialAll, Serial, Count, Weight, FitAll, Fits;
      AllClean(s, front);
      AllRun(s, front);
      ElemClean(t, last);
      CleanConcat(s, Ops(front), ElemOps(last));
    }
  }

  lemma {:induction false} ElemClean(s: State, e: Elem)
    requires Healthy(s) && FitsHere(e, s) && |s.data| + |Serial(e)| <= s.capacity
    ensures Clean(s, ElemOps(e))
    decreases e, 2
  {
    hide Healthy, FitsHere, Serial, Clean;
    match e
    case Leaf(op) => LeafClean(s, op);
    case Group(kind, items) => GroupClean(s, kind, items);
    case OpenedBytes(items, written) => OpenedBytesClean(s, items, written);
    case Cancelled(items) => CancelledClean(s, items);
  }

  lemma LeafClean(s: State, op: Op)
    requires FitsHere(Leaf(op), s)
    ensures Clean(s, [op])
  {
    CleanOne(s, op);
  }

  lemma {:induction false} GroupClean(s: State, kind: Kind, items: seq<Elem>)
    requires Healthy(s) && FitsHere(Group(kind, items), s) && |s.data| + |Serial(Group(kind, items))| <= s.capacity
    ensures Clean(s, ElemOps(Group(kind, items)))
    decreases items, 2
  {
    hide Step, Clean, Ops, FitAll, SerialAll, Count, OpeningBytes, Closed;
    OpenRun(s, kind);
    ClosedIsLonger(kind, SerialAll(items), Count(items));
    BracketClean(s, OpOpen(kind), items, OpClose(kind), Advanced(s, OpeningBytes(kind), 1), kind.Major());
  }

  lemma {:induction false} OpenedBytesClean(s: State, items: seq<Elem>, written: bytes)
    requires Healthy(s) && FitsHere(OpenedBytes(items, written), s)
    requires |s.data| + |Serial(OpenedBytes(items, written))| <= s.capacity
    ensures Clean(s, ElemOps(OpenedBytes(items, written)))
    decreases items, 2
  {
    hide Clean, Ops, FitAll, SerialAll, Count, OpenMapOrArray;
    OpenMapOrArrayRun(s, OPEN_BSTR);
    assert s.data + [] == s.data;
    assert Step(s, OpOpenBytes) == Nested(Advanced(s, [], 1), OPEN_BSTR);
    hide Step;
    BracketClean(s, OpOpenBytes, items, OpCloseBytes(written), Advanced(s, [], 1), OPEN_BSTR);
  }

  lemma {:induction false} CancelledClean(s: State, items: seq<Elem>)
    requires Healthy(s) && FitsHere(Cancelled(items), s) && |s.data| + |Serial(Cancelled(items))| <= s.capacity
    ensures Clean(s, ElemOps(Cancelled(items)))
    decreases items, 2
  {
    hide Step, Clean, Ops, FitAll, SerialAll, Count;
    OpenRun(s, BstrWrap);
    assert s.data + [] == s.data;
    BracketClean(s, OpOpen(BstrWrap), items, OpCancelWrap, Advanced(s, [], 1), BYTE_STRING);
  }

  lemma {:induction false} BracketClean(s: State, open: Op, items: seq<Elem>, close: Op, outer: State, major: byte)
    requires Healthy(s) && s.top.count < MAX_ITEMS - 1 && !close.Opening()
    requires Step(s, open) == Nested(outer, major) && Healthy(outer)
    requires FitAll(items, |outer.data|, |outer.below| + 1, major == OPEN_BSTR)
    requires |outer.data| + |SerialAll(items)| <= outer.capacity
    ensures Clean(s, [open] + Ops(items) + [close])
    decreases items, 1
  {
    hide Step, FitAll, SerialAll, Ops;
    AllClean(Nested(outer, major), items);
    CleanOne(s, open);
    RunOne(s, open);
    CleanConcat(s, [open], Ops(items));
    CleanOne(Run(s, [open] + Ops(items)), close);
    CleanConcat(s, [open] + Ops(items), [close]);
  }

  lemma CleanOne(s: State, op: Op)
    ensures Clean(s, [op]) <==> (op.Opening() ==> s.error == Success && s.top.count < MAX_ITEMS - 1)
  {
    hide Step;
    assert [op][1..] == [];
  }


  // ----- forests at any place in a level -----

  /** es can be added where count items are already there. */
  predicate FitFrom(es: seq<Elem>, pos: nat, depth: nat, count: nat, inBytes: bool)
    decreases es
  {
    es == [] || (
      var front, last := es[..|es| - 1], es[|es| - 1];
      && FitFrom(front, pos, depth, count, inBytes)
      && Fits(last, pos + |SerialAll(front)|, depth, count + Count(front), inBytes))
  }

  predicate AllFitHere(es: seq<Elem>, s: State) {
    FitFrom(es, |s.data|, |s.below|, s.top.count, s.top.major == OPEN_BSTR) && |s.data| + |SerialAll(es)| <= s.capacity
  }

  lemma {:induction false} FitFromStart(es: seq<Elem>, pos: nat, depth: nat, inBytes: bool)
    ensures FitFrom(es, pos, depth, 0, inBytes) <==> FitAll(es, pos, depth, inBytes)
  {
    if es != [] {
      AllSplit(es, pos, depth, inBytes);
      FitFromStart(es[..|es| - 1], pos, depth, inBytes);
      hide Fits, FitAll, SerialAll, Count;
    }
  }

  lemma SplitFit(es: seq<Elem>, pos: nat, depth: nat, count: nat, inBytes: bool)
    requires es != []
    ensures var front, last := es[..|es| - 1], es[|es| - 1];
            FitFrom(es, pos, depth, count, inBytes) <==>
              FitFrom(front, pos, depth, count, inBytes)
                && Fits(last, pos + |SerialAll(front)|, depth, count + Count(front), inBytes)
  {
    hide Fits, SerialAll, Count;
  }

  lemma Cons(e: Elem, es: seq<Elem>)
    ensures SerialAll([e] + es) == Serial(e) + SerialAll(es) && Count([e] + es) == Weight(e) + Count(es)
    ensures Ops([e] + es) == ElemOps(e) + Ops(es)
  {
    hide *;
    Single(e);
    Concat([e], es);
  }

  /** From the front. */
  lemma {:induction false} ConsFit(e: Elem, es: seq<Elem>, pos: nat, depth: nat, count: nat, inBytes: bool)
    ensures FitFrom([e] + es, pos, depth, count, inBytes) <==>
              Fits(e, pos, depth, count, inBytes) && FitFrom(es, pos + |Serial(e)|, depth, count + Weight(e), inBytes)
    decreases |es|
  {
    hide *;
    if es == [] {
      OneFits(e, pos, depth, count, inBytes);
      assert [e] + es == [e];
    } else {
      var front, last := es[..|es| - 1], es[|es| - 1];
      ConsFit(e, front, pos, depth, count, inBytes);
      Cons(e, front);
      assert es == front + [last] && [e] + es == ([e] + front) + [last];
      assert pos + |SerialAll([e] + front)| == pos + |Serial(e)| + |SerialAll(front)|;
      assert count + Count([e] + front) == count + Weight(e) + Count(front);
      SnocFit([e] + front, last, pos, depth, count, inBytes);
      SnocFit(front, last, pos + |Serial(e)|, depth, count + Weight(e), inBytes);
    }
  }

  lemma SnocFit(front: seq<Elem>, last: Elem, pos: nat, depth: nat, count: nat, inBytes: bool)
    ensures FitFrom(front + [last], pos, depth, count, inBytes) <==>
              FitFrom(front, pos, depth, count, inBytes)
                && Fits(last, pos + |SerialAll(front)|, depth, count + Count(front), inBytes)
  {
    hide *;
    SplitFit(front + [last], pos, depth, count, inBytes);
    assert (front + [last])[..|front|] == front;
  }

  lemma OneFits(e: Elem, pos: nat, depth: nat, count: nat, inBytes: bool)
    ensures FitFrom([e], pos, depth, count, inBytes) <==> Fits(e, pos, depth, count, inBytes)
    ensures FitFrom([], pos + |Serial(e)|, depth, count + Weight(e), inBytes)
  {
    NothingFits(pos, depth, count, inBytes);
    NothingFits(pos + |Serial(e)|, depth, count + Weight(e), inBytes);
    NoElems();
    hide *;
    SnocFit([], e, pos, depth, count, inBytes);
    assert [] + [e] == [e];
  }

  lemma NothingFits(pos: nat, depth: nat, count: nat, inBytes: bool)
    ensures FitFrom([], pos, depth, count, inBytes)
  {
  }

  lemma {:induction false} AllRunFrom(s: State, es: seq<Elem>)
    requires Healthy(s) && AllFitHere(es, s)
    ensures Run(s, Ops(es)) == Advanced(s, SerialAll(es), Count(es)) && Clean(s, Ops(es))
    decreases |es|
  {
    if es == [] {
      NoElems();
      AdvancedByNothing(s);
    } else {
      SplitHere(s, es);
      hide *;
      var front, last := es[..|es| - 1], es[|es| - 1];
      var t := Advanced(s, SerialAll(front), Count(front));
      Split(es);
      AllRunFrom(s, front);
      ElemRun(t, last);
      ElemClean(t, last);
      RunConcat(s, Ops(front), ElemOps(last));
      CleanConcat(s, Ops(front), ElemOps(last));
      AdvancedTwice(s, SerialAll(front), Count(front), Serial(last), Weight(last));
    }
  }

  lemma SplitHere(s: State, es: seq<Elem>)
    requires Healthy(s) && es != [] && AllFitHere(es, s)
    ensures var front, last := es[..|es| - 1], es[|es| - 1];
            var t := Advanced(s, SerialAll(front), Count(front));
            AllFitHere(front, s) && Healthy(t) && FitsHere(last, t) && |t.data| + |Serial(last)| <= t.capacity
  {
    var front, last := es[..|es| - 1], es[|es| - 1];
    hide *;
    assert es == front + [last];
    Split(es);
    SnocHere(s, front, last);
  }

  lemma SnocHere(s: State, front: seq<Elem>, last: Elem)
    requires Healthy(s) && AllFitHere(front + [last], s) && SerialAll(front + [last]) == SerialAll(front) + Serial(last)
    ensures var t := Advanced(s, SerialAll(front), Count(front));
            AllFitHere(front, s) && Healthy(t) && FitsHere(last, t) && |t.data| + |Serial(last)| <= t.capacity
  {
    hide FitFrom, Fits, SerialAll, Serial, Count, Weight;
    SnocFit(front, last, |s.data|, |s.below|, s.top.count, s.top.major == OPEN_BSTR);
  }

  lemma PrimitivesKeepCapacity()
    ensures forall s: State, b: bytes :: Append(s, b).capacity == s.capacity
    ensures forall s: State :: Increment(s).capacity == s.capacity
    ensures forall s: State, major: byte, length: nat :: InsertHead(s, major, length).capacity == s.capacity
  {
  }

  lemma StepKeepsCapacity(s: State, op: Op)
    ensures Step(s, op).capacity == s.capacity
  {
    PrimitivesKeepCapacity();
    hide Append, Increment, InsertHead, Head, HeadCount, WrappedLength;
  }

  // ----- closing the open levels -----

  /** The call can close the innermost level. */
  predicate Closes(t: State, close: Op) {
    && t.InNest()
    && match close
       case OpClose(kind) => t.top.major == kind.Major()
       case OpCloseBytes(_) => t.top.major == OPEN_BSTR
       case OpCancelWrap => t.top.major == BYTE_STRING && t.top.start == |t.data|
       case _ => false
  }

  /** What the level becomes, given its bytes. */
  function ClosedBytes(t: State, body: bytes, close: Op): bytes {
    match close
    case OpClose(kind) => Closed(kind, body, t.top.count)
    case OpCloseBytes(written) => Head(BYTE_STRING, 0, |written|) + (body + written)
    case _ => body
  }

  /** Levels never start behind the end of the data. */
  function Start(t: State): (start: nat)
    ensures start <= |t.data|
  {
    if t.top.start <= |t.data| then t.top.start else |t.data|
  }

  /** And the level around it. */
  function AfterClose(t: State, close: Op): State {
    var outer := t.Popped().(data := t.data[..Start(t)] + ClosedBytes(t, t.data[Start(t)..], close));
    if close.OpCancelWrap? then outer.(top := outer.top.(count := Decremented(outer.top.count))) else outer
  }

  /**
    Calls that finish what is open: a forest in the innermost level, its close, a
    forest in the next, and so on outwards.
   */
  datatype Ending = Last(f: seq<Elem>) | Then(f: seq<Elem>, close: Op, more: Ending) {
    function Calls(): seq<Op> {
      match this
      case Last(f) => Ops(f)
      case Then(f, close, more) => Ops(f) + [close] + more.Calls()
    }

    /** Forests that fit, and closes that match, level by level. */
    predicate Ends(s: State)
      decreases this
    {
      && AllFitHere(f, s)
      && var t := Advanced(s, SerialAll(f), Count(f));
         match this
         case Last(_) => !s.InNest()
         case Then(_, close, more) =>
           && Closes(t, close) && |AfterClose(t, close).data| <= s.capacity
           && more.Ends(AfterClose(t, close))
    }
  }

  lemma InnerState(t: State) returns (outer: State, body: bytes)
    requires t.InNest() && t.top.start <= |t.data|
    ensures outer == t.Popped().(data := t.data[..t.top.start]) && body == t.data[t.top.start..]
    ensures t == Advanced(Nested(outer, t.top.major), body, t.top.count)
  {
    outer, body := t.Popped().(data := t.data[..t.top.start]), t.data[t.top.start..];
    assert t.below == t.below[..|t.below| - 1] + [t.below[|t.below| - 1]];
    assert t.data == t.data[..t.top.start] + t.data[t.top.start..];
  }

  /** A matching close for which there is room goes through and does just that. */
  lemma CloseIsAfter(t: State, close: Op)
    requires Healthy(t) && t.top.start <= |t.data| && Closes(t, close) && |AfterClose(t, close).data| <= t.capacity
    ensures Step(t, close) == AfterClose(t, close)
  {
    var outer, body := InnerState(t);
    match close
    case OpClose(kind) =>
      CloseRun(outer, kind, body, t.top.count);
    case OpCloseBytes(written) =>
      CloseBytesIs(t, written);
      CloseBytesRun(outer, body, t.top.count, written);
    case OpCancelWrap =>
      CancelIs(t);
      assert t.data[..|t.data|] + [] == t.data && t.data[|t.data|..] == [];
  }

  /** And only such a close goes through. */
  lemma OnlyMatchingCloses(t: State, close: Op)
    requires Healthy(t) && t.top.start <= |t.data| && !IsLeaf(close) && !close.Opening() && GoesThrough(Step(t, close))
    ensures Closes(t, close) && |AfterClose(t, close).data| <= t.capacity
  {
    match close
    case OpClose(kind) =>
      CloseGoesThrough(t, kind);
      assert |t.data[t.top.start..]| == |t.data| - t.top.start;
    case OpCloseBytes(written) =>
      CloseBytesIs(t, written);
      CloseBytesGoesThrough(t, written);
    case OpCancelWrap =>
      CancelIs(t);
      CancelGoesThrough(t);
  }

  lemma AfterCloseHealthy(t: State, close: Op)
    requires Healthy(t) && Safe(t) && Closes(t, close) && |AfterClose(t, close).data| <= t.capacity
    ensures Healthy(AfterClose(t, close)) && Safe(AfterClose(t, close))
    ensures Step(t, close) == AfterClose(t, close)
  {
    CloseIsAfter(t, close);
    StepSafe(t, close);
  }

  lemma ForestSafe(s: State, f: seq<Elem>)
    requires Healthy(s) && Safe(s) && AllFitHere(f, s)
    ensures var t := Advanced(s, SerialAll(f), Count(f)); Healthy(t) && Safe(t)
  {
    hide Run, Ops, SerialAll, Count, FitFrom, Safe;
    AllRunFrom(s, f);
    RunSafe(s, Ops(f));
  }

  /** Such calls are accepted. */
  lemma {:induction false} EndingRuns(s: State, c: Ending)
    requires Healthy(s) && Safe(s) && c.Ends(s)
    ensures Clean(s, c.Calls()) && GoesThrough(Run(s, c.Calls())) && !Run(s, c.Calls()).InNest()
    decreases c
  {
    var t := Advanced(s, SerialAll(c.f), Count(c.f));
    hide Run, Clean, Ops, SerialAll, Count, AllFitHere, Safe, Step, Closes, AfterClose;
    AllRunFrom(s, c.f);
    ForestSafe(s, c.f);
    if c.Then? {
      AfterCloseHealthy(t, c.close);
      var u := AfterClose(t, c.close);
      EndingRuns(u, c.more);
      ClosesIsNoOpening(t, c.close);
      CleanOne(t, c.close);
      RunOne(t, c.close);
      RunConcat(s, Ops(c.f), [c.close]);
      CleanConcat(s, Ops(c.f), [c.close]);
      RunConcat(s, Ops(c.f) + [c.close], c.more.Calls());
      CleanConcat(s, Ops(c.f) + [c.close], c.more.Calls());
    }
  }

  lemma ClosesIsNoOpening(t: State, close: Op)
    requires Closes(t, close)
    ensures !close.Opening()
  {
  }

  // ----- what an accepted run consists of -----

  function Prepended(e: Elem, c: Ending): Ending {
    c.(f := [e] + c.f)
  }

  lemma PrependFits(s: State, e: Elem, f: seq<Elem>)
    requires FitsHere(e, s) && AllFitHere(f, Advanced(s, Serial(e), Weight(e)))
    ensures AllFitHere([e] + f, s)
    ensures Advanced(s, SerialAll([e] + f), Count([e] + f))
            == Advanced(Advanced(s, Serial(e), Weight(e)), SerialAll(f), Count(f))
  {
    hide FitFrom, Fits, Serial, SerialAll, Count, Weight;
    ConsFit(e, f, |s.data|, |s.below|, s.top.count, s.top.major == OPEN_BSTR);
    Cons(e, f);
    AdvancedTwice(s, Serial(e), Weight(e), SerialAll(f), Count(f));
  }

  lemma PrependEnds(s: State, e: Elem, c: Ending)
    requires FitsHere(e, s) && c.Ends(Advanced(s, Serial(e), Weight(e)))
    ensures Prepended(e, c).Ends(s) && Prepended(e, c).Calls() == ElemOps(e) + c.Calls()
  {
    hide *;
    EndsIs(Advanced(s, Serial(e), Weight(e)), c);
    EndsIs(s, Prepended(e, c));
    PrependFits(s, e, c.f);
    PrependCalls(e, c);
    SameNest(s, Serial(e), Weight(e));
  }

  /** The states of the forest and of the ending. */
  lemma EndsIs(s: State, c: Ending)
    ensures c.Ends(s) <==>
              && AllFitHere(c.f, s)
              && var t := Advanced(s, SerialAll(c.f), Count(c.f));
                 if c.Last? then !s.InNest()
                 else
                   && Closes(t, c.close) && |AfterClose(t, c.close).data| <= s.capacity
                   && c.more.Ends(AfterClose(t, c.close))
  {
    hide AllFitHere, SerialAll, Count, Closes, AfterClose, Advanced;
  }

  lemma PrependCalls(e: Elem, c: Ending)
    ensures Prepended(e, c).Calls() == ElemOps(e) + c.Calls() && Prepended(e, c).f == [e] + c.f
    ensures Prepended(e, c).Last? == c.Last?
            && (c.Then? ==> Prepended(e, c).close == c.close && Prepended(e, c).more == c.more)
  {
    hide Ops, ElemOps;
    Cons(e, c.f);
    match c
    case Last(_) =>
    case Then(f, close, more) =>
      assert ElemOps(e) + Ops(f) + [close] + more.Calls() == ElemOps(e) + (Ops(f) + [close] + more.Calls());
  }

  lemma SameNest(s: State, added: bytes, items: nat)
    ensures Advanced(s, added, items).InNest() == s.InNest() && Advanced(s, added, items).capacity == s.capacity
  {
  }

  /** The element that a level becomes. */
  function ElemOf(opening: Op, items: seq<Elem>, close: Op): Elem
    requires opening.Opening()
  {
    if opening.OpOpenBytes? then OpenedBytes(items, if close.OpCloseBytes? then close.written else [])
    else if close.OpCancelWrap? then Cancelled(items)
    else Group(opening.kind, items)
  }

  /** An opening that goes through leads to a new level. */
  lemma OpensLevel(s: State, op: Op)
    requires Healthy(s) && |s.below| <= MAX_NESTING && op.Opening() && s.top.count < MAX_ITEMS - 1
             && GoesThrough(Step(s, op))
    ensures var opening := if op.OpOpen? then OpeningBytes(op.kind) else [];
            var major := if op.OpOpen? then op.kind.Major() else OPEN_BSTR;
            && |s.below| < MAX_NESTING && |s.data| + |opening| < MAX_OFFSET && |s.data| + |opening| <= s.capacity
            && (op.OpOpenBytes? ==> s.top.major != OPEN_BSTR)
            && Step(s, op) == Nested(Advanced(s, opening, 1), major)
  {
    if op.OpOpen? {
      OpenKindGoesThrough(s, op.kind);
      OpenRun(s, op.kind);
    } else {
      OpenBytesGoesThrough(s);
      OpenMapOrArrayRun(s, OPEN_BSTR);
    }
  }

  /** Opening, items and close make an element of the level around. */
  ghost predicate Encloses(s: State, op: Op, items: seq<Elem>, close: Op, u: State)
    requires op.Opening()
  {
    var e := ElemOf(op, items, close);
    && FitsHere(e, s) && |s.data| + |Serial(e)| <= s.capacity
    && u == Advanced(s, Serial(e), Weight(e)) && ElemOps(e) == [op] + Ops(items) + [close]
  }

  /** The level that a call opened in s, with items in it. */
  function Filled(s: State, opening: bytes, major: byte, items: seq<Elem>): State {
    Advanced(Nested(Advanced(s, opening, 1), major), SerialAll(items), Count(items))
  }

  /** Closing it. */
  lemma LevelCloses(s: State, opening: bytes, major: byte, items: seq<Elem>, close: Op)
    ensures var t := Filled(s, opening, major, items);
            && t.top.major == major && t.top.count == Count(items)
            && (t.top.start == |t.data| <==> SerialAll(items) == [])
            && var more := if close.OpCancelWrap? then 0 else 1;
               AfterClose(t, close) == Advanced(s, opening + ClosedBytes(t, SerialAll(items), close), more)
  {
    hide ClosedBytes, SerialAll, Count;
    var outer, body, count := Advanced(s, opening, 1), SerialAll(items), Count(items);
    var t := Filled(s, opening, major, items);
    NestedPopped(outer, major, body, count);
    assert t.data[..|outer.data|] == outer.data && t.data[|outer.data|..] == body;
    assert s.data + opening + ClosedBytes(t, body, close) == s.data + (opening + ClosedBytes(t, body, close));
  }

  lemma EnclosesGroup(s: State, kind: Kind, items: seq<Elem>, u: State)
    requires |s.below| < MAX_NESTING && s.top.count < MAX_ITEMS - 1 && |s.data| + |OpeningBytes(kind)| < MAX_OFFSET
    requires FitAll(items, |s.data| + |OpeningBytes(kind)|, |s.below| + 1, false)
    requires u == Advanced(s, OpeningBytes(kind) + Closed(kind, SerialAll(items), Count(items)), 1)
             && |u.data| <= s.capacity
    ensures Encloses(s, OpOpen(kind), items, OpClose(kind), u)
  {
    hide FitAll, SerialAll, Count, Ops, OpeningBytes, Closed;
    assert ElemOf(OpOpen(kind), items, OpClose(kind)) == Group(kind, items);
  }

  lemma EnclosesCancelled(s: State, items: seq<Elem>, u: State)
    requires |s.below| < MAX_NESTING && s.top.count < MAX_ITEMS - 1 && |s.data| < MAX_OFFSET && |s.data| <= s.capacity
    requires FitAll(items, |s.data|, |s.below| + 1, false) && SerialAll(items) == []
    requires u == Advanced(s, [], 0)
    ensures Encloses(s, OpOpen(BstrWrap), items, OpCancelWrap, u)
  {
    hide FitAll, SerialAll, Count, Ops;
    assert ElemOf(OpOpen(BstrWrap), items, OpCancelWrap) == Cancelled(items);
  }

  lemma EnclosesOpenedBytes(s: State, items: seq<Elem>, written: bytes, u: State)
    requires |s.below| < MAX_NESTING && s.top.count < MAX_ITEMS - 1 && |s.data| < MAX_OFFSET && s.top.major != OPEN_BSTR
    requires FitAll(items, |s.data|, |s.below| + 1, true)
    requires u == Advanced(s, Head(BYTE_STRING, 0, |written|) + (SerialAll(items) + written), 1)
             && |u.data| <= s.capacity
    ensures Encloses(s, OpOpenBytes, items, OpCloseBytes(written), u)
  {
    hide FitAll, SerialAll, Count, Ops, Head;
    assert ElemOf(OpOpenBytes, items, OpCloseBytes(written)) == OpenedBytes(items, written);
  }

  lemma LevelEncloses(s: State, op: Op, items: seq<Elem>, close: Op)
    requires Healthy(s) && |s.below| <= MAX_NESTING && op.Opening() && s.top.count < MAX_ITEMS - 1
             && GoesThrough(Step(s, op))
    requires AllFitHere(items, Step(s, op)) && Closes(Advanced(Step(s, op), SerialAll(items), Count(items)), close)
    requires |AfterClose(Advanced(Step(s, op), SerialAll(items), Count(items)), close).data| <= s.capacity
    ensures Encloses(s, op, items, close, AfterClose(Advanced(Step(s, op), SerialAll(items), Count(items)), close))
  {
    OpensLevel(s, op);
    hide Step, Healthy, GoesThrough, AllFitHere, Closes, AfterClose, Encloses, SerialAll, Count, Advanced, Nested;
    if op.OpOpenBytes? {
      FilledIs(s, [], OPEN_BSTR, items);
      OpenBytesEncloses(s, items, close);
    } else {
      FilledIs(s, OpeningBytes(op.kind), op.kind.Major(), items);
      OpenEncloses(s, op.kind, items, close);
    }
  }

  lemma FilledIs(s: State, opening: bytes, major: byte, items: seq<Elem>)
    ensures Filled(s, opening, major, items)
            == Advanced(Nested(Advanced(s, opening, 1), major), SerialAll(items), Count(items))
  {
    hide Advanced, Nested, SerialAll, Count;
  }

  lemma OpenBytesEncloses(s: State, items: seq<Elem>, close: Op)
    requires |s.below| < MAX_NESTING && |s.data| < MAX_OFFSET && s.top.major != OPEN_BSTR && s.top.count < MAX_ITEMS - 1
    requires AllFitHere(items, Nested(Advanced(s, [], 1), OPEN_BSTR))
    requires var t := Filled(s, [], OPEN_BSTR, items); Closes(t, close) && |AfterClose(t, close).data| <= s.capacity
    ensures Encloses(s, OpOpenBytes, items, close, AfterClose(Filled(s, [], OPEN_BSTR, items), close))
  {
    var t := Filled(s, [], OPEN_BSTR, items);
    hide *;
    NewLevelIsStart(s, [], OPEN_BSTR, items);
    LevelCloses(s, [], OPEN_BSTR, items, close);
    ClosesOpenBytes(t, close);
    ClosedOpenBytes(t, SerialAll(items), close);
    EnclosesOpenedBytes(s, items, close.written, AfterClose(t, close));
  }

  lemma ClosesOpenBytes(t: State, close: Op)
    requires Closes(t, close) && t.top.major == OPEN_BSTR
    ensures close.OpCloseBytes? && close == OpCloseBytes(close.written)
  {
  }

  lemma ClosedOpenBytes(t: State, body: bytes, close: Op)
    requires close.OpCloseBytes?
    ensures [] + ClosedBytes(t, body, close) == Head(BYTE_STRING, 0, |close.written|) + (body + close.written)
  {
    hide Head;
  }

  /** At the start of a new level counting begins anew. */
  lemma NewLevelIsStart(s: State, opening: bytes, major: byte, items: seq<Elem>)
    requires AllFitHere(items, Nested(Advanced(s, opening, 1), major))
    ensures FitAll(items, |s.data| + |opening|, |s.below| + 1, major == OPEN_BSTR)
  {
    FitFromStart(items, |s.data| + |opening|, |s.below| + 1, major == OPEN_BSTR);
    hide FitFrom, FitAll, SerialAll;
  }

  lemma OpenEncloses(s: State, kind: Kind, items: seq<Elem>, close: Op)
    requires |s.below| < MAX_NESTING && |s.data| + |OpeningBytes(kind)| < MAX_OFFSET && s.top.count < MAX_ITEMS - 1
             && |s.data| <= s.capacity
    requires AllFitHere(items, Nested(Advanced(s, OpeningBytes(kind), 1), kind.Major()))
    requires var t := Filled(s, OpeningBytes(kind), kind.Major(), items);
             Closes(t, close) && |AfterClose(t, close).data| <= s.capacity
    ensures Encloses(s,
            OpOpen(kind), items, close, AfterClose(Filled(s, OpeningBytes(kind), kind.Major(), items), close))
  {
    var t := Filled(s, OpeningBytes(kind), kind.Major(), items);
    NoOpenBytes(kind);
    hide *;
    NewLevelIsStart(s, OpeningBytes(kind), kind.Major(), items);
    LevelCloses(s, OpeningBytes(kind), kind.Major(), items, close);
    ClosesKind(t, close, kind);
    ClosedKind(t, SerialAll(items), close, kind);
    if close == OpClose(kind) {
      EnclosesGroup(s, kind, items, AfterClose(t, close));
    } else {
      EnclosesCancelled(s, items, AfterClose(t, close));
    }
  }

  lemma NoOpenBytes(kind: Kind)
    ensures kind.Major() != OPEN_BSTR
  {
  }

  lemma ClosesKind(t: State, close: Op, kind: Kind)
    requires Closes(t, close) && t.top.major == kind.Major()
    ensures close == OpClose(kind) || (close == OpCancelWrap && kind == BstrWrap && t.top.start == |t.data|)
  {
  }

  lemma ClosedKind(t: State, body: bytes, close: Op, kind: Kind)
    ensures close == OpClose(kind) ==>
              ClosedBytes(t, body, close) == Closed(kind, body, t.top.count) && !close.OpCancelWrap?
    ensures close == OpCancelWrap && kind == BstrWrap ==>
              OpeningBytes(kind) + ClosedBytes(t, body, close) == body && OpeningBytes(kind) == []
  {
    hide Closed;
  }

  /** Every clean run that is accepted ends what was open, forest by forest. */
  lemma {:induction false} AcceptedEnds(s: State, ops: seq<Op>) returns (c: Ending)
    requires Healthy(s) && Safe(s) && Clean(s, ops) && GoesThrough(Run(s, ops)) && !Run(s, ops).InNest()
    ensures c.Ends(s) && c.Calls() == ops
    decreases ops
  {
    hide *;
    if ops == [] {
      c := Last([]);
      NothingToDo(s);
    } else {
      var op := ops[0];
      FirstCall(s, ops);
      var c' := AcceptedEnds(Step(s, op), ops[1..]);
      c := FirstEnds(s, op, c');
      assert ops == [op] + ops[1..];
    }
  }

  lemma NothingToDo(s: State)
    requires Healthy(s) && !Run(s, []).InNest()
    ensures Last([]).Ends(s) && Last([]).Calls() == []
  {
    AdvancedByNothing(s);
  }

  lemma FirstCall(s: State, ops: seq<Op>)
    requires Healthy(s) && Safe(s) && ops != [] && Clean(s, ops) && GoesThrough(Run(s, ops))
    ensures var t := Step(s, ops[0]); Healthy(t) && Safe(t) && Clean(t, ops[1..]) && Run(s, ops) == Run(t, ops[1..])
    ensures ops[0].Opening() ==> s.top.count < MAX_ITEMS - 1
  {
    hide Step, Ordered;
    StepSafe(s, ops[0]);
    if !GoesThrough(Step(s, ops[0])) {
      TroubleStays(Step(s, ops[0]), ops[1..]);
    }
  }

  /** One call in front of an ending. */
  lemma FirstEnds(s: State, op: Op, c': Ending) returns (c: Ending)
    requires Healthy(s) && Safe(s) && Healthy(Step(s, op)) && c'.Ends(Step(s, op))
             && (op.Opening() ==> s.top.count < MAX_ITEMS - 1)
    ensures c.Ends(s) && c.Calls() == [op] + c'.Calls()
  {
    hide Step, AllFitHere, Closes, AfterClose, Ordered, Encloses, LeafBytes;
    if IsLeaf(op) {
      LeafGoesThrough(s, op);
      LeafRun(s, op);
      PrependEnds(s, Leaf(op), c');
      c := Prepended(Leaf(op), c');
    } else if op.Opening() {
      c := OpeningEnds(s, op, c');
    } else {
      c := ClosingEnds(s, op, c');
    }
  }

  lemma ClosingEnds(s: State, op: Op, c': Ending) returns (c: Ending)
    requires Healthy(s) && Safe(s) && Healthy(Step(s, op)) && c'.Ends(Step(s, op)) && !IsLeaf(op) && !op.Opening()
    ensures c.Ends(s) && c.Calls() == [op] + c'.Calls()
  {
    hide Step, Closes, AfterClose, Ordered;
    OnlyMatchingCloses(s, op);
    CloseIsAfter(s, op);
    AdvancedByNothing(s);
    NothingFits(|s.data|, |s.below|, s.top.count, s.top.major == OPEN_BSTR);
    NoElems();
    ClosesIsInNest(s, op);
    c := Then([], op, c');
    assert [] + [op] + c'.Calls() == [op] + c'.Calls();
  }

  lemma ClosesIsInNest(s: State, op: Op)
    requires Closes(s, op)
    ensures s.InNest()
  {
  }

  lemma OpeningEnds(s: State, op: Op, c': Ending) returns (c: Ending)
    requires Healthy(s) && Safe(s) && Healthy(Step(s, op)) && c'.Ends(Step(s, op)) && op.Opening()
             && s.top.count < MAX_ITEMS - 1
    ensures c.Ends(s) && c.Calls() == [op] + c'.Calls()
  {
    OpensLevel(s, op);
    hide Step, AllFitHere, Closes, AfterClose, Ordered, Encloses, LeafBytes, Prepended;
    assert c'.Then?;
    StepKeepsCapacity(s, op);
    LevelEncloses(s, op, c'.f, c'.close);
    c := EnclosedEnds(s, op, c');
  }

  lemma EnclosedEnds(s: State, op: Op, c': Ending) returns (c: Ending)
    requires op.Opening() && c'.Then? && Step(s, op).capacity == s.capacity && c'.Ends(Step(s, op))
    requires Encloses(s, op, c'.f, c'.close, AfterClose(Advanced(Step(s, op), SerialAll(c'.f), Count(c'.f)), c'.close))
    ensures c.Ends(s) && c.Calls() == [op] + c'.Calls()
  {
    hide Step, AllFitHere, Closes, AfterClose, SerialAll, Count, Ops, Serial, Weight, ElemOps, Fits, ElemOf;
    var e := ElemOf(op, c'.f, c'.close);
    PrependEnds(s, e, c'.more);
    c := Prepended(e, c'.more);
    assert [op] + Ops(c'.f) + [c'.close] + c'.more.Calls() == [op] + (Ops(c'.f) + [c'.close] + c'.more.Calls());
  }
}
