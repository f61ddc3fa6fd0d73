/**
  What every sequence of calls keeps, legal or not: bounds, order of the open
  levels, finished output, and which errors can be forgotten.
 */
module EncoderSafety {
  import opened BigEndian
  import opened CborHead
  import opened EncoderSpec

  predicate LevelInBounds(l: Level) {
    l.start < MAX_OFFSET && l.count < 0x1_0000
  }

  /** Levels within the C types whose starts do not decrease and do not pass a bound. */
  ghost predicate Ordered(ls: seq<Level>, bound: nat) {
    ls == [] || (
      var last := ls[|ls| - 1];
      last.start <= bound && LevelInBounds(last) && Ordered(ls[..|ls| - 1], last.start))
  }

  /** All open levels, outermost first. */
  function Levels(s: State): seq<Level> {
    s.below + [s.top]
  }

  ghost predicate Safe(s: State) {
    && |s.below| <= MAX_NESTING
    && Levels(s)[0].start == 0
    && Ordered(s.below, s.top.start)
    && LevelInBounds(s.top)
    && s.top.start <= |s.data| <= s.capacity
  }

  lemma {:induction false} OrderedAt(ls: seq<Level>, bound: nat, i: nat)
    requires Ordered(ls, bound) && i < |ls|
    ensures ls[i].start <= bound
  {
    if i < |ls| - 1 {
      OrderedAt(ls[..|ls| - 1], ls[|ls| - 1].start, i);
    }
  }

  /** What one call does to data: it grows, and stays as it was in front of the innermost open level. */
  ghost predicate DataExtends(s: State, t: State) {
    && t.capacity == s.capacity
    && s.top.start <= |s.data| <= |t.data|
    && t.data[..s.top.start] == s.data[..s.top.start]
    && (s.full ==> t.full && t.data == s.data)
  }

  /** And to the levels: only the innermost is touched, unless it closes or another opens inside it. */
  ghost predicate LevelsStep(s: State, t: State) {
    || (t.below == s.below && t.top.start == s.top.start && t.top.major == s.top.major)
    || (|t.below| == |s.below| + 1 && t.below[..|s.below|] == s.below
        && t.below[|s.below|].start == s.top.start && t.below[|s.below|].major == s.top.major)
    || (s.InNest() && t.below == s.below[..|s.below| - 1]
        && t.top.start == s.below[|s.below| - 1].start && t.top.major == s.below[|s.below| - 1].major)
  }

  ghost predicate SafeStep(s: State, t: State) {
    Safe(t) && DataExtends(s, t) && LevelsStep(s, t)
  }

  /** A step that neither opens nor closes. */
  ghost predicate Grows(s: State, t: State) {
    Safe(t) && DataExtends(s, t) && t.below == s.below && t.top.start == s.top.start && t.top.major == s.top.major
  }

  lemma GrowsThenStep(s: State, t: State, u: State)
    requires Grows(s, t)
    ensures Grows(t, u) ==> Grows(s, u)
    ensures SafeStep(t, u) ==> SafeStep(s, u)
  {
  }

  lemma InsertGrows(s: State, added: bytes, pos: nat)
    requires Safe(s) && s.top.start <= pos
    ensures Grows(s, Insert(s, added, pos))
  {
  }

  lemma AppendGrows(s: State, added: bytes)
    requires Safe(s)
    ensures Grows(s, Append(s, added))
  {
    AppendIsInsert(s, added);
    InsertGrows(s, added, |s.data|);
  }

  lemma IncrementGrows(s: State)
    requires Safe(s)
    ensures Grows(s, Increment(s))
  {
  }

  lemma ItemGrows(s: State, added: bytes)
    requires Safe(s)
    ensures Grows(s, Increment(Append(s, added)))
  {
    AppendGrows(s, added);
    IncrementGrows(Append(s, added));
    GrowsThenStep(s, Append(s, added), Increment(Append(s, added)));
  }

  lemma BufferGrows(s: State, major: byte, b: bytes)
    requires Safe(s)
    ensures Grows(s, AddBuffer(s, major, b))
  {
    var head := Head(if major == BSTR_LEN_ONLY then BYTE_STRING else major, 0, |b|);
    if major == RAW {
      ItemGrows(s, b);
    } else if major == BSTR_LEN_ONLY {
      ItemGrows(s, head);
    } else {
      AppendGrows(s, head);
      ItemGrows(Append(s, head), b);
      GrowsThenStep(s, Append(s, head), AddBuffer(s, major, b));
    }
  }

  lemma Type7Grows(s: State, minLen: nat, bits: uint64)
    requires Safe(s)
    ensures Grows(s, AddType7(s, minLen, bits))
  {
    ItemGrows(s, Head(SIMPLE, minLen, bits));
  }

  lemma OpenSafe(s: State, major: byte)
    requires Safe(s)
    ensures SafeStep(s, OpenMapOrArray(s, major))
  {
    var t := Increment(s);
    IncrementGrows(s);
    if |t.data| < MAX_OFFSET && |t.below| < MAX_NESTING {
      assert (t.below + [t.top])[..|t.below|] == t.below;
    }
  }

  lemma OpenIndefiniteSafe(s: State, major: byte)
    requires Safe(s)
    ensures SafeStep(s, OpenIndefinite(s, major))
  {
    AppendGrows(s, Head(major, 0, 0));
    OpenSafe(AppendHead(s, major, 0, 0), major);
    GrowsThenStep(s, AppendHead(s, major, 0, 0), OpenIndefinite(s, major));
  }

  lemma PopSafe(s: State, t: State)
    requires Grows(s, t)
    ensures SafeStep(s, t.Popped())
  {
  }

  lemma InsertHeadSafe(s: State, major: byte, length: nat)
    requires Safe(s)
    ensures SafeStep(s, InsertHead(s, major, length))
  {
    var head := Head(if major == OPEN_BSTR then BYTE_STRING else major, 0, length);
    InsertGrows(s, head, s.top.start);
    PopSafe(s, Insert(s, head, s.top.start));
  }

  lemma CloseIndefiniteSafe(s: State, major: byte)
    requires Safe(s)
    ensures SafeStep(s, CloseIndefinite(s, major))
  {
    var head := Head(SIMPLE + INDEFINITE_MODIFIER, 0, SIMPLE_BREAK);
    AppendGrows(s, head);
    PopSafe(s, Append(s, head));
  }

  lemma CloseBytesSafe(s: State, written: bytes)
    requires Safe(s)
    ensures SafeStep(s, CloseBytes(s, written))
  {
    var t := Append(s, written);
    AppendGrows(s, written);
    InsertHeadSafe(t, OPEN_BSTR, |written|);
    GrowsThenStep(s, t, CloseBytes(s, written));
  }

  lemma CancelSafe(s: State)
    requires Safe(s)
    ensures SafeStep(s, CancelBstrWrap(s))
  {
    PopSafe(s, s);
  }

  lemma GrowsIsStep(s: State, t: State)
    ensures Grows(s, t) ==> SafeStep(s, t)
  {
  }

  /** One call, whatever it is and in whatever state. */
  lemma StepSafe(s: State, op: Op)
    requires Safe(s)
    ensures SafeStep(s, Step(s, op))
  {
    hide Safe, SafeStep, Grows, Append, Increment, AddBuffer, AddType7, OpenMapOrArray, OpenIndefinite, InsertHead,
      CloseIndefinite,
      CancelBstrWrap, CloseBytes, WrappedLength, HeadCount, Head;
    GrowsIsStep(s, Step(s, op));
    match op
    case OpUInt(u) => ItemGrows(s, Head(0, 0, u));
    case OpInt(n) => ItemGrows(s, if n < 0 then Head(1, 0, -(n + 1)) else Head(0, 0, n));
    case OpBuffer(major, b) => BufferGrows(s, major, b);
    case OpTag(tag) => AppendGrows(s, Head(TAG, 0, tag));
    case OpType7(minLen, bits) => Type7Grows(s, minLen, bits);
    case OpOpen(kind) =>
      if kind.Indefinite() {
        OpenIndefiniteSafe(s, kind.Major());
      } else {
        OpenSafe(s, kind.Major());
      }
    case OpClose(kind) =>
      if kind.Indefinite() {
        CloseIndefiniteSafe(s, kind.Major());
      } else {
        InsertHeadSafe(s, kind.Major(), if kind == BstrWrap then WrappedLength(s) else HeadCount(s));
      }
    case OpCancelWrap => CancelSafe(s);
    case OpOpenBytes => OpenBytesSafe(s);
    case OpCloseBytes(written) => CloseBytesSafe(s, written);
  }

  lemma OpenBytesSafe(s: State)
    requires Safe(s)
    ensures SafeStep(s, OpenBytes(s))
  {
    OpenSafe(s, OPEN_BSTR);
  }

  lemma CountSafe(s: State, count: nat)
    requires Safe(s) && count < 0x1_0000
    ensures Safe(s.(top := s.top.(count := count)))
  {
  }

  lemma ErrorSafe(s: State, e: Error)
    requires Safe(s)
    ensures Safe(s.(error := e))
  {
  }

  /** Over any run: never past the capacity, and a full buffer stays full and untouched. */
  lemma {:induction false} RunSafe(s: State, ops: seq<Op>)
    requires Safe(s)
    ensures var t := Run(s, ops);
            && Safe(t) && t.capacity == s.capacity && |s.data| <= |t.data|
            && (s.full ==> t.full && t.data == s.data)
    decreases ops
  {
    if ops != [] {
      StepSafe(s, ops[0]);
      RunSafe(Step(s, ops[0]), ops[1..]);
    }
  }

  /** The level in slot d is not closed during the run. */
  ghost predicate StaysOpen(s: State, ops: seq<Op>, d: nat)
    decreases ops
  {
    d <= |s.below| && (ops != [] ==> StaysOpen(Step(s, ops[0]), ops[1..], d))
  }

  lemma StepKeepsLevel(s: State, op: Op, d: nat)
    requires Safe(s) && d <= |s.below| && d <= |Step(s, op).below|
    ensures var start, t := Levels(s)[d].start, Step(s, op);
            && Levels(t)[d].start == start && Levels(t)[d].major == Levels(s)[d].major
            && start <= |s.data| <= |t.data| && t.data[..start] == s.data[..start]
  {
    StepSafe(s, op);
    hide Step;
    SafeStepKeepsLevel(s, Step(s, op), d);
  }

  lemma SafeStepKeepsLevel(s: State, t: State, d: nat)
    requires Safe(s) && SafeStep(s, t) && d <= |s.below| && d <= |t.below|
    ensures var start := Levels(s)[d].start;
            && Levels(t)[d].start == start && Levels(t)[d].major == Levels(s)[d].major
            && start <= |s.data| <= |t.data| && t.data[..start] == s.data[..start]
  {
    var start := Levels(s)[d].start;
    if d < |s.below| {
      OrderedAt(s.below, s.top.start, d);
    }
    hide Ordered;
    assert t.data[..start] == t.data[..s.top.start][..start];
    assert s.data[..start] == s.data[..s.top.start][..start];
    if t.below != s.below && |t.below| == |s.below| + 1 && d < |s.below| {
      assert t.below[..|s.below|][d] == s.below[d];
    }
  }

  /** Everything in front of a level keeps its place and value until that level closes. */
  lemma {:induction false} PrefixFixedWhileOpen(s: State, ops: seq<Op>, d: nat)
    requires Safe(s) && StaysOpen(s, ops, d)
    ensures var start, t := Levels(s)[d].start, Run(s, ops);
            && d <= |t.below| && Levels(t)[d].start == start && Levels(t)[d].major == Levels(s)[d].major
            && start <= |s.data| <= |t.data| && t.data[..start] == s.data[..start]
    decreases ops
  {
    if ops == [] {
      if d < |s.below| {
        OrderedAt(s.below, s.top.start, d);
      }
    } else {
      StepKeepsLevel(s, ops[0], d);
      StepSafe(s, ops[0]);
      PrefixFixedWhileOpen(Step(s, ops[0]), ops[1..], d);
    }
  }

  /** When opening a level would not be refused for depth, offset or an open byte string. */
  predicate OpenGoesThrough(s: State, op: Op) {
    && op.Opening()
    && |s.below| < MAX_NESTING
    && (op.OpOpenBytes? ==> s.top.major != OPEN_BSTR)
    && |s.data| + (if op.OpOpen? && op.kind.Indefinite() && !s.full && |s.data| < s.capacity then 1 else 0) < MAX_OFFSET
  }

  /**
    The comment above QCBOREncode_Init says that errors are never cleared.  They
    are: exactly by an Open that goes through, which also forgets that its own
    item overflowed the count of the level around.
   */
  lemma ErrorForgottenIff(s: State, op: Op)
    requires |s.below| <= MAX_NESTING
    requires s.error != Success || (op.Opening() && s.top.count >= MAX_ITEMS - 1)
    ensures Step(s, op).error == Success <==> OpenGoesThrough(s, op)
  {
    if op.OpOpen? {
      IndefiniteHeads(0, 0);
    }
  }
}
