/**
  Size calculation: encoding into a null buffer of SIZE_MAX bytes, which holds none
  of them, tells exactly which real buffers are large enough for a sequence of calls.
 */
module SizeCalculation {
  import opened BigEndian
  import opened CborHead
  import opened EncoderSpec
  import opened EncoderSafety

  /** The same state with another capacity. */
  function WithCapacity(s: State, c: nat): State {
    s.(capacity := c)
  }

  /** A call into a smaller buffer does the same, or fills it: which, the resulting length decides. */
  ghost predicate Agrees(big: State, small: State, c: nat) {
    if big.full || |big.data| > c then small.full else small == WithCapacity(big, c)
  }

  lemma InsertAgrees(big: State, small: State, c: nat, added: bytes, pos: nat)
    requires Agrees(big, small, c) && c <= big.capacity && pos <= |big.data|
    ensures Agrees(Insert(big, added, pos), Insert(small, added, if small.full then |small.data| else pos), c)
  {
  }

  lemma AppendAgrees(big: State, small: State, c: nat, added: bytes)
    requires Agrees(big, small, c) && c <= big.capacity
    ensures Agrees(Append(big, added), Append(small, added), c)
  {
  }

  lemma IncrementAgrees(big: State, small: State, c: nat)
    requires Agrees(big, small, c)
    ensures Agrees(Increment(big), Increment(small), c)
  {
  }

  lemma BufferAgrees(s: State, c: nat, major: byte, b: bytes)
    requires c <= s.capacity && !s.full && |s.data| <= c
    ensures Agrees(AddBuffer(s, major, b), AddBuffer(WithCapacity(s, c), major, b), c)
  {
    var t := WithCapacity(s, c);
    var head := Head(if major == BSTR_LEN_ONLY then BYTE_STRING else major, 0, |b|);
    AppendAgrees(s, t, c, head);
    var s1, t1 := if major != RAW then Append(s, head) else s, if major != RAW then Append(t, head) else t;
    AppendAgrees(s1, t1, c, b);
    var s2 := if major != BSTR_LEN_ONLY then Append(s1, b) else s1;
    var t2 := if major != BSTR_LEN_ONLY then Append(t1, b) else t1;
    IncrementAgrees(s2, t2, c);
  }

  lemma InsertHeadAgrees(s: State, c: nat, major: byte, length: nat)
    requires Safe(s) && c <= s.capacity && !s.full && |s.data| <= c
    ensures Agrees(InsertHead(s, major, length), InsertHead(WithCapacity(s, c), major, length), c)
  {
    var head := Head(if major == OPEN_BSTR then BYTE_STRING else major, 0, length);
    InsertAgrees(s, WithCapacity(s, c), c, head, s.top.start);
  }

  lemma CloseBytesAgrees(s: State, c: nat, written: bytes)
    requires Safe(s) && c <= s.capacity && !s.full && |s.data| <= c
    ensures Agrees(CloseBytes(s, written), CloseBytes(WithCapacity(s, c), written), c)
  {
    var s1 := Append(s, written);
    AppendAgrees(s, WithCapacity(s, c), c, written);
    AppendGrows(s, written);
    if !s1.full {
      if |s1.data| <= c {
        InsertHeadAgrees(s1, c, OPEN_BSTR, |written|);
      } else {
        InsertHeadSafe(s1, OPEN_BSTR, |written|);
      }
    }
  }

  lemma OpenAgrees(big: State, small: State, c: nat, major: byte)
    requires Agrees(big, small, c)
    ensures Agrees(OpenMapOrArray(big, major), OpenMapOrArray(small, major), c)
  {
    IncrementAgrees(big, small, c);
  }

  lemma CloseAgrees(s: State, c: nat, kind: Kind)
    requires Safe(s) && c <= s.capacity && !s.full && |s.data| <= c
    ensures Agrees(Step(s, OpClose(kind)), Step(WithCapacity(s, c), OpClose(kind)), c)
  {
    hide Safe, InsertHead, CloseIndefinite, Agrees;
    if kind.Indefinite() {
      CloseIndefiniteAgrees(s, c, kind.Major());
    } else {
      InsertHeadAgrees(s, c, kind.Major(), if kind == BstrWrap then WrappedLength(s) else HeadCount(s));
    }
  }

  lemma CloseIndefiniteAgrees(s: State, c: nat, major: byte)
    requires Safe(s) && c <= s.capacity && !s.full && |s.data| <= c
    ensures Agrees(CloseIndefinite(s, major), CloseIndefinite(WithCapacity(s, c), major), c)
  {
    AppendAgrees(s, WithCapacity(s, c), c, Head(SIMPLE + INDEFINITE_MODIFIER, 0, SIMPLE_BREAK));
  }

  lemma ItemAgrees(s: State, c: nat, added: bytes)
    requires c <= s.capacity && !s.full && |s.data| <= c
    ensures Agrees(Increment(Append(s, added)), Increment(Append(WithCapacity(s, c), added)), c)
  {
    AppendAgrees(s, WithCapacity(s, c), c, added);
    IncrementAgrees(Append(s, added), Append(WithCapacity(s, c), added), c);
  }

  lemma OpenKindAgrees(s: State, c: nat, kind: Kind)
    requires c <= s.capacity && !s.full && |s.data| <= c
    ensures Agrees(Step(s, OpOpen(kind)), Step(WithCapacity(s, c), OpOpen(kind)), c)
  {
    var t, major := WithCapacity(s, c), kind.Major();
    if kind.Indefinite() {
      AppendAgrees(s, t, c, Head(major, 0, 0));
      OpenAgrees(AppendHead(s, major, 0, 0), AppendHead(t, major, 0, 0), c, major);
    } else {
      OpenAgrees(s, t, c, major);
    }
  }

  lemma OpenBytesAgrees(s: State, c: nat)
    requires c <= s.capacity && !s.full && |s.data| <= c
    ensures Agrees(OpenBytes(s), OpenBytes(WithCapacity(s, c)), c)
  {
    OpenAgrees(s, WithCapacity(s, c), c, OPEN_BSTR);
  }

  lemma Type7Agrees(s: State, c: nat, minLen: nat, bits: uint64)
    requires c <= s.capacity && !s.full && |s.data| <= c
    ensures Agrees(AddType7(s, minLen, bits), AddType7(WithCapacity(s, c), minLen, bits), c)
  {
    ItemAgrees(s, c, Head(SIMPLE, minLen, bits));
  }

  lemma TagAgrees(s: State, c: nat, tag: uint64)
    requires c <= s.capacity && !s.full && |s.data| <= c
    ensures Agrees(AddTag(s, tag), AddTag(WithCapacity(s, c), tag), c)
  {
    AppendAgrees(s, WithCapacity(s, c), c, Head(TAG, 0, tag));
  }

  lemma CancelAgrees(s: State, c: nat)
    requires c <= s.capacity && !s.full && |s.data| <= c
    ensures Agrees(CancelBstrWrap(s), CancelBstrWrap(WithCapacity(s, c)), c)
  {
  }

  lemma StepAgrees(s: State, c: nat, op: Op)
    requires Safe(s) && c <= s.capacity && !s.full && |s.data| <= c
    ensures Agrees(Step(s, op), Step(WithCapacity(s, c), op), c)
  {
    hide Agrees, Safe, Append, Increment, OpenMapOrArray, AddType7, CancelBstrWrap, OpenBytes, CloseBytes;
    match op
    case OpUInt(u) => ItemAgrees(s, c, Head(0, 0, u));
    case OpInt(n) => ItemAgrees(s, c, if n < 0 then Head(1, 0, -(n + 1)) else Head(0, 0, n));
    case OpBuffer(major, b) => BufferAgrees(s, c, major, b);
    case OpTag(tag) => TagAgrees(s, c, tag);
    case OpType7(minLen, bits) => Type7Agrees(s, c, minLen, bits);
    case OpOpen(kind) => OpenKindAgrees(s, c, kind);
    case OpClose(kind) => CloseAgrees(s, c, kind);
    case OpCancelWrap => CancelAgrees(s, c);
    case OpOpenBytes => OpenBytesAgrees(s, c);
    case OpCloseBytes(written) => CloseBytesAgrees(s, c, written);
  }

  lemma {:induction false} RunAgrees(s: State, c: nat, ops: seq<Op>)
    requires Safe(s) && c <= s.capacity && !s.full && |s.data| <= c
    ensures Agrees(Run(s, ops), Run(WithCapacity(s, c), ops), c)
    decreases ops
  {
    if ops != [] {
      var big, small := Step(s, ops[0]), Step(WithCapacity(s, c), ops[0]);
      StepSafe(s, ops[0]);
      StepSafe(WithCapacity(s, c), ops[0]);
      StepAgrees(s, c, ops[0]);
      RunSafe(big, ops[1..]);
      RunSafe(small, ops[1..]);
      if !small.full {
        RunAgrees(big, c, ops[1..]);
      }
    }
  }

  // ----- what a null buffer does not hold -----

  /** The same call with other bytes of the same number; in a null buffer nothing is stored. */
  predicate SameCall(a: Op, b: Op) {
    match a
    case OpBuffer(major, bs) => b.OpBuffer? && b.major == major && |b.b| == |bs|
    case OpCloseBytes(written) => b.OpCloseBytes? && |b.written| == |written|
    case _ => a == b
  }

  predicate SameCalls(a: seq<Op>, b: seq<Op>) {
    |a| == |b| && forall i :: 0 <= i < |a| ==> SameCall(a[i], b[i])
  }

  /** The same but for the bytes written, and as many of these. */
  predicate SameShape(s: State, t: State) {
    |t.data| == |s.data| && t.(data := s.data) == s
  }

  lemma InsertShape(s: State, t: State, a: bytes, b: bytes, pos: nat)
    requires SameShape(s, t) && |a| == |b|
    ensures SameShape(Insert(s, a, pos), Insert(t, b, pos)) && SameShape(Append(s, a), Append(t, b))
  {
  }

  lemma OpenShape(s: State, t: State, major: byte)
    requires SameShape(s, t)
    ensures SameShape(Increment(s), Increment(t)) && SameShape(OpenMapOrArray(s, major), OpenMapOrArray(t, major))
  {
  }

  lemma InsertHeadShape(s: State, t: State, major: byte, length: nat)
    requires SameShape(s, t)
    ensures SameShape(InsertHead(s, major, length), InsertHead(t, major, length))
  {
    var head := Head(if major == OPEN_BSTR then BYTE_STRING else major, 0, length);
    InsertShape(s, t, head, head, s.top.start);
  }

  lemma ItemShape(s: State, t: State, a: bytes, b: bytes)
    requires SameShape(s, t) && |a| == |b|
    ensures SameShape(Increment(Append(s, a)), Increment(Append(t, b)))
  {
    InsertShape(s, t, a, b, 0);
    OpenShape(Append(s, a), Append(t, b), 0);
  }

  lemma BufferShape(s: State, t: State, major: byte, a: bytes, b: bytes)
    requires SameShape(s, t) && |a| == |b|
    ensures SameShape(AddBuffer(s, major, a), AddBuffer(t, major, b))
  {
    var head := Head(if major == BSTR_LEN_ONLY then BYTE_STRING else major, 0, |a|);
    InsertShape(s, t, head, head, 0);
    hide SameShape, Append, Increment, Head;
    if major == BSTR_LEN_ONLY {
      ItemShape(s, t, head, head);
    } else if major == RAW {
      ItemShape(s, t, a, b);
    } else {
      ItemShape(Append(s, head), Append(t, head), a, b);
    }
  }

  lemma OpenKindShape(s: State, t: State, kind: Kind)
    requires SameShape(s, t)
    ensures SameShape(Step(s, OpOpen(kind)), Step(t, OpOpen(kind)))
  {
    var major := kind.Major();
    InsertShape(s, t, Head(major, 0, 0), Head(major, 0, 0), 0);
    hide SameShape, Append, OpenMapOrArray, Head;
    OpenShape(s, t, major);
    OpenShape(AppendHead(s, major, 0, 0), AppendHead(t, major, 0, 0), major);
  }

  lemma CloseKindShape(s: State, t: State, kind: Kind)
    requires SameShape(s, t)
    ensures SameShape(Step(s, OpClose(kind)), Step(t, OpClose(kind)))
  {
    if kind.Indefinite() {
      IndefiniteShape(s, t, kind.Major());
    } else {
      assert HeadCount(s) == HeadCount(t) && WrappedLength(s) == WrappedLength(t);
      hide SameShape, InsertHead, HeadCount, WrappedLength;
      InsertHeadShape(s, t, kind.Major(), if kind == BstrWrap then WrappedLength(s) else HeadCount(s));
    }
  }

  lemma IndefiniteShape(s: State, t: State, major: byte)
    requires SameShape(s, t)
    ensures SameShape(CloseIndefinite(s, major), CloseIndefinite(t, major))
  {
    var head := Head(SIMPLE + INDEFINITE_MODIFIER, 0, SIMPLE_BREAK);
    InsertShape(s, t, head, head, 0);
  }

  lemma CloseBytesShape(s: State, t: State, a: bytes, b: bytes)
    requires SameShape(s, t) && |a| == |b|
    ensures SameShape(CloseBytes(s, a), CloseBytes(t, b))
  {
    InsertShape(s, t, a, b, 0);
    InsertHeadShape(Append(s, a), Append(t, b), OPEN_BSTR, |a|);
  }

  lemma OtherShape(s: State, t: State, tag: uint64)
    requires SameShape(s, t)
    ensures SameShape(AddTag(s, tag), AddTag(t, tag))
    ensures SameShape(CancelBstrWrap(s), CancelBstrWrap(t)) && SameShape(OpenBytes(s), OpenBytes(t))
  {
    InsertShape(s, t, Head(TAG, 0, tag), Head(TAG, 0, tag), 0);
    OpenShape(s, t, OPEN_BSTR);
  }

  lemma Type7Shape(s: State, t: State, minLen: nat, bits: uint64)
    requires SameShape(s, t)
    ensures SameShape(AddType7(s, minLen, bits), AddType7(t, minLen, bits))
  {
    ItemShape(s, t, Head(SIMPLE, minLen, bits), Head(SIMPLE, minLen, bits));
  }

  /** No call makes length, levels, counts or errors depend on the bytes themselves. */
  lemma StepShape(s: State, t: State, a: Op, b: Op)
    requires SameShape(s, t) && SameCall(a, b)
    ensures SameShape(Step(s, a), Step(t, b))
  {
    hide SameShape, Append, Increment, AddBuffer, AddTag, AddType7, OpenMapOrArray, CancelBstrWrap, OpenBytes,
      CloseBytes, Head;
    match a
    case OpUInt(u) => ItemShape(s, t, Head(0, 0, u), Head(0, 0, u));
    case OpInt(n) =>
      var head := if n < 0 then Head(1, 0, -(n + 1)) else Head(0, 0, n);
      ItemShape(s, t, head, head);
    case OpBuffer(major, bs) => BufferShape(s, t, major, bs, b.b);
    case OpTag(tag) => OtherShape(s, t, tag);
    case OpType7(minLen, bits) => Type7Shape(s, t, minLen, bits);
    case OpOpen(kind) => OpenKindShape(s, t, kind);
    case OpClose(kind) => CloseKindShape(s, t, kind);
    case OpCancelWrap => OtherShape(s, t, 0);
    case OpOpenBytes => OtherShape(s, t, 0);
    case OpCloseBytes(written) => CloseBytesShape(s, t, written, b.written);
  }

  lemma {:induction false} RunShape(s: State, t: State, a: seq<Op>, b: seq<Op>)
    requires SameShape(s, t) && SameCalls(a, b)
    ensures SameShape(Run(s, a), Run(t, b))
    decreases a
  {
    if a != [] {
      StepShape(s, t, a[0], b[0]);
      hide SameShape, Step, SameCall;
      RunShape(Step(s, a[0]), Step(t, b[0]), a[1..], b[1..]);
    }
  }

  /**
    Let measured be the calls as made in a large buffer, or in a null one, where
    the bytes are of no account, and n the resulting length.  The same calls in a
    buffer of c bytes end alike when c >= n, and as BufferTooSmall otherwise.
   */
  lemma SizeCalculationDecides(ops: seq<Op>, measured: seq<Op>, large: nat, c: nat)
    requires SameCalls(ops, measured) && c <= large
    ensures var sized, actual := Run(Init(large), measured), Run(Init(c), ops);
            if !sized.full && |sized.data| <= c
              then SameShape(actual, WithCapacity(sized, c)) && FinishError(actual) == FinishError(sized)
            else FinishError(actual) == BufferTooSmall
    ensures var sized, actual := Run(Init(large), ops), Run(Init(c), ops);
            !sized.full && |sized.data| <= c ==> actual == WithCapacity(sized, c)
  {
    RunAgrees(Init(large), c, ops);
    RunShape(Init(large), Init(large), ops, measured);
    hide Run, SameCalls;
  }
}
