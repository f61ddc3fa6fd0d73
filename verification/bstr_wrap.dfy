/**
  Byte strings built in place: wrapping, cancelling a wrap, and writing straight
  into the output buffer, each against plainly adding the bytes.
 */
module BstrWrapping {
  import opened BigEndian
  import opened CborHead
  import opened EncoderSpec
  import opened CborForest
  import opened EncoderStuck

  /**
    Wrapping the calls of a forest is adding the bytes that an encoder of its own
    makes of them, exactly where the wrap fits: depth, offset and the count around
    are the only differences.
   */
  lemma WrapIsAddBytesIff(s: State, f: seq<Elem>, ownCapacity: nat)
    requires Healthy(s) && |s.below| <= MAX_NESTING && FitAll(f, 0, 0, false)
    requires |s.data| + |Serial(Group(BstrWrap, f))| <= s.capacity && |SerialAll(f)| <= ownCapacity
    ensures var own := Run(Init(ownCapacity), Ops(f));
            && FinishError(own) == Success
            && (FitsHere(Group(BstrWrap, f), s) <==>
                  Run(s, [OpOpen(BstrWrap)] + Ops(f) + [OpClose(BstrWrap)]) == AddBuffer(s, BYTE_STRING, own.data))
  {
    EncodesForest(ownCapacity, f);
    WrapBytes(f);
    ElemOpsOfWrap(f);
    hide *;
    if FitsHere(Group(BstrWrap, f), s) {
      ElemRun(s, Group(BstrWrap, f));
      WrapFitsHere(s, f);
      BufferRun(s, BYTE_STRING, SerialAll(f));
    } else {
      CannotWrap(s, f);
    }
  }

  lemma ElemOpsOfWrap(f: seq<Elem>)
    ensures ElemOps(Group(BstrWrap, f)) == [OpOpen(BstrWrap)] + Ops(f) + [OpClose(BstrWrap)]
            && Weight(Group(BstrWrap, f)) == 1
  {
  }

  lemma WrapFitsHere(s: State, f: seq<Elem>)
    ensures FitsHere(Group(BstrWrap, f), s) <==>
              && s.top.count < MAX_ITEMS - 1 && |s.data| < MAX_OFFSET && |s.below| < MAX_NESTING
              && FitAll(f, |s.data|, |s.below| + 1, false)
    ensures |Serial(Group(BstrWrap, f))| > |SerialAll(f)|
  {
    hide FitAll, SerialAll;
  }

  lemma CannotWrap(s: State, f: seq<Elem>)
    requires Healthy(s) && |s.below| <= MAX_NESTING && FitAll(f, 0, 0, false)
    requires |s.data| + |Serial(Group(BstrWrap, f))| <= s.capacity && !FitsHere(Group(BstrWrap, f), s)
    ensures var wrapped := Run(s, [OpOpen(BstrWrap)] + Ops(f) + [OpClose(BstrWrap)]);
            wrapped.error != AddBuffer(s, BYTE_STRING, SerialAll(f)).error
  {
    WrapFitsHere(s, f);
    WrapBytes(f);
    hide Run, Ops, FitAll, SerialAll, Serial, AddBuffer, Step, LeafBytes;
    AddBufferError(s, SerialAll(f));
    WrapOpens(s);
    var t := Step(s, OpOpen(BstrWrap));
    var rest := Ops(f) + [OpClose(BstrWrap)];
    assert [OpOpen(BstrWrap)] + Ops(f) + [OpClose(BstrWrap)] == [OpOpen(BstrWrap)] + rest;
    if Stuck(t) {
      StuckFrom(s, OpOpen(BstrWrap), rest);
    } else {
      RunConcat(s, [OpOpen(BstrWrap)] + Ops(f), [OpClose(BstrWrap)]);
      RunConcat(s, [OpOpen(BstrWrap)], Ops(f));
      RunOne(s, OpOpen(BstrWrap));
      if FitAll(f, |s.data|, |s.below| + 1, false) {
        AllRun(t, f);
        RunOne(Advanced(t, SerialAll(f), Count(f)), OpClose(BstrWrap));
        CountForgotten(s, SerialAll(f), Count(f));
      } else {
        UnfitStuck(t, f, 0, 0);
        RunStuck(Run(t, Ops(f)), [OpClose(BstrWrap)]);
      }
    }
  }

  lemma AddBufferError(s: State, b: bytes)
    requires Healthy(s)
    ensures AddBuffer(s, BYTE_STRING, b).error == if s.top.count < MAX_ITEMS - 1 then Success else ArrayTooLong
  {
  }

  /** The wrap opens, whether it could be counted or not, or it never will. */
  lemma WrapOpens(s: State)
    requires Healthy(s) && |s.below| <= MAX_NESTING
    ensures var t := Step(s, OpOpen(BstrWrap));
            if |s.data| < MAX_OFFSET && |s.below| < MAX_NESTING
            then t == Nested(if s.top.count < MAX_ITEMS - 1 then Advanced(s, [], 1) else s, BYTE_STRING)
              && t.data == s.data
            else Stuck(t)
  {
    assert s.data + [] == s.data;
  }

  /** A wrap that could not be counted ends without error. */
  lemma CountForgotten(s: State, body: bytes, count: nat)
    requires Healthy(s) && |s.data| + |Head(BYTE_STRING, 0, |body|)| + |body| <= s.capacity
    ensures Step(Advanced(Nested(s, BYTE_STRING), body, count), OpClose(BstrWrap)).error == Success
  {
    CloseRun(s, BstrWrap, body, count);
  }

  lemma WrapBytes(f: seq<Elem>)
    ensures Serial(Group(BstrWrap, f)) == Head(BYTE_STRING, 0, |SerialAll(f)|) + SerialAll(f)
            == LeafBytes(OpBuffer(BYTE_STRING, SerialAll(f)))
  {
  }

  /** What CloseBstrWrap2 hands back: offsets into the output after the close, or nothing when that failed. */
  function WrappedSlice(s: State, includeHead: bool): bytes {
    var t := CloseBstrWrap(s);
    var start := if includeHead then s.top.start else s.top.start + (|t.data| - |s.data|);
    if t.full || start > |t.data| || start < 0 then [] else t.data[start..]
  }

  /** It is the wrapped bytes, with or without the head that was slid in front of them. */
  lemma WrappedSliceIsInside(s: State, includeHead: bool)
    requires Healthy(s) && s.top.start <= |s.data|
    requires CloseBstrWrap(s).error == Success && !CloseBstrWrap(s).full
    ensures var inside := s.data[s.top.start..];
            WrappedSlice(s, includeHead) == if includeHead then Head(BYTE_STRING, 0, |inside|) + inside else inside
  {
    var head, inside := Head(BYTE_STRING, 0, WrappedLength(s)), s.data[s.top.start..];
    var t := CloseBstrWrap(s);
    assert t.data == s.data[..s.top.start] + (head + inside);
    assert t.data[s.top.start..] == head + inside;
    assert t.data[s.top.start + |head|..] == inside;
  }

  /** A wrap that is cancelled at once leaves no trace, exactly when it could be opened and counted. */
  lemma CancelRestoresIff(s: State)
    requires Healthy(s) && s.top.count < 0x1_0000
    ensures Run(s, [OpOpen(BstrWrap), OpCancelWrap]) == s <==>
              s.top.count < MAX_ITEMS - 1 && |s.below| != MAX_NESTING && |s.data| < MAX_OFFSET
  {
    TwoCalls(s, OpOpen(BstrWrap), OpCancelWrap);
    CancelIs(Step(s, OpOpen(BstrWrap)));
    OpenThenCancel(s);
  }

  lemma TwoCalls(s: State, a: Op, b: Op)
    ensures Run(s, [a, b]) == Step(Step(s, a), b)
  {
    hide Step;
    assert [a, b][1..] == [b];
    RunOne(Step(s, a), b);
  }

  lemma OpenThenCancel(s: State)
    requires Healthy(s) && s.top.count < 0x1_0000
    ensures CancelBstrWrap(OpenMapOrArray(s, BYTE_STRING)) == s <==>
              s.top.count < MAX_ITEMS - 1 && |s.below| != MAX_NESTING && |s.data| < MAX_OFFSET
  {
    var t := OpenMapOrArray(s, BYTE_STRING);
    if |s.below| != MAX_NESTING && |s.data| < MAX_OFFSET {
      assert t.below[..|t.below| - 1] == s.below;
    }
  }

  /** OpenBytes, writing, CloseBytes: the same as AddBytes exactly where a byte string can be opened. */
  lemma WriteInPlaceIsAddBytesIff(s: State, written: bytes)
    requires Healthy(s) && |s.below| <= MAX_NESTING
             && |s.data| + |LeafBytes(OpBuffer(BYTE_STRING, written))| <= s.capacity
    ensures Run(s, [OpOpenBytes, OpCloseBytes(written)]) == AddBuffer(s, BYTE_STRING, written)
       <==> FitsHere(OpenedBytes([], written), s)
  {
    hide Step, OpenBytes, CloseBytes, AddBuffer, Serial, LeafBytes, Run, Fits;
    TwoCalls(s, OpOpenBytes, OpCloseBytes(written));
    OpenBytesIs(s);
    CloseBytesIs(OpenBytes(s), written);
    if FitsHere(OpenedBytes([], written), s) {
      InPlaceRun(s, written);
    } else {
      CannotWriteInPlace(s, written);
    }
  }

  lemma OpenBytesIs(s: State)
    ensures Step(s, OpOpenBytes) == OpenBytes(s)
  {
    hide OpenBytes;
  }

  lemma InPlaceRun(s: State, written: bytes)
    requires Healthy(s) && FitsHere(OpenedBytes([], written), s)
    requires |s.data| + |LeafBytes(OpBuffer(BYTE_STRING, written))| <= s.capacity
    ensures Run(s, [OpOpenBytes, OpCloseBytes(written)]) == AddBuffer(s, BYTE_STRING, written)
  {
    OpenedBytesSerial(written);
    assert s.top.count < MAX_ITEMS - 1;
    hide Step, AddBuffer, Serial, LeafBytes, Run, Fits;
    ElemRun(s, OpenedBytes([], written));
    BufferRun(s, BYTE_STRING, written);
    assert [OpOpenBytes] + [] + [OpCloseBytes(written)] == [OpOpenBytes, OpCloseBytes(written)];
  }

  lemma OpenedBytesSerial(written: bytes)
    ensures Serial(OpenedBytes([], written)) == Head(BYTE_STRING, 0, |written|) + written
            == LeafBytes(OpBuffer(BYTE_STRING, written))
    ensures Ops([]) == []
  {
    assert [] + written == written;
  }

  lemma CannotWriteInPlace(s: State, written: bytes)
    requires Healthy(s) && |s.below| <= MAX_NESTING
             && |s.data| + |LeafBytes(OpBuffer(BYTE_STRING, written))| <= s.capacity
    requires !FitsHere(OpenedBytes([], written), s)
    ensures CloseBytes(OpenBytes(s), written) != AddBuffer(s, BYTE_STRING, written)
  {
    var t, u := CloseBytes(OpenBytes(s), written), AddBuffer(s, BYTE_STRING, written);
    assert FitAll([], |s.data|, |s.below| + 1, true);
    if s.top.count >= MAX_ITEMS - 1 {
      assert u.error == ArrayTooLong;
    } else {
      BufferRun(s, BYTE_STRING, written);
      assert u.error == Success;
      assert OpenBytes(s).error != Success;
    }
  }
}
