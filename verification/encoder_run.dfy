/**
  Any list of calls, made on the encoder in place, with the strings and bytes
  coming from buffers of the caller: the theorems about runs hold of the class.
 */
module EncoderRun {
  import opened BigEndian
  import opened UsefulBuf
  import opened EncoderSpec
  import BstrWrapping
  import EncoderSafety
  import opened CborForest
  import opened CborDecoder
  import opened EncoderEndings
  import opened EncoderLegal
  import opened QcborEncode
  import opened QcborWrappers
  import opened SizeCalculation

  /** Arguments as the C types have them: lengths of type size_t, minimum lengths up to 8. */
  predicate Passable(op: Op) {
    && (op.OpBuffer? ==> |op.b| <= SIZE_MAX)
    && (op.OpCloseBytes? ==> |op.written| <= SIZE_MAX)
    && (op.OpType7? ==> op.minLen <= 8)
  }

  /** The call as it counts: what is written in place is lost when there is no storage. */
  function Stored(op: Op, storage: array?<byte>): Op {
    if storage == null && op.OpCloseBytes? then OpCloseBytes(seq(|op.written|, _ => 0)) else op
  }

  function StoredAll(ops: seq<Op>, storage: array?<byte>): (stored: seq<Op>)
    ensures |stored| == |ops| && forall i :: 0 <= i < |ops| ==> stored[i] == Stored(ops[i], storage)
  {
    seq(|ops|, i requires 0 <= i < |ops| => Stored(ops[i], storage))
  }

  function Objects(storage: array?<byte>): set<object> {
    if storage == null then {} else {storage}
  }

  /** place is where a caller can write; it moves on with every OpenBytes. */
  method Perform(c: EncodeContext, op: Op, place: UsefulBufC) returns (next: UsefulBufC)
    requires c.Valid() && Passable(op)
    requires op.OpCloseBytes? ==> place == c.EndPlace(|c.contents|)
    modifies c.Repr()
    ensures c.Valid() && c.Abs() == Step(old(c.Abs()), Stored(op, c.outBuf.storage))
    ensures op.OpOpenBytes? ==> next == c.EndPlace(|c.contents|)
  {
    hide Step, EncoderSafety.Safe, EncodeContext.EndPlace;
    next := place;
    match op
    case OpUInt(u) => PerformUInt(c, u);
    case OpInt(n) => PerformInt(c, n);
    case OpBuffer(major, b) => PerformAdd(c, major, b);
    case OpTag(tag) => PerformTag(c, tag);
    case OpType7(minLen, bits) => PerformType7(c, minLen, bits);
    case OpOpen(kind) => PerformOpen(c, kind);
    case OpClose(kind) => PerformClose(c, kind);
    case OpCancelWrap => PerformCancel(c);
    case OpOpenBytes => next := PerformOpenBytes(c);
    case OpCloseBytes(written) => PerformCloseBytes(c, written, place);
  }

  method PerformUInt(c: EncodeContext, u: uint64)
    requires c.Valid()
    modifies c.Repr()
    ensures c.Valid() && c.Abs() == Step(old(c.Abs()), OpUInt(u))
  {
    c.AddUInt64(u);
  }

  method PerformInt(c: EncodeContext, n: int64)
    requires c.Valid()
    modifies c.Repr()
    ensures c.Valid() && c.Abs() == Step(old(c.Abs()), OpInt(n))
  {
    c.AddInt64(n);
  }

  method PerformTag(c: EncodeContext, tag: uint64)
    requires c.Valid()
    modifies c.Repr()
    ensures c.Valid() && c.Abs() == Step(old(c.Abs()), OpTag(tag))
  {
    c.AddTag(tag);
  }

  method PerformType7(c: EncodeContext, minLen: byte, bits: uint64)
    requires c.Valid() && minLen <= 8
    modifies c.Repr()
    ensures c.Valid() && c.Abs() == Step(old(c.Abs()), OpType7(minLen, bits))
  {
    c.AddType7(minLen, bits);
  }

  method PerformCancel(c: EncodeContext)
    requires c.Valid()
    modifies c.Repr()
    ensures c.Valid() && c.Abs() == Step(old(c.Abs()), OpCancelWrap)
  {
    c.CancelBstrWrap();
  }

  method PerformOpenBytes(c: EncodeContext) returns (place: UsefulBufC)
    requires c.Valid()
    modifies c.Repr()
    ensures c.Valid() && c.Abs() == Step(old(c.Abs()), OpOpenBytes)
    ensures c.contents == old(c.contents) && place == c.EndPlace(|c.contents|)
  {
    place := c.OpenBytes();
  }

  method PerformAdd(c: EncodeContext, major: byte, b: bytes)
    requires c.Valid() && |b| <= SIZE_MAX
    modifies c.Repr()
    ensures c.Valid() && c.Abs() == Step(old(c.Abs()), OpBuffer(major, b))
  {
    var source := new byte[|b|](i requires 0 <= i < |b| => b[i]);
    var ub := UsefulBufC(source, 0, |b|);
    assert ub.Value() == b;
    c.AddBuffer(major, ub);
  }

  method PerformOpen(c: EncodeContext, kind: Kind)
    requires c.Valid()
    modifies c.Repr()
    ensures c.Valid() && c.Abs() == Step(old(c.Abs()), OpOpen(kind))
  {
    OpenIs(c.Abs(), kind);
    hide Step, OpenIndefinite, OpenMapOrArray, EncoderSafety.Safe;
    if kind.Indefinite() {
      c.OpenMapOrArrayIndefiniteLength(kind.Major());
    } else {
      c.OpenMapOrArray(kind.Major());
    }
  }

  method PerformClose(c: EncodeContext, kind: Kind)
    requires c.Valid()
    modifies c.Repr()
    ensures c.Valid() && c.Abs() == Step(old(c.Abs()), OpClose(kind))
  {
    if kind == BstrWrap {
      CloseBstrWrapIs(c.Abs());
    } else {
      CloseIs(c.Abs(), kind);
    }
    hide Step, CloseIndefinite, CloseMapOrArray, CloseBstrWrap, EncoderSafety.Safe;
    if kind.Indefinite() {
      c.CloseMapOrArrayIndefiniteLength(kind.Major());
    } else if kind == BstrWrap {
      var _ := c.CloseBstrWrap2(true);
    } else {
      c.CloseMapOrArray(kind.Major());
    }
  }

  lemma CloseBstrWrapIs(s: State)
    ensures Step(s, OpClose(BstrWrap)) == CloseBstrWrap(s)
  {
    hide CloseBstrWrap;
  }

  /** The caller writes into the place that it was given, as far as there is one with room enough. */
  method WriteAt(c: EncodeContext, written: bytes, place: UsefulBufC)
    requires c.Valid() && |written| <= SIZE_MAX && place == c.EndPlace(|c.contents|)
    modifies c.Repr()
    ensures c.Valid() && c.Abs() == old(c.Abs()) && unchanged(c) && unchanged(c.nesting) && unchanged(c.outBuf)
    ensures c.outBuf.storage == null ==> c.PlaceBytes(|written|) == seq(|written|, _ => 0)
    ensures c.outBuf.storage != null && |written| <= c.outBuf.capacity - c.outBuf.dataLen ==>
              c.PlaceBytes(|written|) == written
  {
    hide EncoderSafety.Safe;
    if place.ptr != null && |written| <= place.len {
      forall i | 0 <= i < |written| {
        place.ptr[place.off + i] := written[i];
      }
      assert place.ptr[..place.off] == old(place.ptr[..place.off]);
    }
  }

  /** Then it closes. */
  method PerformCloseBytes(c: EncodeContext, written: bytes, place: UsefulBufC)
    requires c.Valid() && |written| <= SIZE_MAX && place == c.EndPlace(|c.contents|)
    modifies c.Repr()
    ensures c.Valid() && c.Abs() == Step(old(c.Abs()), Stored(OpCloseBytes(written), c.outBuf.storage))
  {
    hide InsertHead, EncoderSafety.Safe, EncodeContext.EndPlace, EncodeContext.PlaceBytes;
    WriteAt(c, written, place);
    c.CloseBytes(|written|);
  }

  /**
    OpenBytes, writing into the place it returns, CloseBytes: what becomes of the
    encoder, which where the byte string fits is what AddBytes would make of it.
   */
  method WriteInPlace(c: EncodeContext, written: bytes)
    requires c.Valid() && |written| <= SIZE_MAX && c.outBuf.storage != null
    modifies c.Repr()
    ensures c.Valid() && c.Abs() == Run(old(c.Abs()), [OpOpenBytes, OpCloseBytes(written)])
    ensures var s := old(c.Abs());
            Healthy(s) && |s.data| + |LeafBytes(OpBuffer(BYTE_STRING, written))| <= s.capacity ==>
              (c.Abs() == AddBuffer(s, BYTE_STRING, written) <==> FitsHere(OpenedBytes([], written), s))
  {
    hide Step, Run, EncoderSafety.Safe, EncodeContext.EndPlace, AddBuffer, LeafBytes, Fits;
    ghost var s := c.Abs();
    BstrWrapping.TwoCalls(s, OpOpenBytes, OpCloseBytes(written));
    if Healthy(s) && |s.data| + |LeafBytes(OpBuffer(BYTE_STRING, written))| <= s.capacity {
      SafeDepth(s);
      BstrWrapping.WriteInPlaceIsAddBytesIff(s, written);
    }
    var place := PerformOpenBytes(c);
    PerformCloseBytes(c, written, place);
  }

  lemma SafeDepth(s: State)
    requires EncoderSafety.Safe(s)
    ensures |s.below| <= MAX_NESTING
  {
  }

  /** All calls on an encoder of its own. */
  method MakeCalls(ops: seq<Op>, storage: array?<byte>, length: nat) returns (c: EncodeContext)
    requires length <= SIZE_MAX && (storage != null ==> length <= storage.Length)
    requires forall i :: 0 <= i < |ops| ==> Passable(ops[i])
    modifies Objects(storage)
    ensures c.outBuf.storage == storage && c.outBuf.capacity == length && fresh(c.Repr() - Objects(storage))
    ensures Ran(c, StoredAll(ops, storage))
  {
    hide Step, Run, StoredAll, EncodeContext.EndPlace;
    c := new EncodeContext(storage, length);
    NothingRun(Init(length));
    ghost var stored := StoredAll(ops, storage);
    var place := NULL_USEFUL_BUF;
    for i := 0 to |ops|
      invariant fresh(c.Repr() - Objects(storage)) && Ran(c, stored[..i])
      invariant i > 0 && ops[i - 1].OpOpenBytes? ==> place == c.EndPlace(|c.contents|)
    {
      if ops[i].OpCloseBytes? && !(i > 0 && ops[i - 1].OpOpenBytes?) {
        // the place that OpenBytes gave has been written over, if there was one
        place := CurrentPlace(c);
      }
      ghost var before := c.Abs();
      place := Perform(c, ops[i], place);
      OneMoreCall(c, before, stored[..i], stored[i]);
      assert stored[..i] + [stored[i]] == stored[..i + 1];
    }
    assert stored[..|ops|] == stored;
  }

  method CurrentPlace(c: EncodeContext) returns (place: UsefulBufC)
    requires c.Valid()
    ensures place == c.EndPlace(|c.contents|)
  {
    place := c.outBuf.OutPlace();
  }

  /** All calls, then Finish. */
  method EncodeCalls(ops: seq<Op>, storage: array<byte>, previous: UsefulBufC)
    returns (e: EncoderSpec.Error, encoded: UsefulBufC)
    requires storage.Length <= SIZE_MAX && forall i :: 0 <= i < |ops| ==> Passable(ops[i])
    modifies storage
    ensures e == FinishError(Run(Init(storage.Length), ops))
    ensures e == Success ==>
              encoded.ptr == storage && encoded.InBounds() && encoded.Value() == Run(Init(storage.Length), ops).data
    ensures e != Success ==> encoded == previous
    ensures Legal(ops, storage.Length) ==> e == Success
    ensures e == Success && Clean(Init(storage.Length), ops) ==> Legal(ops, storage.Length)
  {
    hide Step, Run, FinishError, Clean, Legal;
    var c := MakeCalls(ops, storage, storage.Length);
    assert StoredAll(ops, storage) == ops;
    AcceptsExactlyLegal(ops, storage.Length);
    e, encoded := c.Finish(previous);
  }

  /**
    All calls on a null buffer of SIZE_MAX bytes, then FinishGetSize: the buffers
    in which the same calls succeed are those of at least n bytes, and if the
    calls fail here they succeed in none.
   */
  method MeasureCalls(ops: seq<Op>, previous: nat) returns (e: EncoderSpec.Error, n: nat)
    requires forall i :: 0 <= i < |ops| ==> Passable(ops[i])
    ensures e == FinishError(Run(Init(SIZE_MAX), ops))
    ensures e == Success ==> n == |Run(Init(SIZE_MAX), ops).data|
    ensures e == Success ==>
              forall c: nat :: c <= SIZE_MAX ==>
                  FinishError(Run(Init(c), ops)) == if c >= n then Success else BufferTooSmall
    ensures e != Success ==>
              n == previous && forall c: nat :: c <= SIZE_MAX ==> FinishError(Run(Init(c), ops)) in {e, BufferTooSmall}
  {
    hide Step, Run, StoredAll, FinishError, SameCalls;
    var c := MakeCalls(ops, null, SIZE_MAX);
    ghost var measured := StoredAll(ops, null);
    StoredIsSame(ops, null);
    e, n := c.FinishGetSize(previous);
    SizeCalculationDecides(ops, measured, SIZE_MAX, SIZE_MAX);
    FinishedIsNotFull(Run(Init(SIZE_MAX), measured));
    InitKeepsCapacity(SIZE_MAX, measured);
    forall c: nat | c <= SIZE_MAX
      ensures e == Success ==> FinishError(Run(Init(c), ops)) == if c >= n then Success else BufferTooSmall
      ensures e != Success ==> FinishError(Run(Init(c), ops)) in {e, BufferTooSmall}
    {
      SizeCalculationDecides(ops, measured, SIZE_MAX, c);
    }
  }

  lemma StoredIsSame(ops: seq<Op>, storage: array?<byte>)
    ensures SameCalls(ops, StoredAll(ops, storage))
  {
  }

  lemma FinishedIsNotFull(s: State)
    ensures FinishError(s) == Success ==> !s.full
    ensures s.full ==> FinishError(s) == BufferTooSmall
  {
  }

  lemma InitKeepsCapacity(capacity: nat, ops: seq<Op>)
    ensures |Run(Init(capacity), ops).data| <= capacity
  {
    EncoderSafety.RunSafe(Init(capacity), ops);
  }

  lemma NothingRun(s: State)
    ensures Run(s, []) == s
  {
  }

  /** What is read back from a buffer that was filled with the calls of a forest. */
  lemma ReadsBackForest(encoded: UsefulBufC, storage: array<byte>, f: seq<Elem>)
    requires FitAll(f, 0, 0, false) && |SerialAll(f)| <= storage.Length && WellFormedAll(f)
    requires encoded.ptr == storage && encoded.InBounds() && encoded.Value() == Run(Init(storage.Length), Ops(f)).data
    ensures encoded.Value() == SerialAll(f) && DecodeSequence(encoded.Value()) == Got(MeaningAll(f), [])
  {
    hide DecodeSequence, MeaningAll, SerialAll, Run, Ops, FitAll, WellFormedAll;
    EncodesForest(storage.Length, f);
    EncodeThenDecode(storage.Length, f);
  }
}
