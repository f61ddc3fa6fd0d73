/**
  The encoder itself: QCBORTrackNesting and QCBOREncodeContext of qcbor_encode.c,
  updating a nesting stack and an output buffer in place.  Every public call is
  proved to do what its namesake in EncoderSpec does.
 */
module QcborEncode {
  import opened BigEndian
  import opened CborHead
  import opened UsefulBuf
  import Spec = EncoderSpec
  import opened EncoderSafety
  import BstrWrapping

  type Error = Spec.Error
  type Level = Spec.Level

  class TrackNesting {
    const slots: array<Level>
    var current: nat

    ghost predicate Valid()
      reads this
    {
      slots.Length == Spec.MAX_NESTING + 1 && current <= Spec.MAX_NESTING
    }

    function Top(): Level
      requires Valid()
      reads this, slots
    {
      slots[current]
    }

    ghost function Below(): seq<Level>
      requires Valid()
      reads this, slots
    {
      slots[..current]
    }

    predicate IsInNest()
      reads this
    {
      current != 0
    }

    constructor ()
      ensures Valid() && fresh(slots) && Below() == [] && Top() == Spec.Level(0, 0, Spec.ARRAY)
    {
      current := 0;
      slots := new Level[Spec.MAX_NESTING + 1](_ => Spec.Level(0, 0, 0));
      new;
      slots[0] := Spec.Level(0, 0, Spec.ARRAY);
    }

    method Increase(major: byte, pos: nat) returns (e: Error)
      requires Valid()
      modifies this, slots
      ensures Valid()
      ensures e == if |old(Below())| == Spec.MAX_NESTING then Spec.ArrayNestingTooDeep else Spec.Success
      ensures e != Spec.Success ==> Below() == old(Below()) && Top() == old(Top())
      ensures e == Spec.Success ==> Below() == old(Below() + [Top()]) && Top() == Spec.Level(pos, 0, major)
    {
      if current == Spec.MAX_NESTING {
        return Spec.ArrayNestingTooDeep;
      }
      current := current + 1;
      slots[current] := Spec.Level(pos, 0, major);
      return Spec.Success;
    }

    method Decrease()
      requires Valid()
      modifies this
      ensures Valid()
      ensures old(IsInNest()) ==> Below() == old(slots[..current - 1]) && Top() == old(slots[current - 1])
      ensures !old(IsInNest()) ==> Below() == old(Below()) && Top() == old(Top())
    {
      if current > 0 {
        current := current - 1;
      }
    }

    method Increment() returns (e: Error)
      requires Valid()
      modifies slots
      ensures Below() == old(Below())
      ensures e == if 1 >= Spec.MAX_ITEMS - old(Top()).count then Spec.ArrayTooLong else Spec.Success
      ensures Top() == if e == Spec.Success then old(Top()).(count := old(Top()).count + 1) else old(Top())
    {
      if 1 >= Spec.MAX_ITEMS - slots[current].count {
        return Spec.ArrayTooLong;
      }
      slots[current] := slots[current].(count := slots[current].count + 1);
      return Spec.Success;
    }

    method Decrement()
      requires Valid()
      modifies slots
      ensures Below() == old(Below())
      ensures Top() == old(Top()).(count := Spec.Decremented(old(Top()).count))
    {
      var uCount := slots[current].count;
      slots[current] := slots[current].(count := if uCount == 0 then 0xffff else uCount - 1);
    }

    function GetCount(): nat
      requires Valid()
      reads this, slots
    {
      if Top().major == Spec.MAP then Top().count / 2 else Top().count
    }
  }

  ghost function OutputTail(s: Spec.State, start: nat): bytes {
    if s.full || start > |s.data| then [] else s.data[start..]
  }

  class EncodeContext {
    const outBuf: UsefulOutBuf
    const nesting: TrackNesting
    var uError: Error
    /** The bytes output so far; they are in the storage unless that is null. */
    ghost var contents: bytes

    ghost function Repr(): set<object> {
      {this, nesting, nesting.slots} + outBuf.Footprint()
    }

    ghost predicate Valid()
      reads Repr()
    {
      && outBuf.WellTyped() && outBuf.magic == OUT_BUF_MAGIC
      && nesting.Valid()
      && |contents| == outBuf.dataLen <= outBuf.capacity
      && (outBuf.storage != null ==> outBuf.storage[..outBuf.dataLen] == contents)
      && Safe(Abs())
    }

    /** The value of the whole structure. */
    ghost function Abs(): Spec.State
      requires nesting.Valid()
      reads this, outBuf, nesting, nesting.slots
    {
      Spec.State(outBuf.capacity, contents, outBuf.err, uError, nesting.Below(), nesting.Top())
    }

    /** A caller's bytes: not in the storage, and null only where nothing is copied. */
    ghost predicate Source(b: UsefulBufC) {
      && b.InBounds()
      && (outBuf.storage != null ==> b.ptr != outBuf.storage && (b.ptr != null || b.len == 0))
    }

    constructor (storage: array?<byte>, length: nat)
      requires length <= SIZE_MAX && (storage != null ==> length <= storage.Length)
      ensures Valid() && Abs() == Spec.Init(length) && outBuf.storage == storage
      ensures fresh(Repr() - (if storage == null then {} else {storage}))
    {
      outBuf := new UsefulOutBuf(storage, length);
      nesting := new TrackNesting();
      uError := Spec.Success;
      contents := [];
    }

    // ----- internal -----

    /** UsefulOutBuf_InsertUsefulBuf, seen from the encoder. */
    method InsertBytes(b: UsefulBufC, pos: nat)
      requires Valid() && Source(b) && Abs().top.start <= pos <= outBuf.dataLen
      modifies this, outBuf.Footprint()
      ensures Valid() && Abs() == Spec.Insert(old(Abs()), old(b.Value()), pos)
    {
      hide Ordered, Levels, LevelInBounds, WithInserted;
      ghost var before, added := Abs(), b.Value();
      InsertGrows(before, added, pos);
      hide Safe, UsefulBufC.Value;
      if outBuf.storage != null && !outBuf.err && b.len <= outBuf.capacity - outBuf.dataLen {
        InsertedPrefix(outBuf.storage[..], added, pos, outBuf.dataLen);
        assert outBuf.storage[..][..outBuf.dataLen] == contents;
      }
      SourceAdds(b, pos);
      outBuf.InsertUsefulBuf(b, pos);
      if !outBuf.err {
        contents := contents[..pos] + added + contents[pos..];
      }
    }

    lemma SourceAdds(b: UsefulBufC, pos: nat)
      requires outBuf.WellTyped() && Source(b)
      ensures outBuf.storage != null ==> outBuf.Source(b, pos) == b.Value()
    {
    }

    method AppendBytes(b: UsefulBufC)
      requires Valid() && Source(b)
      modifies this, outBuf.Footprint()
      ensures Valid() && Abs() == Spec.Append(old(Abs()), old(b.Value()))
    {
      Spec.AppendIsInsert(Abs(), b.Value());
      InsertBytes(b, outBuf.EndPosition());
    }

    method AppendCBORHead(major: byte, argument: uint64, minLen: byte)
      requires Valid() && minLen <= 8
      modifies this, outBuf.Footprint()
      ensures Valid() && Abs() == Spec.AppendHead(old(Abs()), major, argument, minLen)
    {
      var buffer := new byte[HEAD_BUFFER_SIZE];
      var start, length := EncodeHead(buffer, major, minLen, argument);
      assert buffer[start..start + length] == Head(major, minLen, argument);
      AppendBytes(UsefulBufC(buffer, start, length));
    }

    method IncrementMapOrArrayCount()
      requires Valid()
      modifies this, nesting.slots
      ensures Valid() && Abs() == Spec.Increment(old(Abs()))
    {
      IncrementGrows(Abs());
      if uError == Spec.Success {
        var e := nesting.Increment();
        uError := e;
      }
    }

    method DecreaseNesting()
      requires Valid()
      modifies nesting
      ensures Valid() && Abs() == old(Abs()).Popped()
    {
      PopSafe(Abs(), Abs());
      assert Abs().InNest() ==> Abs().below[..|Abs().below| - 1] == nesting.slots[..nesting.current - 1];
      nesting.Decrease();
    }

    method DecrementCount()
      requires Valid()
      modifies nesting.slots
      ensures Valid() && Abs() == old(Abs()).(top := old(Abs()).top.(count := Spec.Decremented(old(Abs()).top.count)))
    {
      CountSafe(Abs(), Spec.Decremented(Abs().top.count));
      nesting.Decrement();
    }

    method CheckDecreaseNesting(major: byte) returns (failed: bool)
      requires Valid()
      modifies this
      ensures Valid() && Abs() == old(Abs()).(error := Spec.CheckDecrease(old(Abs()), major))
      ensures failed <==> uError != Spec.Success
    {
      if uError != Spec.Success {
        return true;
      }
      if !nesting.IsInNest() {
        uError := Spec.TooManyCloses;
        return true;
      }
      if nesting.Top().major != major {
        uError := Spec.CloseMismatch;
        return true;
      }
      return false;
    }

    method InsertCBORHead(major: byte, length: uint64)
      requires Valid()
      modifies Repr()
      ensures Valid() && Abs() == Spec.InsertHead(old(Abs()), major, length)
    {
      var failed := CheckDecreaseNesting(major);
      if failed {
        return;
      }
      var uMajorType := if major == Spec.OPEN_BSTR then Spec.BYTE_STRING else major;
      var buffer := new byte[HEAD_BUFFER_SIZE];
      var start, len := EncodeHead(buffer, uMajorType, 0, length);
      assert buffer[start..start + len] == Head(uMajorType, 0, length);
      InsertBytes(UsefulBufC(buffer, start, len), nesting.Top().start);
      DecreaseNesting();
    }

    // ----- adding items -----

    method AddUInt64(value: uint64)
      requires Valid()
      modifies Repr()
      ensures Valid() && Abs() == Spec.AddUInt64(old(Abs()), value)
    {
      hide Safe, Spec.Append, Spec.Increment, Head;
      AppendCBORHead(0, value, 0);
      IncrementMapOrArrayCount();
    }

    method AddInt64(n: int64)
      requires Valid()
      modifies Repr()
      ensures Valid() && Abs() == Spec.AddInt64(old(Abs()), n)
    {
      hide Safe, Spec.Append, Spec.Increment, Head;
      var uMajorType: byte;
      var uValue: uint64;
      if n < 0 {
        var nTmp: int64 := n + 1;
        uValue := -nTmp;
        uMajorType := 1;
      } else {
        uValue := n;
        uMajorType := 0;
      }
      AppendCBORHead(uMajorType, uValue, 0);
      IncrementMapOrArrayCount();
    }

    method AddBuffer(major: byte, b: UsefulBufC)
      requires Valid() && b.InBounds() && (major != Spec.BSTR_LEN_ONLY ==> Source(b))
      modifies Repr()
      ensures Valid() && Abs() == Spec.AddBuffer(old(Abs()), major, old(b.Value()))
    {
      if major != Spec.RAW {
        var uRealMajorType := major;
        if uRealMajorType == Spec.BSTR_LEN_ONLY {
          uRealMajorType := Spec.BYTE_STRING;
        }
        AppendCBORHead(uRealMajorType, b.len, 0);
      }
      if major != Spec.BSTR_LEN_ONLY {
        AppendBytes(b);
      }
      IncrementMapOrArrayCount();
    }

    method AddTag(tag: uint64)
      requires Valid()
      modifies Repr()
      ensures Valid() && Abs() == Spec.AddTag(old(Abs()), tag)
    {
      hide Safe, Spec.Append, Spec.Increment, Head;
      AppendCBORHead(Spec.TAG, tag, 0);
    }

    method AddType7(minLen: byte, n: uint64)
      requires Valid() && minLen <= 8
      modifies Repr()
      ensures Valid() && Abs() == Spec.AddType7(old(Abs()), minLen, n)
    {
      hide Safe, Spec.Append, Spec.Increment, Head;
      ErrorSafe(Abs(), Spec.EncodeUnsupported);
      if uError == Spec.Success {
        if n >= 24 && n <= 31 {
          uError := Spec.EncodeUnsupported;
          return;
        }
      }
      AppendCBORHead(Spec.SIMPLE, n, minLen);
      IncrementMapOrArrayCount();
    }

    // ----- opening and closing -----

    method OpenMapOrArray(major: byte)
      requires Valid()
      modifies Repr()
      ensures Valid() && Abs() == Spec.OpenMapOrArray(old(Abs()), major)
    {
      OpenSafe(Abs(), major);
      IncrementMapOrArrayCount();
      var uEndPosition := outBuf.EndPosition();
      if uEndPosition >= Spec.MAX_OFFSET {
        uError := Spec.BufferTooLarge;
      } else {
        var e := nesting.Increase(major, uEndPosition);
        uError := e;
      }
    }

    method OpenMapOrArrayIndefiniteLength(major: byte)
      requires Valid()
      modifies Repr()
      ensures Valid() && Abs() == Spec.OpenIndefinite(old(Abs()), major)
    {
      AppendCBORHead(major, 0, 0);
      OpenMapOrArray(major);
    }

    method CloseMapOrArray(major: byte)
      requires Valid()
      modifies Repr()
      ensures Valid() && Abs() == Spec.CloseMapOrArray(old(Abs()), major)
    {
      InsertCBORHead(major, nesting.GetCount());
    }

    method CloseMapOrArrayIndefiniteLength(major: byte)
      requires Valid()
      modifies Repr()
      ensures Valid() && Abs() == Spec.CloseIndefinite(old(Abs()), major)
    {
      var failed := CheckDecreaseNesting(major);
      if failed {
        return;
      }
      AppendCBORHead(Spec.SIMPLE + INDEFINITE_MODIFIER, SIMPLE_BREAK, 0);
      DecreaseNesting();
    }

    /** Hands back where the wrapped bytes are now, good until the next call. */
    method CloseBstrWrap2(includeHead: bool) returns (wrapped: UsefulBufC)
      requires Valid()
      modifies Repr()
      ensures Valid() && Abs() == Spec.CloseBstrWrap(old(Abs()))
      ensures wrapped.InBounds() && wrapped.len == |BstrWrapping.WrappedSlice(old(Abs()), includeHead)|
      ensures outBuf.storage != null ==> wrapped.Value() == BstrWrapping.WrappedSlice(old(Abs()), includeHead)
    {
      hide Spec.InsertHead, Spec.CheckDecrease, Spec.Insert, Ordered, Head, Levels, LevelInBounds, LevelsStep;
      InsertHeadSafe(Abs(), Spec.BYTE_STRING, Spec.WrappedLength(Abs()));
      assert Abs().top.start <= |contents| == outBuf.dataLen;
      hide Safe;
      var uInsertPosition := nesting.Top().start;
      var uEndPosition := outBuf.EndPosition();
      var uBstrLen := uEndPosition - uInsertPosition;
      InsertCBORHead(Spec.BYTE_STRING, uBstrLen);
      var uStartOfNew := uInsertPosition;
      if !includeHead {
        var uNewEndPosition := outBuf.EndPosition();
        uStartOfNew := uStartOfNew + (uNewEndPosition - uEndPosition);
      }
      wrapped := OutputFrom(uStartOfNew);
    }

    /** The valid bytes from an offset on; nothing in error. */
    method OutputFrom(start: nat) returns (tail: UsefulBufC)
      requires Valid()
      modifies outBuf
      ensures Valid() && Abs() == old(Abs())
      ensures tail.InBounds() && tail.len == |OutputTail(Abs(), start)|
      ensures outBuf.storage != null ==> tail.Value() == OutputTail(Abs(), start)
    {
      hide Ordered, Levels, LevelInBounds, Safe;
      var partialResult := outBuf.OutUBuf();
      tail := Tail(partialResult, start);
    }

    method CancelBstrWrap()
      requires Valid()
      modifies Repr()
      ensures Valid() && Abs() == Spec.CancelBstrWrap(old(Abs()))
    {
      var failed := CheckDecreaseNesting(Spec.BYTE_STRING);
      if failed {
        return;
      }
      var uCurrent := outBuf.EndPosition();
      if nesting.Top().start != uCurrent {
        uError := Spec.CannotCancel;
        return;
      }
      DecreaseNesting();
      DecrementCount();
    }

    /** The storage behind the first used bytes; no pointer when nothing is left of it. */
    function EndPlace(used: nat): UsefulBufC
      requires used <= outBuf.capacity
    {
      if outBuf.storage == null || used == outBuf.capacity then UsefulBufC(null, 0, outBuf.capacity - used)
      else UsefulBufC(outBuf.storage, used, outBuf.capacity - used)
    }

    lemma PlaceIsEnd()
      requires Valid()
      ensures outBuf.OutPlace() == EndPlace(|contents|)
    {
      hide Safe;
    }

    method OpenBytes() returns (place: UsefulBufC)
      requires Valid()
      modifies Repr()
      ensures Valid() && Abs() == Spec.OpenBytes(old(Abs()))
      ensures place == EndPlace(|old(contents)|)
    {
      PlaceIsEnd();
      hide Spec.OpenMapOrArray, EndPlace, UsefulOutBuf.OutPlace;
      place := outBuf.OutPlace();
      ErrorSafe(Abs(), Spec.OpenByteString);
      hide Safe;
      var uMajorType := nesting.Top().major;
      if uMajorType == Spec.OPEN_BSTR {
        uError := Spec.OpenByteString;
        return;
      }
      OpenMapOrArray(Spec.OPEN_BSTR);
    }

    /** What the caller has put at the place that OpenBytes returned; nothing is stored in a null buffer. */
    ghost function PlaceBytes(amount: nat): (bs: bytes)
      requires Valid()
      reads Repr()
      ensures |bs| == amount
    {
      if outBuf.storage != null && amount <= outBuf.capacity - outBuf.dataLen
        then outBuf.storage[outBuf.dataLen..outBuf.dataLen + amount]
      else seq(amount, _ => 0)
    }

    method CloseBytes(amount: uint64)
      requires Valid()
      modifies Repr()
      ensures Valid() && Abs() == Spec.CloseBytes(old(Abs()), old(PlaceBytes(amount)))
    {
      ghost var written := PlaceBytes(amount);
      AppendGrows(Abs(), written);
      outBuf.Advance(amount);
      if outBuf.err {
        return;
      }
      contents := contents + written;
      InsertCBORHead(Spec.OPEN_BSTR, amount);
    }

    // ----- finishing -----

    method GetErrorState() returns (e: Error)
      requires Valid()
      modifies this
      ensures Valid() && e == Spec.ErrorState(old(Abs())) && Abs() == old(Abs()).(error := e)
    {
      ErrorSafe(Abs(), Spec.BufferTooSmall);
      if outBuf.err {
        uError := Spec.BufferTooSmall;
      }
      return uError;
    }

    /** The caller's result is written only on success: previous is what it was before. */
    method Finish(previous: UsefulBufC) returns (e: Error, encoded: UsefulBufC)
      requires Valid()
      modifies this, outBuf
      ensures Valid() && e == Spec.FinishError(old(Abs()))
      ensures Abs() == old(Abs()).(error := Spec.ErrorState(old(Abs())))
      ensures e == Spec.Success ==> encoded == UsefulBufC(outBuf.storage, 0, |contents|) && encoded.InBounds()
      ensures e == Spec.Success && outBuf.storage != null ==> encoded.Value() == contents
      ensures e != Spec.Success ==> encoded == previous
    {
      encoded := previous;
      e := GetErrorState();
      if e != Spec.Success {
        return;
      }
      if nesting.IsInNest() {
        e := Spec.ArrayOrMapStillOpen;
        return;
      }
      encoded := outBuf.OutUBuf();
    }

    method FinishGetSize(previous: nat) returns (e: Error, encodedLen: nat)
      requires Valid()
      modifies this, outBuf
      ensures Valid() && e == Spec.FinishError(old(Abs()))
      ensures Abs() == old(Abs()).(error := Spec.ErrorState(old(Abs())))
      ensures encodedLen == if e == Spec.Success then |old(contents)| else previous
    {
      var enc := NULL_USEFUL_BUF;
      e, enc := Finish(enc);
      encodedLen := if e == Spec.Success then enc.len else previous;
    }
  }
}
