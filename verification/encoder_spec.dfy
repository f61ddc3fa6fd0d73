/**
  qcbor_encode.c as a state machine on values: one function per public call, with
  the same branches, constants and error codes.  The class QCBOREncodeContext is
  proved to do exactly this; everything promised about the encoder is proved here.
 */
module EncoderSpec {
  import opened BigEndian
  import opened CborHead

  const MAX_NESTING := 15
  const MAX_ITEMS := 65534
  const MAX_OFFSET := 0xffff_ffff - 100

  const BYTE_STRING: byte := 2
  const TEXT_STRING: byte := 3
  const ARRAY: byte := 4
  const MAP: byte := 5
  const TAG: byte := 6
  const SIMPLE: byte := 7
  const RAW: byte := 9
  const BSTR_LEN_ONLY: byte := 11
  const OPEN_BSTR: byte := 12

  datatype Error =
    | Success
    | BufferTooLarge
    | BufferTooSmall
    | ArrayNestingTooDeep
    | ArrayTooLong
    | TooManyCloses
    | CloseMismatch
    | ArrayOrMapStillOpen
    | EncodeUnsupported
    | CannotCancel
    | OpenByteString

  /** One slot of the nesting stack. */
  datatype Level = Level(start: nat, count: nat, major: byte)

  /**
    data are the valid bytes of the output buffer, full is its error flag; top is
    the innermost open level and below are the others, outermost first.  With
    below empty, top is the implied top-level array.
   */
  datatype State = State(capacity: nat, data: bytes, full: bool, error: Error, below: seq<Level>, top: Level) {
    predicate InNest() {
      below != []
    }

    function Popped(): State {
      if InNest() then this.(below := below[..|below| - 1], top := below[|below| - 1]) else this
    }
  }

  function Init(capacity: nat): State {
    State(capacity, [], false, Success, [], Level(0, 0, ARRAY))
  }

  // ----- the output buffer -----

  function Insert(s: State, added: bytes, pos: nat): State {
    if s.full then s
    else if |added| > s.capacity - |s.data| || pos > |s.data| then s.(full := true)
    else s.(data := s.data[..pos] + added + s.data[pos..])
  }

  function Append(s: State, added: bytes): State {
    if s.full then s
    else if |added| > s.capacity - |s.data| then s.(full := true)
    else s.(data := s.data + added)
  }

  lemma AppendIsInsert(s: State, added: bytes)
    ensures Append(s, added) == Insert(s, added, |s.data|)
  {
    assert s.data + added == s.data[..|s.data|] + added + s.data[|s.data|..];
  }

  function AppendHead(s: State, major: byte, argument: nat, minLen: nat): State {
    Append(s, Head(major, minLen, argument))
  }

  // ----- nesting -----

  function Increment(s: State): State {
    if s.error != Success then s
    else if 1 >= MAX_ITEMS - s.top.count then s.(error := ArrayTooLong)
    else s.(top := s.top.(count := s.top.count + 1))
  }

  function Increase(s: State, major: byte, pos: nat): State {
    if |s.below| == MAX_NESTING then s.(error := ArrayNestingTooDeep)
    else s.(error := Success, below := s.below + [s.top], top := Level(pos, 0, major))
  }

  /** The item count for the head: pairs in a map. */
  function HeadCount(s: State): nat {
    if s.top.major == MAP then s.top.count / 2 else s.top.count
  }

  /** What CheckDecreaseNesting makes of uError; it lets the close go on only when that is Success. */
  function CheckDecrease(s: State, major: byte): Error {
    if s.error != Success then s.error
    else if !s.InNest() then TooManyCloses
    else if s.top.major != major then CloseMismatch
    else Success
  }

  function InsertHead(s: State, major: byte, length: nat): State {
    var e := CheckDecrease(s, major);
    if e != Success then s.(error := e)
    else Insert(s, Head(if major == OPEN_BSTR then BYTE_STRING else major, 0, length), s.top.start).Popped()
  }

  // ----- the public calls -----

  function AddUInt64(s: State, value: uint64): State {
    Increment(AppendHead(s, 0, value, 0))
  }

  function AddInt64(s: State, n: int64): State {
    Increment(if n < 0 then AppendHead(s, 1, -(n + 1), 0) else AppendHead(s, 0, n, 0))
  }

  function AddBuffer(s: State, major: byte, b: bytes): State {
    var s1 := if major != RAW then AppendHead(s, if major == BSTR_LEN_ONLY then BYTE_STRING else major, |b|, 0) else s;
    var s2 := if major != BSTR_LEN_ONLY then Append(s1, b) else s1;
    Increment(s2)
  }

  function AddTag(s: State, tag: uint64): State {
    AppendHead(s, TAG, tag, 0)
  }

  function AddType7(s: State, minLen: nat, n: uint64): State {
    if s.error == Success && 24 <= n <= 31 then s.(error := EncodeUnsupported)
    else Increment(AppendHead(s, SIMPLE, n, minLen))
  }

  function OpenMapOrArray(s: State, major: byte): State {
    var s1 := Increment(s);
    if |s1.data| >= MAX_OFFSET then s1.(error := BufferTooLarge)
    else Increase(s1, major, |s1.data|)
  }

  function OpenIndefinite(s: State, major: byte): State {
    OpenMapOrArray(AppendHead(s, major, 0, 0), major)
  }

  function CloseMapOrArray(s: State, major: byte): State {
    InsertHead(s, major, HeadCount(s))
  }

  function CloseIndefinite(s: State, major: byte): State {
    var e := CheckDecrease(s, major);
    if e != Success then s.(error := e)
    else AppendHead(s, SIMPLE + INDEFINITE_MODIFIER, SIMPLE_BREAK, 0).Popped()
  }

  /** The levels never start behind the end of the data, so the subtraction does not go negative. */
  function WrappedLength(s: State): nat {
    if s.top.start <= |s.data| then |s.data| - s.top.start else 0
  }

  function CloseBstrWrap(s: State): State {
    InsertHead(s, BYTE_STRING, WrappedLength(s))
  }

  /** One less in 16 bits. */
  function Decremented(count: nat): nat {
    if count == 0 then 0xffff else count - 1
  }

  function CancelBstrWrap(s: State): State {
    var e := CheckDecrease(s, BYTE_STRING);
    if e != Success then s.(error := e)
    else if s.top.start != |s.data| then s.(error := CannotCancel)
    else
      var outer := s.Popped();
      outer.(top := outer.top.(count := Decremented(outer.top.count)))
  }

  function OpenBytes(s: State): State {
    if s.top.major == OPEN_BSTR then s.(error := OpenByteString)
    else OpenMapOrArray(s, OPEN_BSTR)
  }

  /** The bytes are those the caller wrote into the place OpenBytes returned. */
  function CloseBytes(s: State, written: bytes): State {
    var s1 := Append(s, written);
    if s1.full then s1 else InsertHead(s1, OPEN_BSTR, |written|)
  }

  /** What GetErrorState and then Finish report. */
  function ErrorState(s: State): Error {
    if s.full then BufferTooSmall else s.error
  }

  function FinishError(s: State): Error {
    if ErrorState(s) != Success then ErrorState(s)
    else if s.InNest() then ArrayOrMapStillOpen
    else Success
  }

  // ----- call sequences -----

  /** What the inline Open and Close wrappers of qcbor_encode.h can open. */
  datatype Kind = DefArray | DefMap | IndefArray | IndefMap | BstrWrap {
    predicate Indefinite() {
      this == IndefArray || this == IndefMap
    }

    /** The major type pushed on the nesting stack. */
    function Major(): byte {
      match this
      case DefArray => ARRAY
      case DefMap => MAP
      case IndefArray => ARRAY + INDEFINITE_MODIFIER
      case IndefMap => MAP + INDEFINITE_MODIFIER
      case BstrWrap => BYTE_STRING
    }
  }

  datatype Op =
    | OpUInt(u: uint64)
    | OpInt(n: int64)
    | OpBuffer(major: byte, b: bytes)
    | OpTag(tag: uint64)
    | OpType7(minLen: byte, bits: uint64)
    | OpOpen(kind: Kind)
    | OpClose(kind: Kind)
    | OpCancelWrap
    | OpOpenBytes
    | OpCloseBytes(written: bytes)
  {
    /** Calls that push a level. */
    predicate Opening() {
      OpOpen? || OpOpenBytes?
    }
  }

  function Step(s: State, op: Op): State {
    match op
    case OpUInt(u) => AddUInt64(s, u)
    case OpInt(n) => AddInt64(s, n)
    case OpBuffer(major, b) => AddBuffer(s, major, b)
    case OpTag(tag) => AddTag(s, tag)
    case OpType7(minLen, bits) => AddType7(s, minLen, bits)
    case OpOpen(kind) => if kind.Indefinite() then OpenIndefinite(s, kind.Major()) else OpenMapOrArray(s, kind.Major())
    case OpClose(kind) =>
      if kind.Indefinite() then CloseIndefinite(s, kind.Major())
      else if kind == BstrWrap then CloseBstrWrap(s)
      else CloseMapOrArray(s, kind.Major())
    case OpCancelWrap => CancelBstrWrap(s)
    case OpOpenBytes => OpenBytes(s)
    case OpCloseBytes(written) => CloseBytes(s, written)
  }

  function Run(s: State, ops: seq<Op>): State
    decreases ops
  {
    if ops == [] then s else Run(Step(s, ops[0]), ops[1..])
  }

  lemma {:induction false} RunConcat(s: State, a: seq<Op>, b: seq<Op>)
    ensures Run(s, a + b) == Run(Run(s, a), b)
    decreases a
  {
    if a == [] {
      assert a + b == b;
    } else {
      assert (a + b)[1..] == a[1..] + b;
      RunConcat(Step(s, a[0]), a[1..], b);
    }
  }

  lemma RunOne(s: State, op: Op)
    ensures Run(s, [op]) == Step(s, op)
  {
    assert [op][1..] == [];
  }
}
