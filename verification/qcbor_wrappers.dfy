/**
  The inline functions of qcbor_encode.h that cbor.c calls.  Each is a short
  sequence of calls of QcborEncode; the ghost argument keeps the list of all calls
  made on a context since it was initialized.
 */
module QcborWrappers {
  import opened BigEndian
  import opened UsefulBuf
  import opened EncoderSpec
  import opened EncoderSafety
  import opened QcborEncode

  /** The context is where the calls lead from a fresh one. */
  ghost predicate Ran(c: EncodeContext, calls: seq<Op>)
    reads c.Repr()
  {
    c.Valid() && c.Abs() == Run(Init(c.outBuf.capacity), calls)
  }

  lemma OneMoreCall(c: EncodeContext, before: State, calls: seq<Op>, op: Op)
    requires c.Valid() && before == Run(Init(c.outBuf.capacity), calls) && c.Abs() == Step(before, op)
    ensures Ran(c, calls + [op])
  {
    hide Step;
    RunConcat(Init(c.outBuf.capacity), calls, [op]);
    RunOne(before, op);
  }

  method AddInt64(c: EncodeContext, n: int64, ghost calls: seq<Op>) returns (ghost more: seq<Op>)
    requires Ran(c, calls)
    modifies c.Repr()
    ensures Ran(c, more) && more == calls + [OpInt(n)]
  {
    ghost var before := c.Abs();
    c.AddInt64(n);
    more := calls + [OpInt(n)];
    OneMoreCall(c, before, calls, OpInt(n));
  }

  method AddTag(c: EncodeContext, tag: uint64, ghost calls: seq<Op>) returns (ghost more: seq<Op>)
    requires Ran(c, calls)
    modifies c.Repr()
    ensures Ran(c, more) && more == calls + [OpTag(tag)]
  {
    ghost var before := c.Abs();
    c.AddTag(tag);
    more := calls + [OpTag(tag)];
    OneMoreCall(c, before, calls, OpTag(tag));
  }

  method AddText(c: EncodeContext, text: UsefulBufC, ghost calls: seq<Op>) returns (ghost more: seq<Op>)
    requires Ran(c, calls) && c.Source(text)
    modifies c.Repr()
    ensures Ran(c, more) && more == calls + [OpBuffer(TEXT_STRING, old(text.Value()))]
  {
    ghost var before, b := c.Abs(), text.Value();
    c.AddBuffer(TEXT_STRING, text);
    more := calls + [OpBuffer(TEXT_STRING, b)];
    OneMoreCall(c, before, calls, OpBuffer(TEXT_STRING, b));
  }

  method AddBytes(c: EncodeContext, bs: UsefulBufC, ghost calls: seq<Op>) returns (ghost more: seq<Op>)
    requires Ran(c, calls) && c.Source(bs)
    modifies c.Repr()
    ensures Ran(c, more) && more == calls + [OpBuffer(BYTE_STRING, old(bs.Value()))]
  {
    ghost var before, b := c.Abs(), bs.Value();
    c.AddBuffer(BYTE_STRING, bs);
    more := calls + [OpBuffer(BYTE_STRING, b)];
    OneMoreCall(c, before, calls, OpBuffer(BYTE_STRING, b));
  }

  method AddInt64ToMapN(c: EncodeContext, key: int64, n: int64, ghost calls: seq<Op>) returns (ghost more: seq<Op>)
    requires Ran(c, calls)
    modifies c.Repr()
    ensures Ran(c, more) && more == calls + [OpInt(key), OpInt(n)]
  {
    more := AddInt64(c, key, calls);
    more := AddInt64(c, n, more);
  }

  method AddTextToMapN(c: EncodeContext, key: int64, text: UsefulBufC, ghost calls: seq<Op>)
    returns (ghost more: seq<Op>)
    requires Ran(c, calls) && c.Source(text)
    modifies c.Repr()
    ensures Ran(c, more) && more == calls + [OpInt(key), OpBuffer(TEXT_STRING, old(text.Value()))]
  {
    AddressesDiffer(c, text);
    more := AddInt64(c, key, calls);
    more := AddText(c, text, more);
  }

  method AddBytesToMapN(c: EncodeContext, key: int64, bs: UsefulBufC, ghost calls: seq<Op>)
    returns (ghost more: seq<Op>)
    requires Ran(c, calls) && c.Source(bs)
    modifies c.Repr()
    ensures Ran(c, more) && more == calls + [OpInt(key), OpBuffer(BYTE_STRING, old(bs.Value()))]
  {
    AddressesDiffer(c, bs);
    more := AddInt64(c, key, calls);
    more := AddBytes(c, bs, more);
  }

  /** A caller's bytes are no part of the context, so no call changes them. */
  lemma AddressesDiffer(c: EncodeContext, b: UsefulBufC)
    requires c.Source(b)
    ensures b.ptr != null ==> b.ptr !in c.Repr()
  {
  }

  lemma OpenIs(s: State, kind: Kind)
    ensures Step(s, OpOpen(kind)) == if kind.Indefinite() then OpenIndefinite(s, kind.Major())
            else OpenMapOrArray(s, kind.Major())
  {
    hide OpenIndefinite, OpenMapOrArray;
  }

  method Open(c: EncodeContext, kind: Kind, ghost calls: seq<Op>) returns (ghost more: seq<Op>)
    requires Ran(c, calls)
    modifies c.Repr()
    ensures Ran(c, more) && more == calls + [OpOpen(kind)]
  {
    hide Step, Run, OpenIndefinite, OpenMapOrArray, Safe;
    ghost var before := c.Abs();
    OpenIs(before, kind);
    if kind.Indefinite() {
      c.OpenMapOrArrayIndefiniteLength(kind.Major());
    } else {
      c.OpenMapOrArray(kind.Major());
    }
    more := calls + [OpOpen(kind)];
    OneMoreCall(c, before, calls, OpOpen(kind));
  }

  lemma CloseIs(s: State, kind: Kind)
    requires kind != BstrWrap
    ensures Step(s, OpClose(kind)) == if kind.Indefinite() then CloseIndefinite(s, kind.Major())
            else CloseMapOrArray(s, kind.Major())
  {
    hide CloseIndefinite, CloseMapOrArray;
  }

  /** CloseMap, CloseArray and their indefinite-length forms; a wrap has CloseBstrWrap2. */
  method Close(c: EncodeContext, kind: Kind, ghost calls: seq<Op>) returns (ghost more: seq<Op>)
    requires Ran(c, calls) && kind != BstrWrap
    modifies c.Repr()
    ensures Ran(c, more) && more == calls + [OpClose(kind)]
  {
    hide Step, Run, CloseIndefinite, CloseMapOrArray, Safe;
    ghost var before := c.Abs();
    CloseIs(before, kind);
    if kind.Indefinite() {
      c.CloseMapOrArrayIndefiniteLength(kind.Major());
    } else {
      c.CloseMapOrArray(kind.Major());
    }
    more := calls + [OpClose(kind)];
    OneMoreCall(c, before, calls, OpClose(kind));
  }

  method OpenArrayInMapN(c: EncodeContext, key: int64, ghost calls: seq<Op>) returns (ghost more: seq<Op>)
    requires Ran(c, calls)
    modifies c.Repr()
    ensures Ran(c, more) && more == calls + [OpInt(key), OpOpen(DefArray)]
  {
    more := AddInt64(c, key, calls);
    more := Open(c, DefArray, more);
  }
}
