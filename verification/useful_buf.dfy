/**
  UsefulBuf.c and UsefulBuf.h: pointer-and-length pairs, and an output buffer into
  which bytes can be inserted anywhere.
 */
module UsefulBuf {
  import opened BigEndian

  const OUT_BUF_MAGIC: uint16 := 0x0B0F

  /** A pointer and a length.  A null pointer may come with any length. */
  datatype UsefulBufC = UsefulBufC(ptr: array?<byte>, off: nat, len: nat) {
    predicate InBounds() {
      len <= SIZE_MAX && (ptr != null ==> off + len <= ptr.Length)
    }

    /** The bytes pointed to; a null pointer is read as zeroes. */
    function Value(): (bs: bytes)
      reads if ptr == null then {} else {ptr}
      requires InBounds()
      ensures |bs| == len
    {
      if ptr == null then seq(len, _ => 0) else ptr[off..off + len]
    }
  }

  lemma SliceOfSlice(m: bytes, off: nat, len: nat, at: nat, n: nat)
    requires off + len <= |m| && at + n <= len
    ensures m[off..off + len][at..at + n] == m[off + at..off + at + n]
  {
    var a, b := m[off..off + len][at..at + n], m[off + at..off + at + n];
    assert forall k :: 0 <= k < n ==> a[k] == b[k];
  }

  lemma PartOfValue(b: UsefulBufC, at: nat, n: nat)
    requires b.InBounds() && at + n <= b.len && b.ptr != null
    ensures UsefulBufC(b.ptr, b.off + at, n).Value() == b.Value()[at..at + n]
  {
    var m := b.ptr[..];
    assert b.Value() == m[b.off..b.off + b.len];
    assert UsefulBufC(b.ptr, b.off + at, n).Value() == m[b.off + at..b.off + at + n];
    SliceOfSlice(m, b.off, b.len, at, n);
  }

  const NULL_USEFUL_BUF := UsefulBufC(null, 0, 0)

  function Tail(ub: UsefulBufC, amount: nat): UsefulBufC {
    if amount > ub.len then NULL_USEFUL_BUF
    else if ub.ptr == null then UsefulBufC(null, 0, ub.len - amount)
    else UsefulBufC(ub.ptr, ub.off + amount, ub.len - amount)
  }

  // ----- contents of a storage, as values -----

  /** memmove within: count bytes from source to destination, which may overlap. */
  function Moved(m: bytes, destination: nat, source: nat, count: nat): bytes
    requires source + count <= |m| && destination + count <= |m|
  {
    m[..destination] + m[source..source + count] + m[destination + count..]
  }

  function Overwritten(m: bytes, added: bytes, at: nat): bytes
    requires at + |added| <= |m|
  {
    m[..at] + added + m[at + |added|..]
  }

  lemma OverwrittenAt(m: bytes, added: bytes, at: nat, k: nat)
    requires at + |added| <= |m| && k < |m|
    ensures |Overwritten(m, added, at)| == |m|
    ensures Overwritten(m, added, at)[k] == if at <= k < at + |added| then added[k - at] else m[k]
  {
  }

  /** Inside a part of the memory. */
  lemma OverwrittenPart(m: bytes, added: bytes, at: nat, off: nat, len: nat)
    requires off + len <= |m| && at + |added| <= len
    ensures |Overwritten(m, added, off + at)| == |m|
    ensures Overwritten(m, added, off + at)[off..off + len] == Overwritten(m[off..off + len], added, at)
  {
    var whole, part := Overwritten(m, added, off + at), Overwritten(m[off..off + len], added, at);
    assert |whole| == |m| && |part| == len;
    hide Overwritten;
    forall k | 0 <= k < len
      ensures whole[off..off + len][k] == part[k]
    {
      OverwrittenAt(m, added, off + at, off + k);
      OverwrittenAt(m[off..off + len], added, at, k);
    }
  }

  /** added at pos, and the data behind pos, which end at dataLen, moved right. */
  function WithInserted(m: bytes, added: bytes, pos: nat, dataLen: nat): bytes
    requires pos <= dataLen && dataLen + |added| <= |m|
  {
    m[..pos] + added + m[pos..dataLen] + m[dataLen + |added|..]
  }

  /** Sliding the data right and then copying the new bytes over the gap is an insertion. */
  lemma SlideThenCopy(m: bytes, added: bytes, pos: nat, dataLen: nat)
    requires pos <= dataLen && dataLen + |added| <= |m|
    ensures var slid := Moved(m, pos + |added|, pos, dataLen - pos);
            && Overwritten(slid, added, pos) == WithInserted(m, added, pos, dataLen)
            && (added == m[pos..pos + |added|] ==> slid == WithInserted(m, added, pos, dataLen))
  {
    var gapEnd := pos + |added|;
    var slid := Moved(m, gapEnd, pos, dataLen - pos);
    assert slid[..pos] == m[..pos];
    assert slid[gapEnd..] == m[pos..dataLen] + m[dataLen + |added|..];
    assert slid == slid[..pos] + slid[pos..gapEnd] + slid[gapEnd..];
  }

  /** The valid bytes after an insertion. */
  lemma InsertedPrefix(m: bytes, added: bytes, pos: nat, dataLen: nat)
    requires pos <= dataLen && dataLen + |added| <= |m|
    ensures |WithInserted(m, added, pos, dataLen)| == |m|
    ensures WithInserted(m, added, pos, dataLen)[..dataLen + |added|]
            == m[..dataLen][..pos] + added + m[..dataLen][pos..]
  {
    var a, b := m[..dataLen][pos..], m[pos..dataLen];
    assert forall k :: 0 <= k < dataLen - pos ==> a[k] == b[k];
  }

  class UsefulOutBuf {
    const storage: array?<byte>
    const capacity: nat
    var dataLen: nat
    var magic: uint16
    var err: bool

    /** What the C type and the caller of Init guarantee; dataLen, magic and err are free. */
    ghost predicate WellTyped()
      reads this
    {
      capacity <= SIZE_MAX && dataLen <= SIZE_MAX && (storage != null ==> capacity <= storage.Length)
    }

    /** Neither in error, uninitialized nor corrupt. */
    predicate Ready()
      reads this
    {
      !err && magic == OUT_BUF_MAGIC && dataLen <= capacity
    }

    ghost function Footprint(): set<object> {
      if storage == null then {this} else {this, storage}
    }

    /** All of the storage, the unused part included. */
    ghost function Memory(): bytes
      reads Footprint()
    {
      if storage == null then [] else storage[..]
    }

    /**
      The whole effect of an insertion: with room, the new bytes sit at pos, the
      data behind them moved right and nothing else changed; without, only err did.
     */
    ghost predicate Inserted(ready: bool, lenBefore: nat, before: bytes, added: bytes, pos: nat)
      reads Footprint()
    {
      && (err <==> !(ready && |added| <= capacity - lenBefore && pos <= lenBefore))
      && (err ==> dataLen == lenBefore && Memory() == before)
      && (!err ==> Ready() && dataLen == lenBefore + |added|)
      && (!err && storage != null ==>
            && pos <= lenBefore && lenBefore + |added| <= |before|
            && Memory() == WithInserted(before, added, pos, lenBefore))
    }

    constructor (storage: array?<byte>, length: nat)
      requires length <= SIZE_MAX && (storage != null ==> length <= storage.Length)
      ensures this.storage == storage && capacity == length && WellTyped()
      ensures Ready() && dataLen == 0
    {
      this.magic := OUT_BUF_MAGIC;
      this.storage := storage;
      this.capacity := length;
      new;
      Reset();
    }

    method Reset()
      modifies this
      ensures dataLen == 0 && !err && magic == old(magic)
    {
      dataLen := 0;
      err := false;
    }

    function EndPosition(): nat
      reads this
    {
      dataLen
    }

    /** The C subtraction is unsigned: it wraps when the structure is corrupt. */
    function RoomLeft(): nat
      reads this
    {
      (capacity - dataLen) % (SIZE_MAX + 1)
    }

    predicate WillItFit(length: nat)
      requires WellTyped()
      reads this
      ensures dataLen <= capacity ==> (WillItFit(length) <==> length <= capacity - dataLen)
    {
      length <= RoomLeft()
    }

    /** memmove inside the storage: source and destination may overlap. */
    method MoveWithin(destination: nat, source: nat, count: nat)
      requires storage != null && source + count <= storage.Length && destination + count <= storage.Length
      modifies storage
      ensures Memory() == Moved(old(Memory()), destination, source, count)
    {
      forall i | 0 <= i < count {
        storage[destination + i] := storage[source + i];
      }
    }

    /** memmove from elsewhere into the storage. */
    method CopyIn(data: UsefulBufC, destination: nat)
      requires storage != null && data.ptr != null && data.ptr != storage
      requires data.InBounds() && destination + data.len <= storage.Length
      modifies storage
      ensures Memory() == Overwritten(old(Memory()), old(data.Value()), destination)
    {
      forall i | 0 <= i < data.len {
        storage[destination + i] := data.ptr[data.off + i];
      }
    }

    /** The bytes an insertion adds: a null source leaves those that already are at the insertion point. */
    ghost function Source(newData: UsefulBufC, pos: nat): (bs: bytes)
      requires newData.InBounds()
      reads Footprint(), if newData.ptr == null then {} else {newData.ptr}
      ensures |bs| == newData.len
    {
      if newData.ptr == null && storage != null && pos + newData.len <= storage.Length then
        storage[pos..pos + newData.len]
      else
        newData.Value()
    }

    /** Steps 3 and 4 of the insertion, once all checks have passed. */
    method SlideAndCopy(newData: UsefulBufC, pos: nat)
      requires storage != null && newData.ptr != storage && newData.InBounds()
      requires pos <= dataLen && dataLen + newData.len <= storage.Length
      modifies storage
      ensures Memory() == WithInserted(old(Memory()), old(Source(newData, pos)), pos, dataLen)
    {
      hide Moved, Overwritten, WithInserted;
      SlideThenCopy(Memory(), Source(newData, pos), pos, dataLen);
      MoveWithin(pos + newData.len, pos, dataLen - pos);
      if newData.ptr != null {
        CopyIn(newData, pos);
      }
    }

    method InsertUsefulBuf(newData: UsefulBufC, pos: nat)
      requires WellTyped() && newData.InBounds() && pos <= SIZE_MAX
      requires storage != null ==> newData.ptr != storage
      modifies Footprint()
      ensures WellTyped() && magic == old(magic)
      ensures Inserted(old(Ready()), old(dataLen), old(Memory()), old(Source(newData, pos)), pos)
    {
      if err {
        return;
      }
      if magic != OUT_BUF_MAGIC {
        err := true;
        return;
      }
      if dataLen > capacity {
        err := true;
        return;
      }
      if !WillItFit(newData.len) {
        err := true;
        return;
      }
      if pos > dataLen {
        err := true;
        return;
      }
      if storage != null {
        SlideAndCopy(newData, pos);
      }
      dataLen := dataLen + newData.len;
    }

    method AppendUsefulBuf(newData: UsefulBufC)
      requires WellTyped() && newData.InBounds()
      requires storage != null ==> newData.ptr != storage
      modifies Footprint()
      ensures WellTyped() && magic == old(magic)
      ensures Inserted(old(Ready()), old(dataLen), old(Memory()), old(Source(newData, dataLen)), old(dataLen))
    {
      InsertUsefulBuf(newData, EndPosition());
    }

    /** Makes bytes valid that the caller already wrote at OutPlace(). */
    method Advance(amount: nat)
      requires WellTyped() && amount <= SIZE_MAX
      modifies this
      ensures WellTyped() && magic == old(magic)
      ensures err <==> !(old(Ready()) && amount <= capacity - old(dataLen))
      ensures err ==> dataLen == old(dataLen)
      ensures !err ==> Ready() && dataLen == old(dataLen) + amount
    {
      if err {
        return;
      }
      if magic != OUT_BUF_MAGIC {
        err := true;
        return;
      }
      if dataLen > capacity {
        err := true;
        return;
      }
      if !WillItFit(amount) {
        err := true;
        return;
      }
      dataLen := dataLen + amount;
    }

    method OutUBuf() returns (r: UsefulBufC)
      modifies this
      ensures dataLen == old(dataLen) && magic == old(magic)
      ensures err <==> old(err) || magic != OUT_BUF_MAGIC
      ensures r == if err then NULL_USEFUL_BUF else UsefulBufC(storage, 0, dataLen)
    {
      if err {
        return NULL_USEFUL_BUF;
      }
      if magic != OUT_BUF_MAGIC {
        err := true;
        return NULL_USEFUL_BUF;
      }
      return UsefulBufC(storage, 0, dataLen);
    }

    /** Where the next byte would go, and how much room there is. */
    function OutPlace(): UsefulBufC
      reads this
    {
      if RoomLeft() > 0 && storage != null then UsefulBufC(storage, dataLen, RoomLeft())
      else UsefulBufC(null, 0, RoomLeft())
    }

    method AppendByte(n: byte)
      requires WellTyped()
      modifies Footprint()
      ensures WellTyped() && Inserted(old(Ready()), old(dataLen), old(Memory()), ToBytes(n, 1), old(dataLen))
    {
      var tmp := new byte[1];
      tmp[0] := n;
      assert tmp[..] == ToBytes(n, 1);
      AppendUsefulBuf(UsefulBufC(tmp, 0, 1));
    }

    method AppendUint16(n: uint16)
      requires WellTyped()
      modifies Footprint()
      ensures WellTyped() && Inserted(old(Ready()), old(dataLen), old(Memory()), ToBytes(n, 2), old(dataLen))
    {
      hide ToBytes, Shr8, WithInserted;
      var tmp := new byte[2];
      tmp[0] := Shr8(n, 1) % 256;
      tmp[1] := n % 256;
      Octets16(n);
      assert Source(UsefulBufC(tmp, 0, 2), dataLen) == ToBytes(n, 2);
      AppendUsefulBuf(UsefulBufC(tmp, 0, 2));
    }

    method AppendUint32(n: uint32)
      requires WellTyped()
      modifies Footprint()
      ensures WellTyped() && Inserted(old(Ready()), old(dataLen), old(Memory()), ToBytes(n, 4), old(dataLen))
    {
      hide ToBytes, Shr8, WithInserted;
      var tmp := new byte[4];
      tmp[0] := Shr8(n, 3) % 256;
      tmp[1] := Shr8(n, 2) % 256;
      tmp[2] := Shr8(n, 1) % 256;
      tmp[3] := n % 256;
      Octets32(n);
      assert tmp[..] == ToBytes(n, 4);
      assert Source(UsefulBufC(tmp, 0, 4), dataLen) == ToBytes(n, 4);
      AppendUsefulBuf(UsefulBufC(tmp, 0, 4));
    }

    method AppendUint64(n: uint64)
      requires WellTyped()
      modifies Footprint()
      ensures WellTyped() && Inserted(old(Ready()), old(dataLen), old(Memory()), ToBytes(n, 8), old(dataLen))
    {
      hide ToBytes, Shr8, WithInserted;
      var tmp := new byte[8];
      tmp[0] := Shr8(n, 7) % 256;
      tmp[1] := Shr8(n, 6) % 256;
      tmp[2] := Shr8(n, 5) % 256;
      tmp[3] := Shr8(n, 4) % 256;
      tmp[4] := Shr8(n, 3) % 256;
      tmp[5] := Shr8(n, 2) % 256;
      tmp[6] := Shr8(n, 1) % 256;
      tmp[7] := n % 256;
      Octets64(n);
      assert tmp[..] == ToBytes(n, 8);
      assert Source(UsefulBufC(tmp, 0, 8), dataLen) == ToBytes(n, 8);
      AppendUsefulBuf(UsefulBufC(tmp, 0, 8));
    }
  }

  lemma Octets16(n: nat)
    ensures ToBytes(n, 2) == [Shr8(n, 1) % 256, n % 256]
  {
    ToBytesGrow(n, 1);
    ToBytesGrow(n, 0);
  }

  lemma Octets32(n: nat)
    ensures ToBytes(n, 4) == [Shr8(n, 3) % 256, Shr8(n, 2) % 256, Shr8(n, 1) % 256, n % 256]
  {
    ToBytesGrow(n, 3);
    ToBytesGrow(n, 2);
    Octets16(n);
  }

  lemma Octets64(n: nat)
    ensures ToBytes(n, 8) == [Shr8(n, 7) % 256, Shr8(n, 6) % 256, Shr8(n, 5) % 256, Shr8(n, 4) % 256,
                              Shr8(n, 3) % 256, Shr8(n, 2) % 256, Shr8(n, 1) % 256, n % 256]
  {
    ToBytesGrow(n, 7);
    ToBytesGrow(n, 6);
    ToBytesGrow(n, 5);
    ToBytesGrow(n, 4);
    Octets32(n);
  }
}
