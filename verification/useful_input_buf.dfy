/**
  The input buffer of UsefulBuf.c and UsefulBuf.h: bytes are consumed from the
  front, never past the end, and an error stays.
 */
module UsefulInput {
  import opened BigEndian
  import opened UsefulBuf

  const UIB_MAGIC: uint16 := 0xB00F

  class UsefulInputBuf {
    const ub: UsefulBufC
    var cursor: nat
    var magic: uint16
    var err: bool

    /** The caller of Init hands over bytes that are there, or none. */
    ghost predicate Valid()
      reads this
    {
      ub.InBounds() && (ub.ptr != null || ub.len == 0) && cursor <= ub.len
    }

    /** The bytes not yet consumed. */
    ghost function Rest(): bytes
      requires Valid()
      reads this, if ub.ptr == null then {} else {ub.ptr}
    {
      ub.Value()[cursor..]
    }

    constructor (ub: UsefulBufC)
      requires ub.InBounds() && (ub.ptr != null || ub.len == 0)
      ensures this.ub == ub && Valid() && !err && magic == UIB_MAGIC && Rest() == ub.Value()
    {
      this.cursor := 0;
      this.err := false;
      this.magic := UIB_MAGIC;
      this.ub := ub;
    }

    method Seek(pos: nat)
      requires Valid()
      modifies this
      ensures Valid() && magic == old(magic) && err == (old(err) || pos > ub.len)
      ensures Rest() == if pos > ub.len then old(Rest()) else ub.Value()[pos..]
    {
      if pos > ub.len {
        err := true;
      } else {
        cursor := pos;
      }
    }

    function BytesUnconsumed(): nat
      reads this
    {
      if magic != UIB_MAGIC then 0
      else if cursor > ub.len then 0
      else ub.len - cursor
    }

    /** After asking for amount bytes: they are gone from the rest, or nothing but err has changed. */
    ghost predicate Consumed(amount: nat, errBefore: bool, unconsumed: nat, restBefore: bytes)
      requires Valid()
      reads this, if ub.ptr == null then {} else {ub.ptr}
    {
      if errBefore || amount > unconsumed then err && Rest() == restBefore
      else !err && amount <= |restBefore| && Rest() == restBefore[amount..]
    }

    /**
      The offset of the bytes in the buffer, when there are enough.  No bytes of a
      null buffer are at null, which the callers take for an error.
     */
    method GetBytes(amount: nat) returns (found: bool, at: nat)
      requires Valid()
      modifies this
      ensures Valid() && magic == old(magic)
      ensures Consumed(amount, old(err), old(BytesUnconsumed()), old(Rest()))
      ensures found <==> !old(err) && amount <= old(BytesUnconsumed()) && ub.ptr != null
      ensures found ==> at + amount <= ub.len && ub.Value()[at..at + amount] == old(Rest())[..amount]
    {
      if err {
        return false, 0;
      }
      if !(BytesUnconsumed() >= amount) {
        err := true;
        return false, 0;
      }
      MoveOn(ub.Value(), cursor, amount);
      hide UsefulBufC.Value;
      at := cursor;
      cursor := cursor + amount;
      return ub.ptr != null, at;
    }

    /** The octets that a Get call has moved past. */
    method Octets(at: nat, amount: nat) returns (bs: bytes)
      requires Valid() && ub.ptr != null && at + amount <= ub.len
      ensures bs == ub.Value()[at..at + amount]
    {
      PartOfValue(ub, at, amount);
      var from := ub.off + at;
      bs := ub.ptr[from..from + amount];
    }

    method GetByte() returns (n: byte)
      requires Valid()
      modifies this
      ensures Valid() && magic == old(magic)
      ensures Consumed(1, old(err), old(BytesUnconsumed()), old(Rest()))
      ensures n == if err then 0 else FromBytes(old(Rest())[..1])
    {
      var found, at := GetBytes(1);
      if !found {
        return 0;
      }
      var p := Octets(at, 1);
      OneOctet(p);
      return p[0];
    }

    method GetUint16() returns (n: uint16)
      requires Valid()
      modifies this
      ensures Valid() && magic == old(magic)
      ensures Consumed(2, old(err), old(BytesUnconsumed()), old(Rest()))
      ensures n == if err then 0 else FromBytes(old(Rest())[..2])
    {
      hide FromBytes;
      var found, at := GetBytes(2);
      if !found {
        return 0;
      }
      var p := Octets(at, 2);
      TwoOctets(p);
      n := (p[0] as int) * 0x100 + p[1];
    }

    method GetUint32() returns (n: uint32)
      requires Valid()
      modifies this
      ensures Valid() && magic == old(magic)
      ensures Consumed(4, old(err), old(BytesUnconsumed()), old(Rest()))
      ensures n == if err then 0 else FromBytes(old(Rest())[..4])
    {
      hide FromBytes;
      var found, at := GetBytes(4);
      if !found {
        return 0;
      }
      var p := Octets(at, 4);
      FourOctets(p);
      n := (p[0] as int) * 0x100_0000 + (p[1] as int) * 0x1_0000 + (p[2] as int) * 0x100 + p[3];
    }

    method GetUint64() returns (n: uint64)
      requires Valid()
      modifies this
      ensures Valid() && magic == old(magic)
      ensures Consumed(8, old(err), old(BytesUnconsumed()), old(Rest()))
      ensures n == if err then 0 else FromBytes(old(Rest())[..8])
    {
      hide FromBytes;
      var found, at := GetBytes(8);
      if !found {
        return 0;
      }
      var p := Octets(at, 8);
      EightOctets(p);
      n := (p[0] as int) * 0x100_0000_0000_0000 + (p[1] as int) * 0x1_0000_0000_0000
         + (p[2] as int) * 0x100_0000_0000 + (p[3] as int) * 0x1_0000_0000
         + (p[4] as int) * 0x100_0000 + (p[5] as int) * 0x1_0000 + (p[6] as int) * 0x100 + p[7];
    }
  }

  lemma MoveOn(all: bytes, cursor: nat, amount: nat)
    requires cursor + amount <= |all|
    ensures all[cursor..][..amount] == all[cursor..cursor + amount] && all[cursor..][amount..] == all[cursor + amount..]
  {
  }

  lemma OneOctet(bs: bytes)
    requires |bs| == 1
    ensures FromBytes(bs) == bs[0]
  {
    assert bs[..0] == [];
  }

  lemma TwoOctets(bs: bytes)
    requires |bs| == 2
    ensures FromBytes(bs) == (bs[0] as int) * 0x100 + bs[1]
  {
    OneOctet(bs[..1]);
  }

  lemma FourOctets(bs: bytes)
    requires |bs| == 4
    ensures FromBytes(bs) == (bs[0] as int) * 0x100_0000 + (bs[1] as int) * 0x1_0000 + (bs[2] as int) * 0x100 + bs[3]
  {
    assert bs[..3][..2] == bs[..2];
    TwoOctets(bs[..2]);
    assert FromBytes(bs[..3]) == FromBytes(bs[..2]) * 256 + bs[2];
  }

  lemma EightOctets(bs: bytes)
    requires |bs| == 8
    ensures FromBytes(bs) == (bs[0] as int) * 0x100_0000_0000_0000 + (bs[1] as int) * 0x1_0000_0000_0000
                           + (bs[2] as int) * 0x100_0000_0000 + (bs[3] as int) * 0x1_0000_0000
                           + (bs[4] as int) * 0x100_0000 + (bs[5] as int) * 0x1_0000 + (bs[6] as int) * 0x100 + bs[7]
  {
    hide FromBytes;
    FourOctets(bs[..4]);
    OneMoreOctet(bs, 4);
    OneMoreOctet(bs, 5);
    OneMoreOctet(bs, 6);
    OneMoreOctet(bs, 7);
    assert bs[..8] == bs;
  }

  lemma OneMoreOctet(bs: bytes, k: nat)
    requires k < |bs|
    ensures FromBytes(bs[..k + 1]) == FromBytes(bs[..k]) * 256 + bs[k]
  {
    assert bs[..k + 1][..k] == bs[..k];
  }

  // ----- writing and reading back -----

  /** An unsigned integer of 1, 2, 4 or 8 octets. */
  datatype Field = Field8(n8: byte) | Field16(n16: uint16) | Field32(n32: uint32) | Field64(n64: uint64) {
    function Octets(): nat {
      match this
      case Field8(_) => 1
      case Field16(_) => 2
      case Field32(_) => 4
      case Field64(_) => 8
    }

    function Number(): uint64 {
      match this
      case Field8(n) => n
      case Field16(n) => n
      case Field32(n) => n
      case Field64(n) => n
    }

    function Bytes(): bytes {
      ToBytes(Number(), Octets())
    }
  }

  function FieldsBytes(fs: seq<Field>): bytes {
    if fs == [] then [] else FieldsBytes(fs[..|fs| - 1]) + fs[|fs| - 1].Bytes()
  }

  lemma FieldReadsBack(f: Field)
    ensures FromBytes(f.Bytes()) == f.Number()
  {
    Shr8Bounds(f.Number());
    FromToBytes(f.Number(), f.Octets());
  }

  lemma {:induction false} FieldsFront(fs: seq<Field>)
    requires fs != []
    ensures FieldsBytes(fs) == fs[0].Bytes() + FieldsBytes(fs[1..])
  {
    hide Field.Bytes;
    var front, last := fs[..|fs| - 1], fs[|fs| - 1];
    if |fs| == 1 {
      assert fs[1..] == [] && front == [];
    } else {
      FieldsFront(front);
      assert front[1..] == fs[1..][..|fs[1..]| - 1];
      assert fs[0].Bytes() + FieldsBytes(front[1..]) + last.Bytes()
             == fs[0].Bytes() + (FieldsBytes(front[1..]) + last.Bytes());
    }
  }

  lemma {:induction false} FieldsPrefix(fs: seq<Field>, k: nat)
    requires k <= |fs|
    ensures |FieldsBytes(fs[..k])| <= |FieldsBytes(fs)|
  {
    if k < |fs| {
      FieldsPrefix(fs[..|fs| - 1], k);
      assert fs[..|fs| - 1][..k] == fs[..k];
    } else {
      assert fs[..k] == fs;
    }
  }

  method AppendField(out: UsefulOutBuf, f: Field, ghost before: bytes)
    requires out.WellTyped() && out.storage != null && out.Ready() && out.storage[..out.dataLen] == before
    requires |f.Bytes()| <= out.capacity - out.dataLen
    modifies out.Footprint()
    ensures out.WellTyped() && out.Ready() && out.storage[..out.dataLen] == before + f.Bytes()
  {
    match f
    case Field8(n) => out.AppendByte(n);
    case Field16(n) => out.AppendUint16(n);
    case Field32(n) => out.AppendUint32(n);
    case Field64(n) => out.AppendUint64(n);
  }

  method GetField(input: UsefulInputBuf, f: Field, ghost rest: bytes) returns (n: uint64)
    requires input.Valid() && !input.err && input.magic == UIB_MAGIC && input.Rest() == f.Bytes() + rest
    modifies input
    ensures input.Valid() && !input.err && input.magic == UIB_MAGIC && input.Rest() == rest
    ensures n == f.Number()
  {
    FieldReadsBack(f);
    hide FromBytes, ToBytes, UsefulBufC.Value;
    assert (f.Bytes() + rest)[..f.Octets()] == f.Bytes() && (f.Bytes() + rest)[f.Octets()..] == rest;
    match f
    case Field8(_) => n := input.GetByte();
    case Field16(_) => n := input.GetUint16();
    case Field32(_) => n := input.GetUint32();
    case Field64(_) => n := input.GetUint64();
  }

  /** One Append call for each number. */
  method WriteFields(fs: seq<Field>, out: UsefulOutBuf)
    requires out.WellTyped() && out.Ready() && out.dataLen == 0 && out.storage != null
             && |FieldsBytes(fs)| <= out.capacity
    modifies out.Footprint()
    ensures out.WellTyped() && out.Ready() && out.storage[..out.dataLen] == FieldsBytes(fs)
  {
    hide FieldsBytes, Field.Bytes;
    NoFields();
    for i := 0 to |fs|
      invariant out.WellTyped() && out.Ready() && out.storage[..out.dataLen] == FieldsBytes(fs[..i])
    {
      OneMoreField(fs, i);
      FieldsPrefix(fs, i + 1);
      AppendField(out, fs[i], FieldsBytes(fs[..i]));
    }
    assert fs[..|fs|] == fs;
  }

  lemma NoFields()
    ensures FieldsBytes([]) == []
  {
  }

  lemma OneMoreField(fs: seq<Field>, i: nat)
    requires i < |fs|
    ensures FieldsBytes(fs[..i + 1]) == FieldsBytes(fs[..i]) + fs[i].Bytes()
  {
    assert fs[..i + 1][..i] == fs[..i];
  }

  /** And one Get call. */
  method ReadFields(fs: seq<Field>, input: UsefulInputBuf) returns (ns: seq<uint64>)
    requires input.Valid() && !input.err && input.magic == UIB_MAGIC && input.Rest() == FieldsBytes(fs)
    modifies input
    ensures input.Valid() && !input.err && input.Rest() == []
    ensures |ns| == |fs| && forall i :: 0 <= i < |fs| ==> ns[i] == fs[i].Number()
  {
    hide FieldsBytes, Field.Bytes, Field.Number;
    NoFields();
    ns := [];
    assert fs[0..] == fs;
    for i := 0 to |fs|
      invariant input.Valid() && !input.err && input.magic == UIB_MAGIC && input.Rest() == FieldsBytes(fs[i..])
      invariant |ns| == i && forall j :: 0 <= j < i ==> ns[j] == fs[j].Number()
    {
      FieldsFront(fs[i..]);
      assert fs[i..][1..] == fs[i + 1..];
      var n := GetField(input, fs[i], FieldsBytes(fs[i + 1..]));
      ns := ns + [n];
    }
  }

  /** Any sequence of Append calls, read by the matching Get calls. */
  method WriteAndReadBack(fs: seq<Field>, capacity: nat) returns (ns: seq<uint64>)
    requires |FieldsBytes(fs)| <= capacity <= SIZE_MAX
    ensures |ns| == |fs| && forall i :: 0 <= i < |fs| ==> ns[i] == fs[i].Number()
  {
    hide FieldsBytes, Field.Number, Field.Bytes;
    var storage := new byte[capacity];
    var out := new UsefulOutBuf(storage, capacity);
    WriteFields(fs, out);
    var written := out.OutUBuf();
    assert written.Value() == FieldsBytes(fs);
    hide UsefulBufC.Value;
    var input := new UsefulInputBuf(written);
    ns := ReadFields(fs, input);
  }
}
