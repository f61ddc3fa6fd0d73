/**
  The head of a CBOR data item: QCBOREncode_EncodeHead of qcbor_encode.c against
  the head of RFC 8949 section 3.
 */
module CborHead {
  import opened BigEndian

  const HEAD_BUFFER_SIZE: nat := 10
  const INDEFINITE_MODIFIER: byte := 0x80
  const TWENTY_FOUR := 24
  const LEN_IS_ONE_BYTE := 24
  const SIMPLE_BREAK := 31

  /** How many octets follow the initial one: 0, 1, 2, 4 or 8. */
  function ArgumentWidth(minLen: nat, arg: nat): nat {
    if arg < TWENTY_FOUR && minLen == 0 then 0
    else if minLen <= 1 && arg < 0x100 then 1
    else if minLen <= 2 && arg < 0x1_0000 then 2
    else if minLen <= 4 && arg < 0x1_0000_0000 then 4
    else 8
  }

  function AdditionalInfo(width: nat, arg: nat): nat {
    if width == 0 then arg else if width == 1 then 24 else if width == 2 then 25 else if width == 4 then 26 else 27
  }

  /** The head as RFC 8949 section 3 lays it out; a major type above 0x80 stands for an indefinite length. */
  function Head(major: byte, minLen: nat, arg: nat): (h: bytes)
    ensures 1 <= |h| <= 9
  {
    if major > INDEFINITE_MODIFIER then
      [((major - INDEFINITE_MODIFIER) * 32 + SIMPLE_BREAK) % 256]
    else
      var width := ArgumentWidth(minLen, arg);
      [(major * 32 + AdditionalInfo(width, arg)) % 256] + ToBytes(arg, width)
  }

  /** Octets written by the first i turns of the outer loop. */
  function Written(i: nat): nat {
    if i == 0 then 0 else if i == 1 then 1 else if i == 2 then 2 else if i == 3 then 4 else 8
  }

  /** The inner loop: the n low-order octets of an argument, backwards from p. */
  method PutOctets(buffer: array<byte>, p: nat, argument: nat, n: nat) returns (start: nat, rest: nat)
    requires n <= p <= buffer.Length
    modifies buffer
    ensures start == p - n && rest == Shr8(argument, n)
    ensures buffer[..] == old(buffer[..start]) + ToBytes(argument, n) + old(buffer[p..])
  {
    start, rest := p, argument;
    ghost var before := buffer[..];
    var j := 0;
    while j < n
      invariant 0 <= j <= n && start == p - j
      invariant rest == Shr8(argument, j)
      invariant buffer[..] == before[..start] + ToBytes(argument, j) + before[p..]
    {
      var octet: byte := rest % 256;
      PutBefore(before, start, ToBytes(argument, j), before[p..], octet);
      ToBytesGrow(argument, j);
      Shr8Step(argument, j);
      ghost var previous := buffer[..];
      start := start - 1;
      buffer[start] := octet;
      assert buffer[..] == previous[start := octet];
      rest := rest / 256;
      j := j + 1;
    }
  }

  /** The outer loop: 1, 2, 4 or 8 octets of the argument, backwards from bufferEnd, in i turns. */
  method PutArgument(buffer: array<byte>, bufferEnd: nat, minLen: byte, argument: uint64) returns (p: nat, i: nat)
    requires 8 <= bufferEnd <= buffer.Length && minLen <= 8 && (argument >= TWENTY_FOUR || minLen > 0)
    modifies buffer
    ensures 0 < i <= 4 && Written(i) == ArgumentWidth(minLen, argument) && p == bufferEnd - Written(i)
    ensures AdditionalInfo(Written(i), argument) == LEN_IS_ONE_BYTE - 1 + i
    ensures buffer[..] == old(buffer[..])[..p] + ToBytes(argument, Written(i)) + old(buffer[..])[bufferEnd..]
  {
    hide ToBytes, Shr8, ArgumentWidth, AdditionalInfo;
    NothingShifted(argument);
    ghost var before := buffer[..];
    ghost var octets: bytes := [];
    p, i := bufferEnd, 0;
    var iterate := [1, 1, 2, 4];
    var uArgument: nat := argument;
    var nMinLen: int := minLen;
    while uArgument != 0 || nMinLen > 0
      invariant 0 <= i <= 4
      invariant p == bufferEnd - Written(i) && nMinLen == minLen - Written(i)
      invariant uArgument == Shr8(argument, Written(i))
      invariant i == 4 ==> uArgument == 0
      invariant i > 0 ==> Shr8(argument, Written(i - 1)) != 0 || minLen > Written(i - 1)
      invariant octets == ToBytes(argument, Written(i))
      invariant buffer[..] == before[..p] + octets + before[bufferEnd..]
      decreases 4 - i
    {
      var nIterations := iterate[i];
      assert Written(i + 1) == Written(i) + nIterations;
      ToBytesAppend(argument, Written(i), nIterations);
      Shr8Add(argument, Written(i), nIterations);
      PutManyBefore(before, p, octets, before[bufferEnd..], ToBytes(uArgument, nIterations));
      octets := ToBytes(uArgument, nIterations) + octets;
      p, uArgument := PutOctets(buffer, p, uArgument, nIterations);
      nMinLen := nMinLen - nIterations;
      i := i + 1;
      EightOctetsAreAll(argument);
    }
    LoopWidth(argument, minLen, i);
  }

  lemma NothingShifted(n: nat)
    ensures Shr8(n, 0) == n && ToBytes(n, 0) == []
  {
  }

  /**
    Works backwards from the end of the buffer, as the C code does; the head is
    buffer[start..start + length].
   */
  method EncodeHead(buffer: array<byte>, major: byte, minLen: byte, argument: uint64) returns (start: nat, length: nat)
    requires minLen <= 8
    modifies buffer
    ensures buffer.Length < 10 ==> length == 0 && start == 0 && buffer[..] == old(buffer[..])
    ensures buffer.Length >= 10 ==>
              && start + length == 9
              && buffer[..] == old(buffer[..])[..start] + Head(major, minLen, argument)
                 + old(buffer[..])[9..]
  {
    hide ToBytes, AdditionalInfo;
    if buffer.Length < HEAD_BUFFER_SIZE {
      return 0, 0;
    }
    var bufferEnd := HEAD_BUFFER_SIZE - 1;
    var p := bufferEnd;
    var uMajorType := major;
    var nAdditionalInfo: int;
    ghost var before, octets := buffer[..], ToBytes(argument, ArgumentWidth(minLen, argument));
    NothingShifted(argument);
    if uMajorType > INDEFINITE_MODIFIER {
      uMajorType := uMajorType - INDEFINITE_MODIFIER;
      nAdditionalInfo := SIMPLE_BREAK;
      octets := [];
    } else if argument < TWENTY_FOUR && minLen == 0 {
      nAdditionalInfo := argument;
      assert AdditionalInfo(0, argument) == argument by { ItselfIsInfo(argument); }
    } else {
      var i;
      p, i := PutArgument(buffer, bufferEnd, minLen, argument);
      nAdditionalInfo := LEN_IS_ONE_BYTE - 1 + i;
    }
    var initialByte: byte := (uMajorType * 32 + nAdditionalInfo) % 256;
    assert Head(major, minLen, argument) == [initialByte] + octets;
    hide Head, ArgumentWidth;
    assert buffer[..] == before[..p] + octets + before[bufferEnd..];
    PutBefore(before, p, octets, before[bufferEnd..], initialByte);
    ghost var previous := buffer[..];
    p := p - 1;
    buffer[p] := initialByte;
    assert buffer[..] == previous[p := initialByte];
    return p, bufferEnd - p;
  }

  lemma ItselfIsInfo(argument: nat)
    ensures AdditionalInfo(0, argument) == argument
  {
  }

  lemma PutBefore(before: bytes, p: nat, written: bytes, rest: bytes, b: byte)
    requires 0 < p <= |before|
    ensures (before[..p] + written + rest)[p - 1 := b] == before[..p - 1] + ([b] + written) + rest
  {
  }

  lemma PutManyBefore(before: bytes, p: nat, written: bytes, rest: bytes, new_: bytes)
    requires |new_| <= p <= |before|
    ensures var now := before[..p] + written + rest;
            now[..p - |new_|] + new_ + now[p..] == before[..p - |new_|] + (new_ + written) + rest
  {
    var now := before[..p] + written + rest;
    assert now[..p - |new_|] == before[..p - |new_|];
    assert now[p..] == written + rest;
  }

  lemma EightOctetsAreAll(arg: uint64)
    ensures Shr8(arg, 8) == 0
  {
    Shr8Bounds(arg);
  }

  /** The loop stops at the smallest width that holds the argument and the minimum length. */
  lemma LoopWidth(arg: uint64, minLen: nat, i: nat)
    requires i <= 4 && minLen <= 8 && (arg >= TWENTY_FOUR || minLen > 0)
    requires Shr8(arg, Written(i)) == 0 && minLen <= Written(i)
    requires i > 0 ==> Shr8(arg, Written(i - 1)) != 0 || minLen > Written(i - 1)
    ensures i > 0 && ArgumentWidth(minLen, arg) == Written(i)
    ensures AdditionalInfo(Written(i), arg) == LEN_IS_ONE_BYTE - 1 + i
  {
    Shr8Bounds(arg);
  }

  /** What a reader of RFC 8949 section 3 takes from the front of a byte string. */
  datatype ParsedHead = ParsedHead(major: nat, info: nat, arg: nat, rest: bytes) | Malformed

  function ParseHead(bs: bytes): (r: ParsedHead)
    ensures r.ParsedHead? ==> |r.rest| < |bs| && r.major < 8 && r.info < 32
  {
    if bs == [] then Malformed
    else
      var major, info := bs[0] / 32, bs[0] % 32;
      if info < 24 then ParsedHead(major, info, info, bs[1..])
      else if 28 <= info <= 30 then Malformed
      else if info == 31 then ParsedHead(major, info, 0, bs[1..])
      else
        var width := if info == 24 then 1 else if info == 25 then 2 else if info == 26 then 4 else 8;
        if |bs| < 1 + width then Malformed
        else ParsedHead(major, info, FromBytes(bs[1..1 + width]), bs[1 + width..])
  }

  /** A reader gets back major type, argument and width, and is left with exactly what follows. */
  lemma HeadRoundTrip(major: byte, minLen: nat, arg: uint64, tail: bytes)
    requires major < 8 && minLen <= 8
    ensures var width := ArgumentWidth(minLen, arg);
            ParseHead(Head(major, minLen, arg) + tail) == ParsedHead(major, AdditionalInfo(width, arg), arg, tail)
  {
    var width := ArgumentWidth(minLen, arg);
    var bs := Head(major, minLen, arg) + tail;
    assert bs == [major * 32 + AdditionalInfo(width, arg)] + ToBytes(arg, width) + tail;
    assert bs[0] / 32 == major && bs[0] % 32 == AdditionalInfo(width, arg);
    assert bs[1..1 + width] == ToBytes(arg, width) && bs[1 + width..] == tail;
    WidthSuffices(minLen, arg);
    if width > 0 {
      FromToBytes(arg, width);
    }
  }

  lemma WidthSuffices(minLen: nat, arg: uint64)
    ensures var width := ArgumentWidth(minLen, arg); width > 0 ==> Shr8(arg, width) == 0
  {
    Shr8Bounds(arg);
  }

  /** The markers of indefinite lengths and the break code. */
  lemma IndefiniteHeads(minLen: nat, arg: nat)
    ensures Head(4 + INDEFINITE_MODIFIER, minLen, arg) == [0x9f]
    ensures Head(5 + INDEFINITE_MODIFIER, minLen, arg) == [0xbf]
    ensures Head(7 + INDEFINITE_MODIFIER, minLen, arg) == [0xff]
  {
  }

  /** Preferred serialization, RFC 8949 section 4.1: no head of the same major type and argument is shorter. */
  lemma HeadIsShortest(major: byte, arg: uint64, other: bytes)
    requires major < 8
    requires var p := ParseHead(other);
             p.ParsedHead? && p.major == major && p.info != 31 && p.arg == arg && p.rest == []
    ensures |Head(major, 0, arg)| <= |other|
  {
    var info := other[0] % 32;
    if 24 <= info {
      var width := if info == 24 then 1 else if info == 25 then 2 else if info == 26 then 4 else 8;
      assert other[1 + width..] == [] && |other| == 1 + width;
      var argument := other[1..1 + width];
      ToFromBytes(argument);
      assert arg == FromBytes(argument);
      ShortestWidth(arg, width);
    }
  }

  lemma ShortestWidth(arg: uint64, width: nat)
    requires width in {1, 2, 4, 8} && Shr8(arg, width) == 0
    ensures ArgumentWidth(0, arg) <= width
  {
    Shr8Bounds(arg);
  }
}
