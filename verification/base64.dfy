/**
  base64.c against RFC 4648 section 4.
 */
module Base64 {
  import opened BigEndian
  import opened Options

  function Upper(): (s: string)
    ensures |s| == 26
  {
    "ABCDEFGHIJKLMNOPQRSTUVWXYZ"
  }

  function Lower(): (s: string)
    ensures |s| == 26
  {
    "abcdefghijklmnopqrstuvwxyz"
  }

  function Others(): (s: string)
    ensures |s| == 12
  {
    "0123456789+/"
  }

  /** base64_table. */
  function Table(): (s: string)
    ensures |s| == 64
  {
    Upper() + Lower() + Others()
  }

  function EncLen(size: nat): nat {
    4 * ((size + 2) / 3) + 1
  }

  // ----- the encoding and its reader -----

  /** 24 bits from one to three octets, missing ones zero. */
  function Bits(group: bytes): nat
    requires 1 <= |group| <= 3
  {
    group[0] as int * 0x1_0000 + (if |group| > 1 then group[1] as int * 0x100 else 0)
      + (if |group| > 2 then group[2] else 0)
  }

  function Symbol(i: nat): char
    requires i < 64
  {
    Table()[i]
  }

  /** Four characters for a group. */
  function EncodeGroup(group: bytes): (s: string)
    requires 1 <= |group| <= 3
    ensures |s| == 4
  {
    var igrp := Bits(group);
    [Symbol(igrp / 0x4_0000 % 64), Symbol(igrp / 0x1000 % 64),
     if |group| > 1 then Symbol(igrp / 64 % 64) else '=', if |group| > 2 then Symbol(igrp % 64) else '=']
  }

  function Encode(data: bytes): (s: string)
    ensures |s| + 1 == EncLen(|data|)
  {
    if data == [] then ""
    else if |data| <= 3 then EncodeGroup(data)
    else EncodeGroup(data[..3]) + Encode(data[3..])
  }

  /** The value of a character of the alphabet, table 1 of RFC 4648. */
  function Value(c: char): (v: Option<nat>)
    ensures v.Some? ==> v.value < 64
  {
    if 'A' <= c <= 'Z' then Some(c as int - 'A' as int)
    else if 'a' <= c <= 'z' then Some(c as int - 'a' as int + 26)
    else if '0' <= c <= '9' then Some(c as int - '0' as int + 52)
    else if c == '+' then Some(62)
    else if c == '/' then Some(63)
    else None
  }

  /** Four characters, of which the last one or two may be padding at the end of the input. */
  function DecodeGroup(s: string, last: bool): Option<bytes>
    requires |s| == 4
  {
    var a, b, c, d := Value(s[0]), Value(s[1]), Value(s[2]), Value(s[3]);
    if a.None? || b.None? then None
    else if last && s[2] == '=' && s[3] == '=' then Some([a.value * 4 + b.value / 16])
    else if c.None? then None
    else if last && s[3] == '=' then Some([a.value * 4 + b.value / 16, b.value % 16 * 16 + c.value / 4])
    else if d.None? then None
    else Some([a.value * 4 + b.value / 16, b.value % 16 * 16 + c.value / 4, c.value % 4 * 64 + d.value])
  }

  function Decode(s: string): Option<bytes> {
    if s == "" then Some([])
    else if |s| < 4 then None
    else
      var first, others := DecodeGroup(s[..4], |s| == 4), Decode(s[4..]);
      if first.None? || others.None? then None else Some(first.value + others.value)
  }

  /** No other character has one. */
  lemma ValueIsOfSymbol(c: char)
    ensures Value(c).Some? ==> Symbol(Value(c).value) == c
  {
  }

  lemma UpperValues(i: nat)
    requires i < 26
    ensures Value(Upper()[i]) == Some(i)
  {
    assert Upper()[i] as int == 'A' as int + i;
  }

  lemma LowerValues(i: nat)
    requires i < 26
    ensures Value(Lower()[i]) == Some(26 + i)
  {
    assert Lower()[i] as int == 'a' as int + i;
  }

  lemma OtherValues(i: nat)
    requires i < 12
    ensures Value(Others()[i]) == Some(52 + i)
  {
  }

  lemma TableValues(i: nat)
    requires i < 64
    ensures Value(Symbol(i)) == Some(i) && Symbol(i) != '='
  {
    assert Value('=').None?;
    hide Upper, Lower, Others, Value;
    if i < 26 {
      UpperValues(i);
    } else if i < 52 {
      LowerValues(i - 26);
    } else {
      OtherValues(i - 52);
    }
  }

  /** The four times six bits of a group, put together again. */
  lemma SixBits(x: byte, y: byte, z: byte)
    ensures var n := x as int * 0x1_0000 + y as int * 0x100 + z;
            && n / 0x4_0000 % 64 == x / 4 && n / 0x1000 % 64 == x % 4 * 16 + y / 16
            && n / 64 % 64 == y % 16 * 4 + z / 64 && n % 64 == z % 64
  {
    var n: nat := x as int * 0x1_0000 + y as int * 0x100 + z;
    var x1, x0, y1, y0, z1, z0 := x / 4, x % 4, y / 16, y % 16, z / 64, z % 64;
    FourDigits(n, x1, x0 * 16 + y1, y0 * 4 + z1, z0);
  }

  lemma FourDigits(n: nat, a: nat, b: nat, c: nat, d: nat)
    requires a < 64 && b < 64 && c < 64 && d < 64 && n == a * 0x4_0000 + b * 0x1000 + c * 64 + d
    ensures n / 0x4_0000 % 64 == a && n / 0x1000 % 64 == b && n / 64 % 64 == c && n % 64 == d
  {
    assert n / 64 == a * 0x1000 + b * 64 + c;
    assert n / 0x1000 == a * 64 + b;
    assert n / 0x4_0000 == a;
  }

  /** The characters of a group, by the sixes of bits they stand for. */
  function Characters(a: nat, b: nat, c: nat, d: nat, octets: nat): string
    requires a < 64 && b < 64 && c < 64 && d < 64
  {
    [Symbol(a), Symbol(b), if octets > 1 then Symbol(c) else '=', if octets > 2 then Symbol(d) else '=']
  }

  /** And the octets that a reader puts together from them. */
  function Octets(a: nat, b: nat, c: nat, d: nat): bytes
    requires a < 64 && b < 64 && c < 64 && d < 64
  {
    [a * 4 + b / 16, b % 16 * 16 + c / 4, c % 4 * 64 + d]
  }

  lemma CharactersRead(a: nat, b: nat, c: nat, d: nat, octets: nat, last: bool)
    requires a < 64 && b < 64 && c < 64 && d < 64 && 1 <= octets <= 3 && (octets < 3 ==> last)
    ensures DecodeGroup(Characters(a, b, c, d, octets), last) == Some(Octets(a, b, c, d)[..octets])
  {
    hide Symbol, Value;
    TableValues(a);
    TableValues(b);
    TableValues(c);
    TableValues(d);
    var o := Octets(a, b, c, d);
    assert o[..1] == [o[0]] && o[..2] == [o[0], o[1]] && o[..3] == o;
  }

  lemma CharactersOf(group: bytes, n: nat, a: nat, b: nat, c: nat, d: nat)
    requires 1 <= |group| <= 3 && a < 64 && b < 64 && c < 64 && d < 64
    requires n == Bits(group) && n / 0x4_0000 % 64 == a && n / 0x1000 % 64 == b && n / 64 % 64 == c && n % 64 == d
    ensures EncodeGroup(group) == Characters(a, b, c, d, |group|)
  {
    hide Symbol, Bits;
  }

  lemma GroupCharacters(group: bytes, x: byte, y: byte, z: byte)
    requires 1 <= |group| <= 3 && group == [x, y, z][..|group|] && (|group| < 3 ==> z == 0) && (|group| < 2 ==> y == 0)
    ensures EncodeGroup(group) == Characters(x / 4, x % 4 * 16 + y / 16, y % 16 * 4 + z / 64, z % 64, |group|)
  {
    var n: nat := x as int * 0x1_0000 + y as int * 0x100 + z;
    assert n == Bits(group);
    hide *;
    SixBits(x, y, z);
    CharactersOf(group, n, x / 4, x % 4 * 16 + y / 16, y % 16 * 4 + z / 64, z % 64);
  }

  lemma OctetsOf(x: byte, y: byte, z: byte)
    ensures Octets(x / 4, x % 4 * 16 + y / 16, y % 16 * 4 + z / 64, z % 64) == [x, y, z]
  {
    Regrouped(x, y, z);
  }

  lemma GroupReadsBack(group: bytes, last: bool)
    requires 1 <= |group| <= 3 && (|group| < 3 ==> last)
    ensures DecodeGroup(EncodeGroup(group), last) == Some(group)
  {
    var x: byte, y: byte, z: byte := group[0], if |group| > 1 then group[1] else 0, if |group| > 2 then group[2] else 0;
    assert group == [x, y, z][..|group|];
    hide *;
    GroupCharacters(group, x, y, z);
    CharactersRead(x / 4, x % 4 * 16 + y / 16, y % 16 * 4 + z / 64, z % 64, |group|, last);
    OctetsOf(x, y, z);
  }

  lemma Regrouped(x: byte, y: byte, z: byte)
    ensures var b, c := x % 4 * 16 + y / 16, y % 16 * 4 + z / 64;
            x / 4 * 4 + b / 16 == x && b % 16 * 16 + c / 4 == y && c % 4 * 64 + z % 64 == z
  {
  }

  /** Every input is recovered. */
  lemma {:induction false} DecodeEncode(data: bytes)
    ensures Decode(Encode(data)) == Some(data)
  {
    hide EncodeGroup, DecodeGroup;
    if data == [] {
    } else if |data| <= 3 {
      GroupReadsBack(data, true);
      assert Encode(data) == EncodeGroup(data);
      assert Encode(data)[..4] == EncodeGroup(data) && Encode(data)[4..] == "";
      assert Decode("") == Some([]) && data + [] == data;
    } else {
      var s := Encode(data);
      GroupReadsBack(data[..3], |s| == 4);
      DecodeEncode(data[3..]);
      assert s[..4] == EncodeGroup(data[..3]) && s[4..] == Encode(data[3..]);
      assert data[..3] + data[3..] == data;
    }
  }

  // ----- the C function -----

  lemma EncodeStep(data: bytes)
    requires data != []
    ensures var k := if |data| < 3 then |data| else 3; Encode(data) == EncodeGroup(data[..k]) + Encode(data[k..])
  {
    hide EncodeGroup;
    if |data| <= 3 {
      assert data[..|data|] == data && data[|data|..] == [];
    }
  }

  /** What is left to encode when the index, which can run past the end, is n. */
  function Left(input: bytes, n: nat): bytes {
    if n <= |input| then input[n..] else []
  }

  lemma LeftStep(input: bytes, n: nat)
    requires n < |input|
    ensures Encode(Left(input, n))
            == EncodeGroup(input[n..if n + 3 <= |input| then n + 3 else |input|]) + Encode(Left(input, n + 3))
  {
    hide Encode, EncodeGroup;
    var left, k := input[n..], if n + 3 <= |input| then 3 else |input| - n;
    EncodeStep(left);
    assert left[..k] == input[n..n + k] && left[k..] == Left(input, n + 3);
  }

  /** One turn of the loop: four characters. */
  method PutGroup(input: bytes, n: nat, out: array<char>, boffs: nat)
    requires n < |input| && boffs + 4 <= out.Length
    modifies out
    ensures out[..] == old(out[..boffs]) + EncodeGroup(input[n..if n + 3 <= |input| then n + 3 else |input|])
            + old(out[boffs + 4..])
  {
    ghost var group := input[n..if n + 3 <= |input| then n + 3 else |input|];
    var igrp: nat := input[n];
    igrp := igrp * 0x100;
    if n + 1 < |input| {
      igrp := igrp + input[n + 1];
    }
    igrp := igrp * 0x100;
    if n + 2 < |input| {
      igrp := igrp + input[n + 2];
    }
    assert igrp == Bits(group);
    out[boffs] := Symbol(igrp / 0x4_0000 % 64);
    out[boffs + 1] := Symbol(igrp / 0x1000 % 64);
    if n + 1 < |input| {
      out[boffs + 2] := Symbol(igrp / 64 % 64);
    } else {
      out[boffs + 2] := '=';
    }
    if n + 2 < |input| {
      out[boffs + 3] := Symbol(igrp % 64);
    } else {
      out[boffs + 3] := '=';
    }
    assert out[boffs..boffs + 4] == EncodeGroup(group);
  }

  /** Four more characters behind those written. */
  lemma OneMoreGroup(written: string, group: string, before: string, others: string)
    requires |written| + |group| <= |before|
    ensures var now, boffs, end := written + before[|written|..], |written|, |written| + |group|;
            now[..boffs] + group + now[end..] == (written + group) + before[end..]
    ensures (written + group) + others == written + (group + others)
  {
    var now := written + before[|written|..];
    assert now[..|written|] == written && now[|written| + |group|..] == before[|written| + |group|..];
  }

  /** outlen is the room there is; outLen comes back as the length used or needed. */
  method Base64Encode(input: bytes, out: array<char>, outlen: nat) returns (ok: bool, outLen: nat)
    requires outlen <= out.Length && |input| <= SIZE_MAX / 2
    modifies out
    ensures ok <==> EncLen(|input|) <= outlen
    ensures outLen == EncLen(|input|)
    ensures !ok ==> out[..] == old(out[..])
    ensures ok ==> out[..outLen] == Encode(input) + ['\0'] && out[outLen..] == old(out[outLen..])
  {
    hide Encode, EncodeGroup, EncLen;
    var boffs := 0;
    var n := EncLen(|input|);
    if outlen < n {
      return false, n;
    }
    n := 0;
    ghost var written: string := "";
    ghost var before := out[..];
    assert Left(input, 0) == input;
    while n < |input|
      invariant boffs == |written| && boffs + |Encode(Left(input, n))| + 1 == EncLen(|input|)
      invariant written + Encode(Left(input, n)) == Encode(input)
      invariant out[..] == written + before[boffs..]
    {
      ghost var group := EncodeGroup(input[n..if n + 3 <= |input| then n + 3 else |input|]);
      LeftStep(input, n);
      PutGroup(input, n, out, boffs);
      OneMoreGroup(written, group, before, Encode(Left(input, n + 3)));
      written := written + group;
      boffs := boffs + 4;
      n := n + 3;
    }
    EmptyEncodes();
    assert written + "" == written;
    out[boffs] := '\0';
    boffs := boffs + 1;
    return true, boffs;
  }

  lemma EmptyEncodes()
    ensures Encode([]) == ""
  {
  }
}
