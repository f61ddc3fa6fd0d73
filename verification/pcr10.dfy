/**
  pcr10_recompute3.py: replaying an IMA measurement list into PCR 10.  The hash is
  any function to 32 bytes; what cannot be proved of such a function, that two
  inputs differ in their hashes, comes back as an explicit counterexample to it.
 */
module Pcr10 {
  import opened BigEndian
  import opened Hashing
  import opened Options

  const HASH_SIZE: nat := 32

  ghost predicate To32Bytes(hash: Hash) {
    forall b :: |hash(b)| == HASH_SIZE
  }

  function Repeat(b: byte, n: nat): (r: bytes)
    ensures |r| == n && forall i :: 0 <= i < n ==> r[i] == b
  {
    seq(n, _ => b)
  }

  const ZERO_PCR: bytes := Repeat(0, HASH_SIZE)
  const ONES: bytes := Repeat(0xff, HASH_SIZE)

  // ----- hex digits -----

  function Digit(c: char): Option<nat> {
    if '0' <= c <= '9' then Some(c as int - '0' as int)
    else if 'a' <= c <= 'f' then Some(c as int - 'a' as int + 10)
    else if 'A' <= c <= 'F' then Some(c as int - 'A' as int + 10)
    else None
  }

  predicate IsSpace(c: char) {
    c == ' ' || '\t' as int <= c as int <= '\r' as int
  }

  /** bytes.fromhex: pairs of digits, with white space allowed around the pairs. */
  function FromHex(s: string): Option<bytes> {
    if s == "" then Some([])
    else if IsSpace(s[0]) then FromHex(s[1..])
    else if |s| < 2 then None
    else
      var hi, lo, rest := Digit(s[0]), Digit(s[1]), FromHex(s[2..]);
      if hi.None? || lo.None? || rest.None? then None else Some([hi.value * 16 + lo.value] + rest.value)
  }

  /** s.replace("0x", ""). */
  function Without0x(s: string): string {
    if |s| < 2 then s
    else if s[0] == '0' && s[1] == 'x' then Without0x(s[2..])
    else [s[0]] + Without0x(s[1..])
  }

  function HexDigit(n: nat, upper: bool): char
    requires n < 16
  {
    if upper then "0123456789ABCDEF"[n] else "0123456789abcdef"[n]
  }

  /** In lower case what bytes.hex and tpm2_pcrread give; in upper case, the same value too. */
  function Hex(b: bytes, upper: bool): string {
    if b == [] then "" else [HexDigit(b[0] / 16, upper), HexDigit(b[0] % 16, upper)] + Hex(b[1..], upper)
  }

  lemma HexDigitReadsBack(n: nat, upper: bool)
    requires n < 16
    ensures Digit(HexDigit(n, upper)) == Some(n) && !IsSpace(HexDigit(n, upper)) && HexDigit(n, upper) != 'x'
  {
    var digits := if upper then "0123456789ABCDEF" else "0123456789abcdef";
    assert HexDigit(n, upper) == digits[n];
    assert n < 8 || n >= 8;
  }

  lemma SpacesAre(c: char)
    ensures IsSpace(c) <==> c in " \t\n\U{0b}\U{0c}\r"
  {
  }

  /** One octet in front of others. */
  lemma PairReadsBack(octet: byte, upper: bool, rest: string)
    ensures var s := [HexDigit(octet / 16, upper), HexDigit(octet % 16, upper)] + rest;
            FromHex(s) == if FromHex(rest).Some? then Some([octet] + FromHex(rest).value) else None
  {
    hide HexDigit, Digit, IsSpace;
    HexDigitReadsBack(octet / 16, upper);
    HexDigitReadsBack(octet % 16, upper);
    var s := [HexDigit(octet / 16, upper), HexDigit(octet % 16, upper)] + rest;
    assert s[2..] == rest && octet / 16 * 16 + octet % 16 == octet;
  }

  lemma NoHex(upper: bool)
    ensures Hex([], upper) == "" && FromHex("") == Some([])
  {
  }

  lemma HexSplits(b: bytes, upper: bool, rest: string)
    requires b != []
    ensures Hex(b, upper) + rest
         == [HexDigit(b[0] / 16, upper), HexDigit(b[0] % 16, upper)] + (Hex(b[1..], upper) + rest)
  {
    hide HexDigit;
  }

  /** Octets in front of others. */
  lemma {:induction false} HexReadsOn(b: bytes, upper: bool, rest: string)
    ensures FromHex(Hex(b, upper) + rest) == if FromHex(rest).Some? then Some(b + FromHex(rest).value) else None
  {
    hide *;
    if b == [] {
      NoHex(upper);
      assert Hex(b, upper) + rest == rest;
      assert FromHex(rest).Some? ==> b + FromHex(rest).value == FromHex(rest).value;
    } else {
      HexReadsOn(b[1..], upper, rest);
      PairReadsBack(b[0], upper, Hex(b[1..], upper) + rest);
      HexSplits(b, upper, rest);
      assert FromHex(rest).Some? ==> [b[0]] + (b[1..] + FromHex(rest).value) == b + FromHex(rest).value;
    }
  }

  lemma {:induction false} SpacesReadOn(gap: string, rest: string)
    requires forall i :: 0 <= i < |gap| ==> IsSpace(gap[i])
    ensures FromHex(gap + rest) == FromHex(rest)
  {
    if gap == "" {
      assert gap + rest == rest;
    } else {
      SpacesReadOn(gap[1..], rest);
      assert (gap + rest)[1..] == gap[1..] + rest;
    }
  }

  /** White space is skipped between the octets. */
  lemma SpacedHexReadsOn(b: bytes, upper: bool, gap: string, rest: string)
    requires forall i :: 0 <= i < |gap| ==> IsSpace(gap[i])
    ensures FromHex(Hex(b, upper) + gap + rest)
         == if FromHex(rest).Some? then Some(b + FromHex(rest).value) else None
  {
    hide FromHex, Hex, IsSpace;
    HexReadsOn(b, upper, gap + rest);
    SpacesReadOn(gap, rest);
    assert Hex(b, upper) + gap + rest == Hex(b, upper) + (gap + rest);
  }

  lemma HexReadsBack(b: bytes, upper: bool)
    ensures FromHex(Hex(b, upper)) == Some(b)
  {
    hide Hex;
    NoHex(upper);
    HexReadsOn(b, upper, "");
    assert Hex(b, upper) + "" == Hex(b, upper) && b + [] == b;
  }

  lemma {:induction false} NoXInHex(b: bytes, upper: bool)
    ensures 'x' !in Hex(b, upper)
  {
    if b != [] {
      hide HexDigit;
      HexDigitReadsBack(b[0] / 16, upper);
      HexDigitReadsBack(b[0] % 16, upper);
      NoXInHex(b[1..], upper);
    }
  }

  /** The text without white space, in lower case. */
  function Lower(s: string): string {
    if s == "" then ""
    else if IsSpace(s[0]) then Lower(s[1..])
    else [LowerCase(s[0])] + Lower(s[1..])
  }

  function LowerCase(c: char): char {
    if 'A' <= c <= 'Z' then c + ' ' else c
  }

  /** There are no digits but these. */
  lemma DigitIsHex(c: char)
    requires Digit(c).Some?
    ensures Digit(c).value < 16 && !IsSpace(c) && LowerCase(c) == HexDigit(Digit(c).value, false)
  {
    var n, digits := Digit(c).value, "0123456789abcdef";
    assert HexDigit(n, false) == digits[n];
    assert n < 8 || n >= 8;
  }

  lemma LowerOne(s: string)
    requires s != "" && !IsSpace(s[0])
    ensures Lower(s) == [LowerCase(s[0])] + Lower(s[1..])
  {
  }

  lemma LowerPair(s: string)
    requires |s| >= 2 && Digit(s[0]).Some? && Digit(s[1]).Some?
    ensures Digit(s[0]).value < 16 && Digit(s[1]).value < 16
    ensures Lower(s) == [HexDigit(Digit(s[0]).value, false), HexDigit(Digit(s[1]).value, false)] + Lower(s[2..])
  {
    hide *;
    DigitIsHex(s[0]);
    DigitIsHex(s[1]);
    LowerOne(s);
    LowerOne(s[1..]);
    assert s[1..][1..] == s[2..];
  }

  /** Whatever is decoded at all was given in hex: nothing else than white space and case is lost. */
  lemma {:induction false} DecodedWasGiven(s: string)
    ensures FromHex(s).Some? ==> Lower(s) == Hex(FromHex(s).value, false)
  {
    hide HexDigit, Digit, IsSpace;
    if s == "" || FromHex(s).None? {
    } else if IsSpace(s[0]) {
      DecodedWasGiven(s[1..]);
    } else {
      DecodedWasGiven(s[2..]);
      LowerPair(s);
      var hi, lo := Digit(s[0]).value, Digit(s[1]).value;
      var octet := hi * 16 + lo;
      assert octet / 16 == hi && octet % 16 == lo;
      assert FromHex(s).value[1..] == FromHex(s[2..]).value;
    }
  }

  /** Where there is no 0x, nothing is removed. */
  lemma {:induction false} NothingToRemove(s: string)
    requires forall i :: 0 <= i < |s| - 1 && s[i] == '0' ==> s[i + 1] != 'x'
    ensures Without0x(s) == s
  {
    if |s| >= 2 {
      NothingToRemove(s[1..]);
    }
  }

  lemma SkipTwo(s: string)
    requires |s| >= 2 && s[0] == '0' && s[1] == 'x'
    ensures Without0x(s) == Without0x(s[2..])
  {
  }

  lemma KeepOne(s: string)
    requires s != "" && (s[0] == '0' && |s| >= 2 ==> s[1] != 'x')
    ensures Without0x(s) == [s[0]] + Without0x(s[1..]) && Without0x("") == ""
  {
  }

  /** Where there is one, it is. */
  lemma {:induction false} RemovedWithin(s: string, t: string)
    ensures Without0x(s + "0x" + t) == Without0x(s) + Without0x(t)
  {
    var all := s + "0x" + t;
    hide *;
    if s == "" {
      KeepOne("0");
      SkipTwo(all);
      assert all[2..] == t;
    } else if |s| >= 2 && s[0] == '0' && s[1] == 'x' {
      RemovedWithin(s[2..], t);
      SkipTwo(all);
      SkipTwo(s);
      assert all[2..] == s[2..] + "0x" + t;
    } else {
      RemovedWithin(s[1..], t);
      KeepOne(all);
      KeepOne(s);
      assert all[1..] == s[1..] + "0x" + t;
    }
  }

  /** A value given in hex is the one that the search compares with, in either case, with or without 0x in front. */
  lemma ExpectedReadsBack(b: bytes, upper: bool)
    ensures FromHex(Without0x(Hex(b, upper))) == Some(b) == FromHex(Without0x("0x" + Hex(b, upper)))
  {
    hide *;
    var s := Hex(b, upper);
    HexReadsBack(b, upper);
    NoXInHex(b, upper);
    assert forall i :: 0 <= i < |s| ==> s[i] in s;
    NothingToRemove(s);
    SkipTwo("0x" + s);
    assert ("0x" + s)[2..] == s;
  }

  // ----- entries -----

  /** The digits of the file hash and the encoded path. */
  datatype Entry = Entry(fileHash: string, path: bytes) {
    predicate AllZero() {
      |fileHash| == 64 && forall i :: 0 <= i < 64 ==> fileHash[i] == '0'
    }
  }

  /** What splitting a line at white space leaves of it. */
  predicate NoSpaces(s: string) {
    forall i :: 0 <= i < |s| ==> !IsSpace(s[i])
  }

  predicate Zeros(s: string) {
    forall i :: 0 <= i < |s| ==> s[i] == '0'
  }

  lemma ZeroDigit(c: char)
    ensures Digit(c) == Some(0) <==> c == '0'
    ensures Digit(c).Some? ==> Digit(c).value < 16
  {
  }

  lemma ZeroPair(s: string, n: nat)
    requires |s| >= 2 && !IsSpace(s[0])
    ensures FromHex(s) == Some(Repeat(0, n + 1))
       <==> s[0] == '0' && s[1] == '0' && FromHex(s[2..]) == Some(Repeat(0, n))
  {
    hide Digit, IsSpace;
    ZeroDigit(s[0]);
    ZeroDigit(s[1]);
    assert Repeat(0, n + 1) == [0] + Repeat(0, n);
    if FromHex(s) == Some(Repeat(0, n + 1)) {
      assert FromHex(s).value[1..] == FromHex(s[2..]).value;
      assert FromHex(s).value[0] == 0;
    }
  }

  /** Without white space, n zero octets are given by 2 * n zero digits and by nothing else. */
  lemma {:induction false} ZeroDigits(s: string, n: nat)
    requires NoSpaces(s)
    ensures FromHex(s) == Some(Repeat(0, n)) <==> |s| == 2 * n && Zeros(s)
  {
    if |s| < 2 || n == 0 {
      FewDigits(s);
      assert n == 0 ==> Repeat(0, n) == [];
    } else {
      hide FromHex;
      ZeroPair(s, n - 1);
      ZeroDigits(s[2..], n - 1);
      assert s == [s[0], s[1]] + s[2..];
    }
  }

  lemma FewDigits(s: string)
    requires NoSpaces(s)
    ensures |s| == 1 ==> FromHex(s).None?
    ensures FromHex(s).Some? && FromHex(s).value == [] <==> s == ""
  {
  }

  lemma AllZeroIff(e: Entry)
    requires NoSpaces(e.fileHash)
    ensures e.AllZero() <==> FromHex(e.fileHash) == Some(Repeat(0, 32))
  {
    hide FromHex;
    ZeroDigits(e.fileHash, 32);
  }

  /** struct.pack("<I", n): the low-order octet first. */
  function Le32(n: nat): (r: bytes)
    ensures |r| == 4
  {
    var b := ToBytes(n, 4);
    [b[3], b[2], b[1], b[0]]
  }

  /** "sha256:" and a zero byte. */
  const SHA256_PREFIX: bytes := [0x73, 0x68, 0x61, 0x32, 0x35, 0x36, 0x3a, 0]

  function Prefixed(b: bytes): bytes {
    Le32(|b|) + b
  }

  /** The two fields of the ima-ng template. */
  function TemplateData(fileHash: bytes, path: bytes): bytes {
    Prefixed(SHA256_PREFIX + fileHash) + Prefixed(path + [0])
  }

  /** Lengths that fit 32 bits; struct.pack raises an error for others. */
  predicate Packs(fileHash: bytes, path: bytes) {
    |SHA256_PREFIX + fileHash| < 0x1_0000_0000 && |path + [0]| < 0x1_0000_0000
  }

  function ComputeTemplateHash(hash: Hash, e: Entry): Option<bytes> {
    if e.AllZero() then Some(ONES)
    else
      var fileHash := FromHex(e.fileHash);
      if fileHash.None? || !Packs(fileHash.value, e.path) then None
      else Some(hash(TemplateData(fileHash.value, e.path)))
  }

  // ----- reading a template -----

  datatype Field = Field(content: bytes, rest: bytes) | NoField

  /** A field with its length in front, low-order octet first. */
  function ReadField(b: bytes): Field {
    if |b| < 4 then NoField
    else
      var n := FromBytes([b[3], b[2], b[1], b[0]]);
      if |b| < 4 + n then NoField else Field(b[4..4 + n], b[4 + n..])
  }

  /** The file hash behind "sha256:" and a zero byte, and the path in front of a zero byte. */
  function ReadTemplate(b: bytes): Option<(bytes, bytes)> {
    var d := ReadField(b);
    if d.NoField? || |d.content| < 8 || d.content[..8] != Ascii("sha256:") + [0] then None
    else
      var n := ReadField(d.rest);
      if n.NoField? || n.content == [] || n.content[|n.content| - 1] != 0 || n.rest != [] then None
      else Some((d.content[8..], n.content[..|n.content| - 1]))
  }

  lemma FieldReadsBack(content: bytes, rest: bytes)
    requires |content| < 0x1_0000_0000
    ensures ReadField(Prefixed(content) + rest) == Field(content, rest)
  {
    var b, le := Prefixed(content) + rest, ToBytes(|content|, 4);
    assert [b[3], b[2], b[1], b[0]] == le;
    Shr8Bounds(|content|);
    FromToBytes(|content|, 4);
    assert b[4..4 + |content|] == content && b[4 + |content|..] == rest;
  }

  /** The length prefixes keep hash and path apart: both are read back. */
  lemma TemplateReadsBack(fileHash: bytes, path: bytes)
    requires Packs(fileHash, path)
    ensures ReadTemplate(TemplateData(fileHash, path)) == Some((fileHash, path))
  {
    hide ReadField, Prefixed;
    assert SHA256_PREFIX == Ascii("sha256:") + [0];
    var d, n := SHA256_PREFIX + fileHash, path + [0];
    FieldReadsBack(d, Prefixed(n));
    FieldReadsBack(n, []);
    assert Prefixed(n) + [] == Prefixed(n);
    assert d[..8] == SHA256_PREFIX && d[8..] == fileHash && n[..|n| - 1] == path;
  }

  lemma TemplateInjective(h: bytes, p: bytes, h': bytes, p': bytes)
    requires Packs(h, p) && Packs(h', p') && TemplateData(h, p) == TemplateData(h', p')
    ensures h == h' && p == p'
  {
    hide TemplateData, ReadTemplate;
    TemplateReadsBack(h, p);
    TemplateReadsBack(h', p');
  }

  /**
    The template hash of any entry: 32 times 0xff for a file hash of 32 zeroes, so
    that the path of such an entry leaves no trace; for every other file hash the
    hash of a template from which hash and path are read back.
   */
  lemma TemplateHashIs(hash: Hash, e: Entry)
    requires NoSpaces(e.fileHash)
    ensures var fileHash, th := FromHex(e.fileHash), ComputeTemplateHash(hash, e);
            if fileHash.None? then th == None
            else if fileHash.value == Repeat(0, 32) then th == Some(Repeat(0xff, 32))
            else if |fileHash.value| > 0xffff_fff7 || |e.path| > 0xffff_fffe then th == None
            else exists x :: ReadTemplate(x) == Some((fileHash.value, e.path)) && th == Some(hash(x))
  {
    hide FromHex, ReadTemplate, TemplateData, Entry.AllZero, IsSpace;
    AllZeroIff(e);
    var fileHash := FromHex(e.fileHash);
    if fileHash.Some? && Packs(fileHash.value, e.path) {
      TemplateReadsBack(fileHash.value, e.path);
    }
  }

  // ----- replay -----

  /** What a TPM makes of a PCR that is extended with one digest after the other. */
  function Extended(hash: Hash, pcr: bytes, digests: seq<bytes>): bytes
    decreases |digests|
  {
    if digests == [] then pcr else Extended(hash, hash(pcr + digests[0]), digests[1..])
  }

  lemma {:induction false} ExtendedMore(hash: Hash, pcr: bytes, digests: seq<bytes>, digest: bytes)
    ensures Extended(hash, pcr, digests + [digest]) == hash(Extended(hash, pcr, digests) + digest)
    decreases |digests|
  {
    var all := digests + [digest];
    if digests == [] {
      assert all[0] == digest && all[1..] == [];
    } else {
      ExtendedMore(hash, hash(pcr + digests[0]), digests[1..], digest);
      assert all[0] == digests[0] && all[1..] == digests[1..] + [digest];
    }
  }

  /** The replay is what happened in the TPM since it was reset. */
  lemma {:induction false} ExtendIsExtended(hash: Hash, digests: seq<bytes>)
    ensures Extend(hash, digests) == Extended(hash, Repeat(0, 32), digests)
  {
    if digests != [] {
      hide Extended;
      var front, last := digests[..|digests| - 1], digests[|digests| - 1];
      ExtendIsExtended(hash, front);
      ExtendedMore(hash, Repeat(0, 32), front, last);
      assert digests == front + [last];
    }
  }

  function Extend(hash: Hash, templateHashes: seq<bytes>): bytes {
    if templateHashes == [] then ZERO_PCR
    else hash(Extend(hash, templateHashes[..|templateHashes| - 1]) + templateHashes[|templateHashes| - 1])
  }

  function TemplateHashes(hash: Hash, entries: seq<Entry>): Option<seq<bytes>> {
    if entries == [] then Some([])
    else
      var front, last := TemplateHashes(hash, entries[..|entries| - 1]),
        ComputeTemplateHash(hash, entries[|entries| - 1]);
      if front.None? || last.None? then None else Some(front.value + [last.value])
  }

  lemma {:induction false} TemplateHashesPrefix(hash: Hash, entries: seq<Entry>, k: nat)
    requires k <= |entries| && TemplateHashes(hash, entries).Some?
    ensures var ths := TemplateHashes(hash, entries);
            |ths.value| == |entries| && TemplateHashes(hash, entries[..k]) == Some(ths.value[..k])
  {
    hide ComputeTemplateHash;
    if entries != [] {
      var n := |entries| - 1;
      var front := entries[..n];
      TemplateHashesPrefix(hash, front, if k < n then k else n);
      if k <= n {
        assert front[..k] == entries[..k];
        assert TemplateHashes(hash, entries).value[..k] == TemplateHashes(hash, front).value[..k];
      } else {
        assert entries[..k] == entries;
        assert TemplateHashes(hash, entries).value[..k] == TemplateHashes(hash, entries).value;
      }
    }
  }

  datatype Recomputed = Recomputed(pcr10: bytes, count: nat) | Raised

  method RecomputePcr10(hash: Hash, entries: seq<Entry>) returns (r: Recomputed)
    ensures var ths := TemplateHashes(hash, entries);
            r == if ths.Some? then Recomputed(Extended(hash, Repeat(0, 32), ths.value), |entries|) else Raised
  {
    hide ComputeTemplateHash, Extended;
    var pcr10, count := ZERO_PCR, 0;
    for i := 0 to |entries|
      invariant count == i
      invariant TemplateHashes(hash, entries[..i]).Some? && |TemplateHashes(hash, entries[..i]).value| == i
      invariant pcr10 == Extend(hash, TemplateHashes(hash, entries[..i]).value)
    {
      OneMoreEntry(hash, entries, i);
      var templateHash := ComputeTemplateHash(hash, entries[i]);
      if templateHash.None? {
        return Raised;
      }
      pcr10 := hash(pcr10 + templateHash.value);
      count := count + 1;
    }
    assert entries[..|entries|] == entries;
    ExtendIsExtended(hash, TemplateHashes(hash, entries).value);
    return Recomputed(pcr10, count);
  }

  lemma OneMoreEntry(hash: Hash, entries: seq<Entry>, i: nat)
    requires i < |entries| && TemplateHashes(hash, entries[..i]).Some?
    ensures var ths, th := TemplateHashes(hash, entries[..i]).value, ComputeTemplateHash(hash, entries[i]);
            if th.Some? then TemplateHashes(hash, entries[..i + 1]) == Some(ths + [th.value])
              && Extend(hash, ths + [th.value]) == hash(Extend(hash, ths) + th.value)
            else TemplateHashes(hash, entries[..i + 1]).None? && TemplateHashes(hash, entries).None?
  {
    hide ComputeTemplateHash;
    var ths, th := TemplateHashes(hash, entries[..i]).value, ComputeTemplateHash(hash, entries[i]);
    assert entries[..i + 1][..i] == entries[..i];
    if th.Some? {
      assert (ths + [th.value])[..|ths|] == ths;
    } else if TemplateHashes(hash, entries).Some? {
      TemplateHashesPrefix(hash, entries, i + 1);
    }
  }

  datatype Search = Search(firstMatch: Option<nat>, total: nat) | SearchRaised

  /** What the search promises: the least number of entries, one at least, whose replay is the expected value. */
  predicate IsFirstMatch(hash: Hash, ths: seq<bytes>, expected: bytes, found: Option<nat>) {
    if found.Some? then
      && 1 <= found.value <= |ths| && Extend(hash, ths[..found.value]) == expected
      && forall k :: 1 <= k < found.value ==> Extend(hash, ths[..k]) != expected
    else
      forall k :: 1 <= k <= |ths| ==> Extend(hash, ths[..k]) != expected
  }

  /** An expected value that is not in hex, or an entry whose hash is not, ends the search with an error. */
  method SimulatePcr10UntilMatch(hash: Hash, entries: seq<Entry>, expectedHex: string) returns (r: Search)
    ensures var ths, expected := TemplateHashes(hash, entries), FromHex(Without0x(expectedHex));
            if ths.Some? && expected.Some? then
              && r.Search? && r.total == |entries|
              && (r.firstMatch.Some? ==>
                    && 1 <= r.firstMatch.value <= |ths.value|
                    && Extend(hash, ths.value[..r.firstMatch.value]) == expected.value)
              && forall k :: 1 <= k <= |ths.value| && (r.firstMatch.Some? ==> k < r.firstMatch.value) ==>
                   Extend(hash, ths.value[..k]) != expected.value
            else r == SearchRaised
  {
    hide ComputeTemplateHash, Extend, FromHex, Without0x;
    NothingExtended(hash);
    var pcr10 := ZERO_PCR;
    var decoded := FromHex(Without0x(expectedHex));
    if decoded.None? {
      return SearchRaised;
    }
    var expected := decoded.value;
    var lineIndex := 0;
    var firstMatch := None;
    ghost var ths: seq<bytes> := [];
    for i := 0 to |entries|
      invariant lineIndex == i == |ths| && TemplateHashes(hash, entries[..i]) == Some(ths)
      invariant pcr10 == Extend(hash, ths)
      invariant IsFirstMatch(hash, ths, expected, firstMatch)
    {
      lineIndex := lineIndex + 1;
      OneMoreEntry(hash, entries, i);
      var templateHash := ComputeTemplateHash(hash, entries[i]);
      if templateHash.None? {
        return SearchRaised;
      }
      pcr10 := hash(pcr10 + templateHash.value);
      OneMoreMatch(hash, ths, templateHash.value, expected, firstMatch);
      ths := ths + [templateHash.value];
      if firstMatch.None? && pcr10 == expected {
        firstMatch := Some(lineIndex);
      }
    }
    assert entries[..|entries|] == entries;
    return Search(firstMatch, lineIndex);
  }

  lemma NothingExtended(hash: Hash)
    ensures Extend(hash, []) == ZERO_PCR
  {
  }

  lemma OneMoreMatch(hash: Hash, ths: seq<bytes>, th: bytes, expected: bytes, found: Option<nat>)
    requires IsFirstMatch(hash, ths, expected, found)
    ensures var more := ths + [th];
            var now := if found.None? && Extend(hash, more) == expected then Some(|more|) else found;
            IsFirstMatch(hash, more, expected, now)
  {
    hide Extend;
    var more := ths + [th];
    assert more[..|more|] == more;
    assert forall k :: 0 <= k <= |ths| ==> more[..k] == ths[..k];
  }

  // ----- what a PCR value says about the list -----

  /** Why two lists can have the same PCR. */
  datatype Reason = Same | Collision(x: bytes, y: bytes) | ZeroPreimage(x: bytes) | OnesPreimage(x: bytes) {
    ghost predicate Holds(hash: Hash) {
      match this
      case Same => true
      case Collision(x, y) => x != y && hash(x) == hash(y)
      case ZeroPreimage(x) => hash(x) == ZERO_PCR
      case OnesPreimage(x) => hash(x) == ONES
    }
  }

  lemma ExtendSize(hash: Hash, ths: seq<bytes>)
    requires To32Bytes(hash)
    ensures |Extend(hash, ths)| == HASH_SIZE
  {
  }

  /** Lists of any lengths with the same PCR are the same, or the hash is broken at a place that is shown. */
  lemma {:induction false} SamePcrSameHashes(hash: Hash, ths: seq<bytes>, ths': seq<bytes>) returns (reason: Reason)
    requires To32Bytes(hash) && Extend(hash, ths) == Extend(hash, ths')
    ensures reason.Holds(hash) && (reason == Same ==> ths == ths') && !reason.OnesPreimage?
    decreases |ths|
  {
    if ths == [] && ths' == [] {
      reason := Same;
    } else if ths == [] {
      reason := ZeroPreimage(Extend(hash, ths'[..|ths'| - 1]) + ths'[|ths'| - 1]);
    } else if ths' == [] {
      reason := ZeroPreimage(Extend(hash, ths[..|ths| - 1]) + ths[|ths| - 1]);
    } else {
      var front, front' := ths[..|ths| - 1], ths'[..|ths'| - 1];
      var last, last' := ths[|ths| - 1], ths'[|ths'| - 1];
      var x, y := Extend(hash, front) + last, Extend(hash, front') + last';
      if x != y {
        reason := Collision(x, y);
      } else {
        ExtendSize(hash, front);
        ExtendSize(hash, front');
        assert x[..HASH_SIZE] == Extend(hash, front) && y[..HASH_SIZE] == Extend(hash, front');
        assert x[HASH_SIZE..] == last && y[HASH_SIZE..] == last';
        reason := SamePcrSameHashes(hash, front, front');
        assert ths == front + [last] && ths' == front' + [last'];
      }
    }
  }

  /** Entries that the replay cannot tell apart: of one file hash, and of one path unless that hash is 32 zeroes. */
  predicate Alike(e: Entry, e': Entry) {
    && FromHex(e.fileHash) == FromHex(e'.fileHash)
    && (e.path == e'.path || FromHex(e.fileHash) == Some(Repeat(0, 32)))
  }

  lemma SameTemplateHash(hash: Hash, e: Entry, e': Entry) returns (reason: Reason)
    requires ComputeTemplateHash(hash, e).Some? && ComputeTemplateHash(hash, e) == ComputeTemplateHash(hash, e')
    ensures reason.Holds(hash) && (reason == Same ==> Alike(e, e'))
  {
    hide TemplateData, FromHex, Entry.AllZero, Packs;
    if e.AllZero() && e'.AllZero() {
      AllZeroValue(e);
      AllZeroValue(e');
      reason := Same;
    } else if e.AllZero() {
      reason := OnesPreimage(TemplateData(FromHex(e'.fileHash).value, e'.path));
    } else if e'.AllZero() {
      reason := OnesPreimage(TemplateData(FromHex(e.fileHash).value, e.path));
    } else {
      var h, h' := FromHex(e.fileHash).value, FromHex(e'.fileHash).value;
      var x, y := TemplateData(h, e.path), TemplateData(h', e'.path);
      if x != y {
        reason := Collision(x, y);
      } else {
        TemplateInjective(h, e.path, h', e'.path);
        reason := Same;
      }
    }
  }

  lemma AllZeroValue(e: Entry)
    requires e.AllZero()
    ensures FromHex(e.fileHash) == Some(Repeat(0, 32))
  {
    hide FromHex;
    AllZeroIff(e);
  }

  lemma {:induction false} SameHashesSameEntries(hash: Hash, es: seq<Entry>, es': seq<Entry>) returns (reason: Reason)
    requires TemplateHashes(hash, es).Some? && TemplateHashes(hash, es) == TemplateHashes(hash, es')
    ensures reason.Holds(hash)
    ensures reason == Same ==> |es| == |es'| && forall i :: 0 <= i < |es| ==> Alike(es[i], es'[i])
    decreases |es|
  {
    hide ComputeTemplateHash, Alike;
    TemplateHashesPrefix(hash, es, 0);
    TemplateHashesPrefix(hash, es', 0);
    reason := Same;
    if es != [] {
      var n := |es| - 1;
      TemplateHashesPrefix(hash, es, n);
      TemplateHashesPrefix(hash, es', n);
      reason := SameTemplateHash(hash, es[n], es'[n]);
      if reason == Same {
        reason := SameHashesSameEntries(hash, es[..n], es'[..n]);
      }
    }
  }

  /** Two measurement lists with the same PCR 10 record the same files, or the hash is broken where shown. */
  lemma SamePcrSameEntries(hash: Hash, es: seq<Entry>, es': seq<Entry>) returns (reason: Reason)
    requires To32Bytes(hash) && TemplateHashes(hash, es).Some? && TemplateHashes(hash, es').Some?
    requires Extend(hash, TemplateHashes(hash, es).value) == Extend(hash, TemplateHashes(hash, es').value)
    ensures match reason
            case Same => true
            case Collision(x, y) => x != y && hash(x) == hash(y)
            case ZeroPreimage(x) => hash(x) == Repeat(0, 32)
            case OnesPreimage(x) => hash(x) == Repeat(0xff, 32)
    ensures reason == Same ==> |es| == |es'| && forall i :: 0 <= i < |es| ==> Alike(es[i], es'[i])
  {
    hide TemplateHashes, Alike, ComputeTemplateHash, Extend;
    reason := SamePcrSameHashes(hash, TemplateHashes(hash, es).value, TemplateHashes(hash, es').value);
    if reason == Same {
      reason := SameHashesSameEntries(hash, es, es');
    }
  }

  /** The converse: lists of entries that are alike pairwise have the same PCR 10. */
  lemma {:induction false} AlikeSameHashes(hash: Hash, es: seq<Entry>, es': seq<Entry>)
    requires |es| == |es'|
    requires forall i :: 0 <= i < |es| ==> Alike(es[i], es'[i]) && NoSpaces(es[i].fileHash + es'[i].fileHash)
    ensures TemplateHashes(hash, es) == TemplateHashes(hash, es')
  {
    hide Alike, NoSpaces, ComputeTemplateHash;
    if es != [] {
      var n := |es| - 1;
      AlikeSameHashes(hash, es[..n], es'[..n]);
      AlikeSameHash(hash, es[n], es'[n]);
    }
  }

  lemma AlikeSameHash(hash: Hash, e: Entry, e': Entry)
    requires Alike(e, e') && NoSpaces(e.fileHash + e'.fileHash)
    ensures ComputeTemplateHash(hash, e) == ComputeTemplateHash(hash, e')
  {
    hide FromHex, TemplateData, Packs, Entry.AllZero, IsSpace;
    NoSpacesInEither(e.fileHash, e'.fileHash);
    AllZeroIff(e);
    AllZeroIff(e');
  }

  lemma NoSpacesInEither(s: string, t: string)
    requires NoSpaces(s + t)
    ensures NoSpaces(s) && NoSpaces(t)
  {
    forall i | 0 <= i < |s| ensures !IsSpace(s[i]) {
      assert (s + t)[i] == s[i];
    }
    forall i | 0 <= i < |t| ensures !IsSpace(t[i]) {
      assert (s + t)[|s| + i] == t[i];
    }
  }
}
