/**
  The order in which the code compares byte strings, and that it is a total one.
 */
module ByteOrder {
  import opened BigEndian

  /** The library function: the first difference, as unsigned octets. */
  function Memcmp(a: bytes, b: bytes): int
    requires |a| == |b|
  {
    if a == [] then 0 else if a[0] != b[0] then a[0] - b[0] else Memcmp(a[1..], b[1..])
  }

  /** Shorter first, equal lengths by content: cmp_regions of hash.c and UsefulBuf_Compare of UsefulBuf.c. */
  function CmpContents(a: bytes, b: bytes): int {
    if |a| < |b| then -1 else if |a| > |b| then 1 else Memcmp(a, b)
  }

  lemma {:induction false} MemcmpOrder(a: bytes, b: bytes, c: bytes)
    requires |a| == |b| == |c|
    ensures Memcmp(a, b) == 0 <==> a == b
    ensures Memcmp(a, b) <= 0 <==> Memcmp(b, a) >= 0
    ensures Memcmp(a, b) <= 0 && Memcmp(b, c) <= 0 ==> Memcmp(a, c) <= 0
  {
    if a != [] {
      MemcmpOrder(a[1..], b[1..], c[1..]);
      assert a == b <==> a[0] == b[0] && a[1..] == b[1..] by {
        assert a == [a[0]] + a[1..] && b == [b[0]] + b[1..];
      }
    }
  }

  /** A total order on contents. */
  lemma CmpOrder(a: bytes, b: bytes, c: bytes)
    ensures CmpContents(a, b) <= 0 && CmpContents(b, a) <= 0 ==> a == b
    ensures CmpContents(a, b) <= 0 || CmpContents(b, a) <= 0
    ensures CmpContents(a, b) <= 0 && CmpContents(b, c) <= 0 ==> CmpContents(a, c) <= 0
    ensures CmpContents(a, a) == 0
  {
    MemcmpOrder(a, a, a);
    if |a| == |b| {
      MemcmpOrder(a, b, a);
      MemcmpOrder(b, a, b);
      if |b| == |c| {
        MemcmpOrder(a, b, c);
      }
    }
  }
}
