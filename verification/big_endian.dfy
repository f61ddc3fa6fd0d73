/**
  Octets and network byte order.  Everything that the C code does with masks and
  shifts of 8 bits is division and remainder by 256 here.
 */
module BigEndian {
  type byte = b: int | 0 <= b < 0x100
  type bytes = seq<byte>

  type uint16 = n: int | 0 <= n < 0x1_0000
  type uint32 = n: int | 0 <= n < 0x1_0000_0000
  type uint64 = n: int | 0 <= n < 0x1_0000_0000_0000_0000
  type int64 = n: int | -0x8000_0000_0000_0000 <= n < 0x8000_0000_0000_0000

  // size_t on the 64-bit targets of this code
  const SIZE_MAX: int := 0xffff_ffff_ffff_ffff

  /** The octets of a text in ASCII. */
  function Ascii(s: string): (bs: bytes)
    ensures |bs| == |s|
  {
    seq(|s|, i requires 0 <= i < |s| => s[i] as int % 0x80)
  }

  /** n shifted right by k octets. */
  function Shr8(n: nat, k: nat): nat {
    if k == 0 then n else Shr8(n / 256, k - 1)
  }

  /** The k low-order octets of n, most significant first. */
  function ToBytes(n: nat, k: nat): (bs: bytes)
    ensures |bs| == k
  {
    if k == 0 then [] else ToBytes(n / 256, k - 1) + [n % 256]
  }

  /** The unsigned number a string of octets stands for. */
  function FromBytes(bs: bytes): nat {
    if bs == [] then 0 else FromBytes(bs[..|bs| - 1]) * 256 + bs[|bs| - 1]
  }

  lemma {:induction false} Shr8Step(n: nat, k: nat)
    ensures Shr8(n, k) / 256 == Shr8(n, k + 1)
  {
    if k > 0 {
      Shr8Step(n / 256, k - 1);
    }
  }

  /** Writing backwards: the octet in front of the k low-order ones. */
  lemma {:induction false} ToBytesGrow(n: nat, k: nat)
    ensures ToBytes(n, k + 1) == [Shr8(n, k) % 256] + ToBytes(n, k)
  {
    if k > 0 {
      ToBytesGrow(n / 256, k - 1);
    } else {
      assert ToBytes(n, 1) == ToBytes(n / 256, 0) + [n % 256];
    }
  }

  lemma {:induction false} Shr8Add(n: nat, j: nat, k: nat)
    ensures Shr8(n, j + k) == Shr8(Shr8(n, j), k)
  {
    if j > 0 {
      Shr8Add(n / 256, j - 1, k);
    }
  }

  lemma {:induction false} ToBytesAppend(n: nat, j: nat, k: nat)
    ensures ToBytes(n, j + k) == ToBytes(Shr8(n, j), k) + ToBytes(n, j)
  {
    if j > 0 {
      ToBytesAppend(n / 256, j - 1, k);
    }
  }

  lemma {:induction false} FromToBytes(n: nat, k: nat)
    requires Shr8(n, k) == 0
    ensures FromBytes(ToBytes(n, k)) == n
  {
    if k > 0 {
      FromToBytes(n / 256, k - 1);
      assert ToBytes(n, k)[..k - 1] == ToBytes(n / 256, k - 1);
    }
  }

  lemma {:induction false} ToFromBytes(bs: bytes)
    ensures ToBytes(FromBytes(bs), |bs|) == bs
    ensures Shr8(FromBytes(bs), |bs|) == 0
  {
    if bs != [] {
      var front, last := bs[..|bs| - 1], bs[|bs| - 1];
      ToFromBytes(front);
      assert FromBytes(bs) / 256 == FromBytes(front);
      assert FromBytes(bs) % 256 == last;
    }
  }

  lemma Shr8Values(n: nat)
    ensures Shr8(n, 0) == n && Shr8(n, 1) == n / 0x100 && Shr8(n, 2) == n / 0x1_0000 && Shr8(n, 3) == n / 0x100_0000
    ensures Shr8(n, 4) == n / 0x1_0000_0000 && Shr8(n, 5) == n / 0x100_0000_0000
    ensures Shr8(n, 6) == n / 0x1_0000_0000_0000 && Shr8(n, 7) == n / 0x100_0000_0000_0000
    ensures Shr8(n, 8) == n / 0x1_0000_0000_0000_0000
  {
    Shr8Step(n, 0); Shr8Step(n, 1); Shr8Step(n, 2); Shr8Step(n, 3);
    Shr8Step(n, 4); Shr8Step(n, 5); Shr8Step(n, 6); Shr8Step(n, 7);
  }

  /** When nothing is left after a shift by 1, 2, 4 or 8 octets. */
  lemma Shr8Bounds(n: nat)
    ensures Shr8(n, 1) == 0 <==> n < 0x100
    ensures Shr8(n, 2) == 0 <==> n < 0x1_0000
    ensures Shr8(n, 4) == 0 <==> n < 0x1_0000_0000
    ensures Shr8(n, 8) == 0 <==> n < 0x1_0000_0000_0000_0000
  {
    Shr8Values(n);
  }
}
