/**
  ieee754.c: narrowing floating-point numbers without loss, and widening half
  precision, on bit patterns.  Values are exact, in units of the smallest double,
  2^-1074.
 */
module Ieee754 {
  // ----- shifts -----

  function Shl(m: nat, k: nat): nat {
    if k == 0 then m else 2 * Shl(m, k - 1)
  }

  function Shr(n: nat, k: nat): nat {
    if k == 0 then n else Shr(n / 2, k - 1)
  }

  lemma {:induction false} ShlShl(m: nat, a: nat, b: nat)
    ensures Shl(m, a + b) == Shl(Shl(m, a), b)
  {
    if b > 0 {
      ShlShl(m, a, b - 1);
    }
  }

  lemma {:induction false} ShlPlus(a: nat, b: nat, k: nat)
    ensures Shl(a + b, k) == Shl(a, k) + Shl(b, k)
  {
    if k > 0 {
      ShlPlus(a, b, k - 1);
    }
  }

  lemma {:induction false} ShlLess(a: nat, b: nat, k: nat)
    ensures a <= b <==> Shl(a, k) <= Shl(b, k)
    ensures a == b <==> Shl(a, k) == Shl(b, k)
  {
    if k > 0 {
      ShlLess(a, b, k - 1);
    }
  }

  lemma {:induction false} ShlGrows(m: nat, k: nat)
    ensures Shl(m, k) >= m && (k > 0 ==> Shl(m, k) >= 2 * m)
  {
    if k > 0 {
      ShlGrows(m, k - 1);
    }
  }

  lemma {:induction false} ShlZero(k: nat)
    ensures Shl(0, k) == 0
  {
    if k > 0 {
      ShlZero(k - 1);
    }
  }

  lemma {:induction false} ShlFirst(m: nat, k: nat)
    ensures Shl(m, k + 1) == Shl(2 * m, k)
  {
    if k > 0 {
      ShlFirst(m, k - 1);
    }
  }

  /** Shifting right is the largest multiple that fits. */
  lemma {:induction false} ShrIs(n: nat, k: nat)
    ensures Shl(Shr(n, k), k) <= n < Shl(Shr(n, k) + 1, k)
  {
    if k > 0 {
      ShrIs(n / 2, k - 1);
      assert Shl(Shr(n, k), k) == 2 * Shl(Shr(n / 2, k - 1), k - 1);
      assert Shl(Shr(n, k) + 1, k) == 2 * Shl(Shr(n / 2, k - 1) + 1, k - 1);
    }
  }

  lemma ShrUnique(n: nat, k: nat, q: nat, r: nat)
    requires n == Shl(q, k) + r && r < Shl(1, k)
    ensures Shr(n, k) == q
  {
    hide Shl, Shr;
    ShrIs(n, k);
    ShlPlus(q, 1, k);
    ShlLess(Shr(n, k) + 1, q, k);
    ShlLess(q + 1, Shr(n, k), k);
  }

  /** n has no bits set below k: masking them off leaves nothing. */
  predicate LowBitsClear(n: nat, k: nat) {
    n == Shl(Shr(n, k), k)
  }

  lemma ShlClear(m: nat, k: nat)
    ensures LowBitsClear(Shl(m, k), k) && Shr(Shl(m, k), k) == m
  {
    hide Shl, Shr;
    ShlLess(0, 1, k);
    ShlZero(k);
    ShrUnique(Shl(m, k), k, m, 0);
  }

  lemma TwoMore(m: nat, k: nat)
    ensures Shl(m, k + 2) == 4 * Shl(m, k)
  {
  }

  lemma TenMore(m: nat, k: nat)
    ensures Shl(m, k + 10) == 1024 * Shl(m, k)
  {
    hide Shl;
    TwoMore(m, k);
    TwoMore(m, k + 2);
    TwoMore(m, k + 4);
    TwoMore(m, k + 6);
    TwoMore(m, k + 8);
  }

  // ----- formats -----

  /** p bits of significand, exponents with this bias. */
  datatype Format = Format(p: nat, bias: nat) {
    /** The biased exponent of infinities and NaNs, all ones. */
    function InfOrNan(): nat {
      2 * bias + 1
    }

    function Min(): int {
      1 - bias
    }

    function Max(): int {
      bias
    }

    /** The exponent of the smallest subnormal, over that of a double. */
    function Unit(): int {
      1075 - bias - p
    }

    predicate Has(x: Parts) {
      x.sign < 2 && x.biased <= InfOrNan() && x.sig < Shl(1, p)
    }

    /** IEEE754_AssembleHalf, -Single and -Double: the three fields do not overlap, so that | is +. */
    function Assemble(x: Parts): nat {
      Shl(if x.sign == 0 then x.biased else x.biased + (InfOrNan() + 1), p) + x.sig
    }

    predicate Pattern(bits: nat) {
      bits < Shl(2 * (InfOrNan() + 1), p)
    }

    /** The masks and shifts that pull out the parts. */
    function TakeApart(bits: nat): Parts
      requires Pattern(bits)
    {
      ShrIs(bits, p);
      var high := Shr(bits, p);
      if high <= InfOrNan() then Parts(0, high, bits - Shl(high, p))
      else Parts(1, high - (InfOrNan() + 1), bits - Shl(high, p))
    }
  }

  datatype Parts = Parts(sign: nat, biased: nat, sig: nat)

  const HALF := Format(10, 15)
  const SINGLE := Format(23, 127)
  const DOUBLE := Format(52, 1023)

  predicate Known(f: Format) {
    f == HALF || f == SINGLE || f == DOUBLE
  }

  /** The patterns are the words of 16, 32 and 64 bits. */
  lemma PatternsAreWords(bits: nat)
    ensures HALF.Pattern(bits) <==> bits < 0x1_0000
    ensures SINGLE.Pattern(bits) <==> bits < 0x1_0000_0000
    ensures DOUBLE.Pattern(bits) <==> bits < 0x1_0000_0000_0000_0000
  {
    assert Shl(64, 0) == 64 && Shl(512, 1) == 1024 && Shl(4096, 0) == 4096;
    hide Shl;
    TenMore(64, 0);
    TwoMore(512, 1);
    TenMore(512, 3);
    TenMore(512, 13);
    TwoMore(4096, 0);
    TenMore(4096, 2);
    TenMore(4096, 12);
    TenMore(4096, 22);
    TenMore(4096, 32);
    TenMore(4096, 42);
  }

  lemma TakeApartAssembled(f: Format, x: Parts)
    requires f.Has(x)
    ensures f.Pattern(f.Assemble(x)) && f.TakeApart(f.Assemble(x)) == x
  {
    hide Shl, Shr;
    var n := f.InfOrNan() + 1;
    var high := if x.sign == 0 then x.biased else x.biased + n;
    ShlLess(high + 1, 2 * n, f.p);
    ShlPlus(high, 1, f.p);
    ShrUnique(f.Assemble(x), f.p, high, x.sig);
  }

  lemma AssembleTakenApart(f: Format, bits: nat)
    requires f.Pattern(bits)
    ensures f.Has(f.TakeApart(bits)) && f.Assemble(f.TakeApart(bits)) == bits
  {
    hide Shl, Shr;
    var high := Shr(bits, f.p);
    ShrIs(bits, f.p);
    ShlPlus(high, 1, f.p);
    ShlLess(2 * (f.InfOrNan() + 1), high, f.p);
  }

  // ----- what a pattern stands for -----

  /** magnitude counts units of 2^-1074; a payload is left-aligned to the 52 bits of a double. */
  datatype Datum = Number(sign: nat, magnitude: nat) | Infinite(sign: nat) | NotANumber(sign: nat, payload: nat)

  function Magnitude(f: Format, x: Parts): nat
    requires Known(f)
  {
    if x.biased == 0 then Shl(x.sig, f.Unit()) else Shl(Shl(1, f.p) + x.sig, f.Unit() + x.biased - 1)
  }

  function DatumOf(f: Format, x: Parts): Datum
    requires Known(f)
  {
    if x.biased != f.InfOrNan() then Number(x.sign, Magnitude(f, x))
    else if x.sig == 0 then Infinite(x.sign)
    else NotANumber(x.sign, Shl(x.sig, 52 - f.p))
  }

  function Means(f: Format, bits: nat): Datum
    requires Known(f) && f.Pattern(bits)
  {
    DatumOf(f, f.TakeApart(bits))
  }

  /** A number has one normal form. */
  lemma UniqueNormal(p: nat, a: nat, i: nat, b: nat, j: nat)
    requires Shl(1, p) <= a < 2 * Shl(1, p) && Shl(1, p) <= b < 2 * Shl(1, p)
    requires Shl(a, i) == Shl(b, j)
    ensures a == b && i == j
  {
    hide Shl;
    if i < j {
      NormalGap(p, a, i, b, j);
    } else if j < i {
      NormalGap(p, b, j, a, i);
    } else {
      ShlLess(a, b, i);
    }
  }

  lemma NormalGap(p: nat, a: nat, i: nat, b: nat, j: nat)
    requires a < 2 * Shl(1, p) && Shl(1, p) <= b && i < j
    ensures Shl(a, i) != Shl(b, j)
  {
    hide Shl;
    ShlShl(b, j - i, i);
    ShlGrows(b, j - i);
    ShlLess(a, Shl(b, j - i), i);
  }

  // ----- narrowing -----

  datatype Narrowed = Converted(x: Parts) | Kept

  /**
    IEEE754_SingleToHalf and IEEE754_DoubleToSingle, which differ only in their
    constants.  The C code shifts before it has checked the exponent; here the
    shift comes under its guard.
   */
  function Narrow(from: Format, to: Format, x: Parts): Narrowed
    requires to.p <= from.p
  {
    var exponent: int := x.biased - from.bias;
    var excess := from.p - to.p;
    if exponent == 0 - from.bias then
      if x.sig == 0 then Converted(Parts(x.sign, 0, 0)) else Kept
    else if exponent == from.bias + 1 then
      if x.sig == 0 then Converted(Parts(x.sign, to.InfOrNan(), 0))
      else if LowBitsClear(x.sig, excess) then Converted(Parts(x.sign, to.InfOrNan(), Shr(x.sig, excess)))
      else Kept
    else if to.Min() <= exponent <= to.Max() && LowBitsClear(x.sig, excess) then
      Converted(Parts(x.sign, exponent + to.bias, Shr(x.sig, excess)))
    else if to.Min() - to.p <= exponent < to.Min() then
      var shift := to.Min() - exponent + excess;
      var significand := Shr(x.sig + Shl(1, from.p), shift);
      if Shl(significand, shift) == x.sig + Shl(1, from.p) then Converted(Parts(x.sign, 0, significand)) else Kept
    else Kept
  }

  predicate Adjacent(from: Format, to: Format) {
    (from == DOUBLE && to == SINGLE) || (from == SINGLE && to == HALF)
  }

  /** A significand with the excess bits shifted in. */
  lemma ExcessShifted(p: nat, excess: nat, sig: nat)
    ensures Shl(1, p + excess) + Shl(sig, excess) == Shl(Shl(1, p) + sig, excess)
    ensures sig < Shl(1, p) <==> Shl(sig, excess) < Shl(1, p + excess)
  {
    hide Shl;
    ShlShl(1, p, excess);
    ShlPlus(Shl(1, p), sig, excess);
    ShlLess(Shl(1, p), sig, excess);
  }

  /** A normal number of the narrower format, written with the wider significand. */
  lemma NormalMagnitude(from: Format, to: Format, x: Parts)
    requires Adjacent(from, to) && 1 <= x.biased
    ensures Magnitude(to, x)
         == Shl(Shl(1, from.p) + Shl(x.sig, from.p - to.p), from.Unit() + (x.biased + from.bias - to.bias) - 1)
  {
    hide Shl;
    var excess := from.p - to.p;
    ExcessShifted(to.p, excess, x.sig);
    ShlShl(Shl(1, to.p) + x.sig, excess, to.Unit() + x.biased - 1 - excess);
  }

  lemma PayloadShifted(from: Format, to: Format, sig: nat)
    requires Adjacent(from, to)
    ensures Shl(sig, 52 - to.p) == Shl(Shl(sig, from.p - to.p), 52 - from.p)
  {
    hide Shl;
    ShlShl(sig, from.p - to.p, 52 - from.p);
  }

  /** What is converted means the same as before. */
  lemma NarrowKeeps(from: Format, to: Format, x: Parts)
    requires Adjacent(from, to) && from.Has(x)
    ensures var r := Narrow(from, to, x); r.Converted? ==> to.Has(r.x) && DatumOf(to, r.x) == DatumOf(from, x)
  {
    hide Shl, Shr;
    ShlLess(1, 0, to.p);
    ShlZero(to.p);
    if x.biased == from.InfOrNan() {
      NarrowKeepsSpecial(from, to, x);
    } else if x.biased != 0 {
      NarrowKeepsNumber(from, to, x);
    } else {
      ShlZero(from.Unit());
      ShlZero(to.Unit());
    }
  }

  lemma NarrowKeepsSpecial(from: Format, to: Format, x: Parts)
    requires Adjacent(from, to) && from.Has(x) && x.biased == from.InfOrNan() && Shl(1, to.p) > 0
    ensures var r := Narrow(from, to, x); r.Converted? ==> to.Has(r.x) && DatumOf(to, r.x) == DatumOf(from, x)
  {
    hide Shl, Shr;
    var excess := from.p - to.p;
    if LowBitsClear(x.sig, excess) {
      var sig := Shr(x.sig, excess);
      ExcessShifted(to.p, excess, sig);
      PayloadShifted(from, to, sig);
      ShlZero(excess);
    }
  }

  lemma NarrowKeepsNumber(from: Format, to: Format, x: Parts)
    requires Adjacent(from, to) && from.Has(x) && 0 < x.biased < from.InfOrNan()
    ensures var r := Narrow(from, to, x); r.Converted? ==> to.Has(r.x) && DatumOf(to, r.x) == DatumOf(from, x)
  {
    hide Shl, Shr;
    var excess, exponent: int := from.p - to.p, x.biased - from.bias;
    if to.Min() <= exponent <= to.Max() && LowBitsClear(x.sig, excess) {
      var y := Parts(x.sign, exponent + to.bias, Shr(x.sig, excess));
      ExcessShifted(to.p, excess, y.sig);
      NormalMagnitude(from, to, y);
    } else if to.Min() - to.p <= exponent < to.Min() {
      SubnormalKeeps(from, to, x);
    }
  }

  lemma SubnormalKeeps(from: Format, to: Format, x: Parts)
    requires Adjacent(from, to) && from.Has(x) && 0 < x.biased < from.InfOrNan()
    requires to.Min() - to.p <= x.biased - from.bias < to.Min()
    ensures var shift := to.Min() - (x.biased - from.bias) + (from.p - to.p);
            var q := Shr(x.sig + Shl(1, from.p), shift);
            Shl(q, shift) == x.sig + Shl(1, from.p) ==> q < Shl(1, to.p) && Shl(q, to.Unit()) == Magnitude(from, x)
  {
    hide Shl, Shr;
    var shift := to.Min() - (x.biased - from.bias) + (from.p - to.p);
    var q := Shr(x.sig + Shl(1, from.p), shift);
    if Shl(q, shift) == x.sig + Shl(1, from.p) {
      ShlShl(q, shift, to.Unit() - shift);
      SmallQuotient(from, to, q, shift);
    }
  }

  lemma SmallQuotient(from: Format, to: Format, q: nat, shift: nat)
    requires Adjacent(from, to) && from.p - to.p < shift && Shl(q, shift) < 2 * Shl(1, from.p)
    ensures q < Shl(1, to.p)
  {
    hide Shl;
    ShlLess(Shl(1, to.p), q, shift);
    ShlShl(1, to.p, shift);
    ShlShl(1, from.p, to.p + shift - from.p);
    ShlGrows(Shl(1, from.p), to.p + shift - from.p);
  }

  /** And whatever can be converted is. */
  lemma NarrowComplete(from: Format, to: Format, x: Parts, y: Parts)
    requires Adjacent(from, to) && from.Has(x) && to.Has(y) && DatumOf(to, y) == DatumOf(from, x)
    ensures Narrow(from, to, x) == Converted(y)
  {
    hide Shl, Shr;
    if x.biased == from.InfOrNan() {
      SpecialComplete(from, to, x, y);
    } else if x.biased == 0 {
      TooSmall(from, to, x, y);
    } else if y.biased == 0 {
      SubnormalComplete(from, to, x, y);
    } else {
      NormalComplete(from, to, x, y);
    }
  }

  lemma SpecialComplete(from: Format, to: Format, x: Parts, y: Parts)
    requires Adjacent(from, to) && from.Has(x) && to.Has(y) && DatumOf(to, y) == DatumOf(from, x)
             && x.biased == from.InfOrNan()
    ensures Narrow(from, to, x) == Converted(y)
  {
    hide Shl, Shr;
    var excess := from.p - to.p;
    if x.sig != 0 {
      PayloadShifted(from, to, y.sig);
      ShlLess(x.sig, Shl(y.sig, excess), 52 - from.p);
      ShlClear(y.sig, excess);
    }
  }

  lemma NormalComplete(from: Format, to: Format, x: Parts, y: Parts)
    requires Adjacent(from, to) && from.Has(x) && 0 < x.biased < from.InfOrNan()
    requires to.Has(y) && 0 < y.biased < to.InfOrNan() && y.sign == x.sign && Magnitude(to, y) == Magnitude(from, x)
    ensures Narrow(from, to, x) == Converted(y)
  {
    hide Shl, Shr;
    var excess := from.p - to.p;
    NormalMagnitude(from, to, y);
    ExcessShifted(to.p, excess, y.sig);
    UniqueNormal(from.p, Shl(1, from.p) + x.sig, from.Unit() + x.biased - 1,
                 Shl(1, from.p) + Shl(y.sig, excess), from.Unit() + (y.biased + from.bias - to.bias) - 1);
    ShlClear(y.sig, excess);
  }

  /** The subnormals of the wider format lie below all numbers of the narrower but zero. */
  lemma TooSmall(from: Format, to: Format, x: Parts, y: Parts)
    requires Adjacent(from, to) && from.Has(x) && x.biased == 0 && to.Has(y) && y.biased != to.InfOrNan()
    requires Magnitude(to, y) == Magnitude(from, x)
    ensures x.sig == 0 && y.biased == 0 && y.sig == 0
  {
    hide Shl;
    SubnormalBelow(from, to, x);
    if y.biased != 0 {
      ShlShl(Shl(1, to.p) + y.sig, y.biased - 1, to.Unit());
      ShlGrows(Shl(1, to.p) + y.sig, y.biased - 1);
      ShlGrows(1, to.p);
      ShlLess(1, Shl(Shl(1, to.p) + y.sig, y.biased - 1), to.Unit());
    } else if y.sig != 0 {
      ShlLess(1, y.sig, to.Unit());
    } else if x.sig != 0 {
      ShlZero(to.Unit());
      ShlGrows(x.sig, from.Unit());
    }
  }

  lemma SubnormalBelow(from: Format, to: Format, x: Parts)
    requires Adjacent(from, to) && from.Has(x) && x.biased == 0
    ensures Magnitude(from, x) < Shl(1, to.Unit())
  {
    hide Shl;
    ShlLess(Shl(1, from.p), x.sig, from.Unit());
    ShlShl(1, from.p, from.Unit());
    ShlShl(1, from.p + from.Unit(), to.Unit() - from.p - from.Unit());
    ShlGrows(Shl(1, from.p + from.Unit()), to.Unit() - from.p - from.Unit());
  }

  lemma SubnormalComplete(from: Format, to: Format, x: Parts, y: Parts)
    requires Adjacent(from, to) && from.Has(x) && 0 < x.biased < from.InfOrNan()
    requires to.Has(y) && y.biased == 0 && y.sign == x.sign && Magnitude(to, y) == Magnitude(from, x)
    ensures Narrow(from, to, x) == Converted(y)
  {
    hide Shl, Shr;
    var m, i := Shl(1, from.p) + x.sig, from.Unit() + x.biased - 1;
    var shift := to.Min() - (x.biased - from.bias) + (from.p - to.p);
    assert shift == to.Unit() - i;
    NotTooLarge(from, to, m, i, y.sig);
    ShlShl(y.sig, shift, i);
    ShlLess(m, Shl(y.sig, shift), i);
    ShiftBounds(from, to, m, y.sig, shift);
    ShlClear(y.sig, shift);
  }

  lemma NotTooLarge(from: Format, to: Format, m: nat, i: nat, sig: nat)
    requires Adjacent(from, to) && Shl(1, from.p) <= m && sig < Shl(1, to.p) && Shl(sig, to.Unit()) == Shl(m, i)
    ensures i < to.Unit()
  {
    hide Shl;
    if i >= to.Unit() {
      ShlShl(m, i - to.Unit(), to.Unit());
      ShlLess(sig, Shl(m, i - to.Unit()), to.Unit());
      ShlGrows(m, i - to.Unit());
      ShlShl(1, to.p, from.p - to.p);
      ShlGrows(Shl(1, to.p), from.p - to.p);
    }
  }

  lemma ShiftBounds(from: Format, to: Format, m: nat, sig: nat, shift: nat)
    requires Adjacent(from, to) && Shl(1, from.p) <= m < 2 * Shl(1, from.p) && sig < Shl(1, to.p)
             && m == Shl(sig, shift)
    ensures from.p - to.p < shift <= from.p
  {
    hide Shl;
    if shift > from.p {
      ShlZero(shift);
      ShlGrows(1, from.p);
      ShlLess(1, sig, shift);
      ShlShl(1, from.p, shift - from.p);
      ShlGrows(Shl(1, from.p), shift - from.p);
    }
    if shift <= from.p - to.p {
      ShlLess(Shl(1, to.p), sig, shift);
      ShlShl(1, to.p, shift);
      ShlShl(1, to.p + shift, from.p - to.p - shift);
      ShlGrows(Shl(1, to.p + shift), from.p - to.p - shift);
    }
  }

  // ----- widening -----

  predicate Widens(small: Format, large: Format) {
    small == HALF && (large == SINGLE || large == DOUBLE)
  }

  /** A subnormal, shifted left k places until its leading bit is the implied one. */
  lemma SubnormalWidened(small: Format, large: Format, sig: nat, k: nat)
    requires Widens(small, large) && 1 <= k <= small.p && Shl(1, small.p) <= Shl(sig, k) < 2 * Shl(1, small.p)
    ensures var x := Parts(0, small.Min() - k + large.bias, Shl(Shl(sig, k) - Shl(1, small.p), large.p - small.p));
            large.Has(x) && 0 < x.biased < large.InfOrNan() && Magnitude(large, x) == Shl(sig, small.Unit())
  {
    hide Shl;
    var excess, m := large.p - small.p, Shl(sig, k) - Shl(1, small.p);
    ExcessShifted(small.p, excess, m);
    ShlShl(Shl(sig, k), excess, small.Unit() - k - excess);
    ShlShl(Shl(sig, k), excess, large.Unit() + (small.Min() - k + large.bias) - 1);
    ShlShl(sig, k, small.Unit() - k);
  }

  lemma NormalWidened(small: Format, large: Format, x: Parts)
    requires Widens(small, large) && small.Has(x) && 0 < x.biased < small.InfOrNan()
    ensures var y := Parts(x.sign, x.biased - small.bias + large.bias, Shl(x.sig, large.p - small.p));
            large.Has(y) && DatumOf(large, y) == DatumOf(small, x)
  {
    hide Shl;
    var excess := large.p - small.p;
    ExcessShifted(small.p, excess, x.sig);
    ShlShl(Shl(1, small.p) + x.sig, excess, small.Unit() + x.biased - 1 - excess);
  }

  lemma SpecialWidened(small: Format, large: Format, x: Parts)
    requires Widens(small, large) && small.Has(x) && x.biased == small.InfOrNan()
    ensures var y := Parts(x.sign, large.InfOrNan(), Shl(x.sig, large.p - small.p));
            large.Has(y) && DatumOf(large, y) == DatumOf(small, x)
  {
    hide Shl;
    var excess := large.p - small.p;
    ExcessShifted(small.p, excess, x.sig);
    ShlShl(x.sig, excess, 52 - large.p);
    ShlZero(excess);
    ShlLess(x.sig, 0, excess);
  }

  lemma ZeroWidened(small: Format, large: Format, sign: nat)
    requires Widens(small, large) && sign < 2
    ensures large.Has(Parts(sign, 0, 0)) && DatumOf(large, Parts(sign, 0, 0)) == DatumOf(small, Parts(sign, 0, 0))
  {
    hide Shl;
    ShlGrows(1, large.p);
    ShlZero(large.Unit());
    ShlZero(small.Unit());
  }

  lemma {:induction false} LeadingBit(sig: nat, p: nat) returns (k: nat)
    requires 0 < sig < Shl(1, p)
    ensures 1 <= k <= p && Shl(1, p) <= Shl(sig, k) < 2 * Shl(1, p)
    decreases Shl(1, p) - sig
  {
    if 2 * sig >= Shl(1, p) {
      assert Shl(sig, 1) == 2 * Shl(sig, 0);
      k := 1;
    } else {
      var j := LeadingBit(2 * sig, p);
      k := j + 1;
      ShlFirst(sig, j);
      hide Shl;
      if k > p {
        ShlShl(sig, p, 1);
        ShlShl(sig, p + 1, k - p - 1);
        ShlGrows(Shl(sig, p + 1), k - p - 1);
        ShlLess(1, sig, p);
      }
    }
  }

  /** Every half-precision value is a value of the larger formats. */
  lemma CanWiden(small: Format, large: Format, x: Parts) returns (y: Parts)
    requires Widens(small, large) && small.Has(x)
    ensures large.Has(y) && DatumOf(large, y) == DatumOf(small, x)
  {
    hide Shl;
    var excess := large.p - small.p;
    if x.biased == small.InfOrNan() {
      SpecialWidened(small, large, x);
      y := Parts(x.sign, large.InfOrNan(), Shl(x.sig, excess));
    } else if x.biased != 0 {
      NormalWidened(small, large, x);
      y := Parts(x.sign, x.biased - small.bias + large.bias, Shl(x.sig, excess));
    } else if x.sig == 0 {
      ZeroWidened(small, large, x.sign);
      y := Parts(x.sign, 0, 0);
    } else {
      var k := LeadingBit(x.sig, small.p);
      SubnormalWidened(small, large, x.sig, k);
      y := Parts(x.sign, small.Min() - k + large.bias, Shl(Shl(x.sig, k) - Shl(1, small.p), excess));
    }
  }

  lemma DatumInjective(f: Format, x: Parts, y: Parts)
    requires Known(f) && f.Has(x) && f.Has(y) && DatumOf(f, x) == DatumOf(f, y)
    ensures x == y
  {
    hide Shl;
    if x.biased == f.InfOrNan() {
      ShlLess(x.sig, y.sig, 52 - f.p);
    } else if x.biased == 0 && y.biased == 0 {
      ShlLess(x.sig, y.sig, f.Unit());
    } else if x.biased == 0 {
      SubnormalIsNotNormal(f, x, y);
    } else if y.biased == 0 {
      SubnormalIsNotNormal(f, y, x);
    } else {
      UniqueNormal(f.p, Shl(1, f.p) + x.sig, f.Unit() + x.biased - 1, Shl(1, f.p) + y.sig, f.Unit() + y.biased - 1);
    }
  }

  lemma SubnormalIsNotNormal(f: Format, x: Parts, y: Parts)
    requires Known(f) && f.Has(x) && x.biased == 0 && y.biased != 0
    ensures Magnitude(f, x) != Magnitude(f, y)
  {
    hide Shl;
    ShlShl(Shl(1, f.p) + y.sig, y.biased - 1, f.Unit());
    ShlGrows(Shl(1, f.p) + y.sig, y.biased - 1);
    ShlLess(x.sig, Shl(Shl(1, f.p) + y.sig, y.biased - 1), f.Unit());
  }

  // ----- the public functions -----

  datatype Size = IsHalf | IsSingle | IsDouble

  /** IEEE754_union. */
  datatype Union = Union(size: Size, value: nat) {
    function Format(): Format {
      match size
      case IsHalf => HALF
      case IsSingle => SINGLE
      case IsDouble => DOUBLE
    }
  }

  function SingleToHalf(single: nat): Union
    requires SINGLE.Pattern(single)
  {
    match Narrow(SINGLE, HALF, SINGLE.TakeApart(single))
    case Converted(x) => Union(IsHalf, HALF.Assemble(x))
    case Kept => Union(IsSingle, single)
  }

  function DoubleToSingle(double: nat): (r: Union)
    requires DOUBLE.Pattern(double)
    ensures r.size == IsSingle ==> SINGLE.Pattern(r.value)
  {
    match Narrow(DOUBLE, SINGLE, DOUBLE.TakeApart(double))
    case Converted(x) =>
      AssembleTakenApart(DOUBLE, double);
      NarrowKeeps(DOUBLE, SINGLE, DOUBLE.TakeApart(double));
      TakeApartAssembled(SINGLE, x);
      Union(IsSingle, SINGLE.Assemble(x))
    case Kept => Union(IsDouble, double)
  }

  function DoubleToSmaller(double: nat, allowHalf: bool): Union
    requires DOUBLE.Pattern(double)
  {
    var result := DoubleToSingle(double);
    if result.size == IsSingle && allowHalf then SingleToHalf(result.value) else result
  }

  lemma SingleToHalfKeeps(single: nat)
    requires SINGLE.Pattern(single)
    ensures var r := SingleToHalf(single);
            r.Format().Pattern(r.value) && Means(r.Format(), r.value) == Means(SINGLE, single)
  {
    hide Shl, Shr, Narrow, DatumOf, Format.Assemble, Format.TakeApart, Format.Has;
    var x := SINGLE.TakeApart(single);
    AssembleTakenApart(SINGLE, single);
    NarrowKeeps(SINGLE, HALF, x);
    if Narrow(SINGLE, HALF, x).Converted? {
      TakeApartAssembled(HALF, Narrow(SINGLE, HALF, x).x);
    }
  }

  lemma DoubleToSingleKeeps(double: nat)
    requires DOUBLE.Pattern(double)
    ensures var r := DoubleToSingle(double);
            r.Format().Pattern(r.value) && Means(r.Format(), r.value) == Means(DOUBLE, double)
  {
    hide Shl, Shr, Narrow, DatumOf, Format.Assemble, Format.TakeApart, Format.Has;
    var x := DOUBLE.TakeApart(double);
    AssembleTakenApart(DOUBLE, double);
    NarrowKeeps(DOUBLE, SINGLE, x);
    if Narrow(DOUBLE, SINGLE, x).Converted? {
      TakeApartAssembled(SINGLE, Narrow(DOUBLE, SINGLE, x).x);
    }
  }

  /** The result has exactly the value, or the sign and NaN payload, of the input. */
  lemma DoubleToSmallerKeeps(double: nat, allowHalf: bool)
    requires DOUBLE.Pattern(double)
    ensures var r := DoubleToSmaller(double, allowHalf);
            r.Format().Pattern(r.value) && Means(r.Format(), r.value) == Means(DOUBLE, double)
  {
    hide Shl, Means, SingleToHalf, DoubleToSingle, Format.Pattern;
    DoubleToSingleKeeps(double);
    if DoubleToSingle(double).size == IsSingle {
      SingleToHalfKeeps(DoubleToSingle(double).value);
    }
  }

  lemma SingleToHalfComplete(single: nat, half: nat)
    requires SINGLE.Pattern(single) && HALF.Pattern(half) && Means(HALF, half) == Means(SINGLE, single)
    ensures SingleToHalf(single) == Union(IsHalf, half)
  {
    hide Shl, Shr, Narrow, DatumOf, Format.Assemble, Format.TakeApart, Format.Has, Format.Pattern;
    AssembleTakenApart(SINGLE, single);
    AssembleTakenApart(HALF, half);
    NarrowComplete(SINGLE, HALF, SINGLE.TakeApart(single), HALF.TakeApart(half));
  }

  lemma DoubleToSingleComplete(double: nat, single: nat)
    requires DOUBLE.Pattern(double) && SINGLE.Pattern(single) && Means(SINGLE, single) == Means(DOUBLE, double)
    ensures DoubleToSingle(double) == Union(IsSingle, single)
  {
    hide Shl, Shr, Narrow, DatumOf, Format.Assemble, Format.TakeApart, Format.Has, Format.Pattern;
    AssembleTakenApart(DOUBLE, double);
    AssembleTakenApart(SINGLE, single);
    NarrowComplete(DOUBLE, SINGLE, DOUBLE.TakeApart(double), SINGLE.TakeApart(single));
  }

  lemma HalfIsSingle(half: nat) returns (single: nat)
    requires HALF.Pattern(half)
    ensures SINGLE.Pattern(single) && Means(SINGLE, single) == Means(HALF, half)
  {
    hide Shl, Shr, DatumOf, Format.Assemble, Format.TakeApart, Format.Has;
    AssembleTakenApart(HALF, half);
    var x := CanWiden(HALF, SINGLE, HALF.TakeApart(half));
    TakeApartAssembled(SINGLE, x);
    single := SINGLE.Assemble(x);
  }

  /**
    Preferred serialization, RFC 8949 section 4.1: no pattern of the same meaning is
    smaller, and of its size it is the only one.
   */
  lemma DoubleToSmallerIsSmallest(double: nat, allowHalf: bool, other: Union)
    requires DOUBLE.Pattern(double) && other.Format().Pattern(other.value)
    requires Means(other.Format(), other.value) == Means(DOUBLE, double)
    requires other.size == IsHalf ==> allowHalf
    ensures var r := DoubleToSmaller(double, allowHalf);
            r.Format().p <= other.Format().p && (r.size == other.size ==> r == other)
  {
    hide Shl, Means, SingleToHalf, DoubleToSingle, Format.Pattern;
    match other.size
    case IsHalf =>
      var single := HalfIsSingle(other.value);
      DoubleToSingleComplete(double, single);
      SingleToHalfComplete(single, other.value);
    case IsSingle =>
      DoubleToSingleComplete(double, other.value);
      if SingleToHalf(other.value).size == IsSingle {
        KeptSingle(other.value);
      } else {
        SingleToHalfSize(other.value);
      }
    case IsDouble =>
      OnlyDouble(double, other.value);
      DoubleSizes(double, allowHalf);
  }

  lemma KeptSingle(single: nat)
    requires SINGLE.Pattern(single) && SingleToHalf(single).size == IsSingle
    ensures SingleToHalf(single).value == single
  {
  }

  lemma SingleToHalfSize(single: nat)
    requires SINGLE.Pattern(single)
    ensures SingleToHalf(single).size != IsDouble
  {
  }

  lemma DoubleSizes(double: nat, allowHalf: bool)
    requires DOUBLE.Pattern(double)
    ensures DoubleToSmaller(double, allowHalf).size == IsDouble ==> DoubleToSmaller(double, allowHalf).value == double
  {
    hide Narrow, Format.TakeApart, Format.Assemble;
  }

  lemma OnlyDouble(double: nat, other: nat)
    requires DOUBLE.Pattern(double) && DOUBLE.Pattern(other) && Means(DOUBLE, double) == Means(DOUBLE, other)
    ensures double == other
  {
    hide Shl, DatumOf, Format.Assemble, Format.TakeApart, Format.Has, Format.Pattern;
    AssembleTakenApart(DOUBLE, double);
    AssembleTakenApart(DOUBLE, other);
    DatumInjective(DOUBLE, DOUBLE.TakeApart(double), DOUBLE.TakeApart(other));
  }

  /** Widening gives the same value back, and undoes every narrowing to half precision. */
  method HalfToDouble(half: nat) returns (double: nat)
    requires HALF.Pattern(half)
    ensures DOUBLE.Pattern(double) && Means(DOUBLE, double) == Means(HALF, half)
    ensures forall d :: DOUBLE.Pattern(d) && DoubleToSmaller(d, true) == Union(IsHalf, half) ==> double == d
  {
    var h := HALF.TakeApart(half);
    AssembleTakenApart(HALF, half);
    hide Shl, Shr, DatumOf, Format.Has, Format.Assemble, Format.TakeApart, Format.Pattern, DoubleToSmaller;
    var excess := DOUBLE.p - HALF.p;
    var result: Parts;
    if h.biased == 0 {
      if h.sig != 0 {
        var significand, exponent := NormalizeSubnormal(h.sig);
        result := Parts(h.sign, exponent + DOUBLE.bias, Shl(significand, excess));
      } else {
        ZeroWidened(HALF, DOUBLE, h.sign);
        result := Parts(h.sign, 0, 0);
      }
    } else if h.biased == HALF.InfOrNan() {
      SpecialWidened(HALF, DOUBLE, h);
      result := Parts(h.sign, DOUBLE.InfOrNan(), Shl(h.sig, excess));
    } else {
      NormalWidened(HALF, DOUBLE, h);
      result := Parts(h.sign, h.biased - HALF.bias + DOUBLE.bias, Shl(h.sig, excess));
    }
    assert DOUBLE.Has(result) && DatumOf(DOUBLE, result) == DatumOf(HALF, h);
    TakeApartAssembled(DOUBLE, result);
    double := DOUBLE.Assemble(result);
    forall d | DOUBLE.Pattern(d) && DoubleToSmaller(d, true) == Union(IsHalf, half) ensures double == d {
      DoubleToSmallerKeeps(d, true);
      OnlyDouble(d, double);
    }
  }

  /** The do-while loop: shift until bit 10 is set, then take that bit off. */
  method NormalizeSubnormal(sig: nat) returns (significand: nat, exponent: int)
    requires 0 < sig < Shl(1, HALF.p)
    ensures significand < Shl(1, HALF.p) && 0 < exponent + DOUBLE.bias < DOUBLE.InfOrNan()
    ensures var x := Parts(0, exponent + DOUBLE.bias, Shl(significand, DOUBLE.p - HALF.p));
            DOUBLE.Has(x) && Magnitude(DOUBLE, x) == Shl(sig, HALF.Unit())
  {
    assert Shl(1, 10) == 1024 by {
      ShlTen();
    }
    exponent := HALF.Min();
    significand := sig;
    ghost var k := 1;
    significand := significand * 2;
    exponent := exponent - 1;
    while (significand / 1024) % 2 == 0
      invariant 1 <= k && significand == Shl(sig, k) && k < significand < 2048 && exponent == HALF.Min() - k
      invariant k <= 10
      decreases 2048 - significand
    {
      ShlSmall(sig, k);
      significand := significand * 2;
      exponent := exponent - 1;
      k := k + 1;
    }
    SubnormalWidened(HALF, DOUBLE, sig, k);
    significand := significand - 1024;
  }

  lemma ShlTen()
    ensures Shl(1, 10) == 1024
  {
    TenMore(1, 0);
    assert Shl(1, 0) == 1;
  }

  lemma ShlSmall(sig: nat, k: nat)
    requires sig > 0
    ensures k >= 10 ==> Shl(sig, k) >= 1024
  {
    if k >= 10 {
      ShlTen();
      hide Shl;
      ShlLess(1, sig, k);
      ShlShl(1, 10, k - 10);
      ShlGrows(Shl(1, 10), k - 10);
    }
  }
}
