/**
 Core masks and core lists: convertMaskToList and the set difference of getSingleConfig in
 src/speed_select.cpp, over the 64-bit masks src/sst_mailbox.cpp assembles from two reads.
 Masks are natural numbers; bit i is counted from the least significant.
 */
module CoreLists {
  import opened Common
  import opened Bytes

  const MASK_BITS := 64

  function Pow2(k: nat): (p: nat)
    ensures p >= 1
  {
    if k == 0 then 1 else 2 * Pow2(k - 1)
  }

  predicate Bit(m: nat, i: nat)
    decreases i
  {
    if i == 0 then m % 2 == 1 else Bit(m / 2, i - 1)
  }

  /** (hi << 32) | lo, for 32-bit halves. */
  function Mask64(lo: Word32, hi: Word32): (m: Word64)
  {
    var h: nat, l: nat := hi, lo;
    h * 0x1_0000_0000 + l
  }

  lemma {:induction false} BitOfConcat(lo: nat, hi: nat, k: nat, i: nat)
    requires lo < Pow2(k)
    ensures Bit(hi * Pow2(k) + lo, i) == if i < k then Bit(lo, i) else Bit(hi, i - k)
    decreases k
  {
    if k > 0 {
      var m := hi * Pow2(k) + lo;
      assert m == 2 * (hi * Pow2(k - 1)) + lo;
      assert m % 2 == lo % 2 && m / 2 == hi * Pow2(k - 1) + lo / 2;
      if i > 0 {
        BitOfConcat(lo / 2, hi, k - 1, i - 1);
      }
    }
  }

  /** The assembled mask has the low read's bits below 32 and the high read's above. */
  lemma MaskBits(lo: Word32, hi: Word32, i: nat)
    ensures Bit(Mask64(lo, hi), i) == if i < 32 then Bit(lo, i) else Bit(hi, i - 32)
  {
    Pow2Of32();
    BitOfConcat(lo, hi, 32, i);
  }

  lemma Pow2Of32()
    ensures Pow2(32) == 0x1_0000_0000
  {
    assert Pow2(8) == 0x100;
    assert Pow2(16) == 0x1_0000;
    assert Pow2(24) == 0x100_0000;
  }

  /** The set bits below `n`, in increasing order. */
  ghost function SetBits(m: nat, n: nat): (bits: seq<nat>)
  {
    if n == 0 then []
    else if Bit(m, n - 1) then SetBits(m, n - 1) + [n - 1]
    else SetBits(m, n - 1)
  }

  lemma {:induction false} SetBitsExact(m: nat, n: nat, x: nat)
    ensures Increasing(SetBits(m, n)) && (x in SetBits(m, n) <==> x < n && Bit(m, x))
    ensures forall i :: 0 <= i < |SetBits(m, n)| ==> SetBits(m, n)[i] < n
    decreases n
  {
    if n > 0 {
      SetBitsExact(m, n - 1, x);
    }
  }

  /** Bits are the binary digits. */
  lemma {:induction false} BitIsDigit(m: nat, i: nat)
    ensures Bit(m, i) <==> (m / Pow2(i)) % 2 == 1
    decreases i
  {
    if i > 0 {
      BitIsDigit(m / 2, i - 1);
      HalfFirst(m, Pow2(i - 1));
    }
  }

  lemma HalfFirst(m: nat, d: nat)
    requires d > 0
    ensures m / 2 / d == m / (2 * d)
  {
    var q, r := m / (2 * d), m % (2 * d);
    assert m == 2 * d * q + r;
    assert m / 2 == d * q + r / 2 && r / 2 < d;
    QuotientOf(d, q, r / 2);
  }

  lemma QuotientOf(d: nat, q: nat, r: nat)
    requires r < d
    ensures (d * q + r) / d == q
  {
    var x := d * q + r;
    var e := x / d - q;
    assert x == d * (x / d) + x % d;
    assert d * e == r - x % d;
    assert e > 0 ==> d * e >= d;
    assert e < 0 ==> d * e <= -(d as int);
  }

  /** The number whose set bits are listed. */
  ghost function Value(bits: seq<nat>): (m: nat)
  {
    if bits == [] then 0 else Value(bits[..|bits| - 1]) + Pow2(bits[|bits| - 1])
  }

  lemma ValueUnfold(m: nat, n: nat)
    requires n > 0
    ensures Value(SetBits(m, n)) == Value(SetBits(m, n - 1)) + if Bit(m, n - 1) then Pow2(n - 1) else 0
  {
    hide Bit, Pow2;
    var rest := SetBits(m, n - 1);
    assert (rest + [n - 1])[..|rest|] == rest;
  }

  lemma {:induction false} ValueOfSetBits(m: nat, n: nat)
    ensures m == Value(SetBits(m, n)) + Pow2(n) * (m / Pow2(n))
    decreases n
  {
    hide Bit, Value, SetBits;
    if n > 0 {
      ValueOfSetBits(m, n - 1);
      BitIsDigit(m, n - 1);
      ValueUnfold(m, n);
      NextDigit(m, Value(SetBits(m, n - 1)), Pow2(n - 1), Pow2(n));
    } else {
      assert Value(SetBits(m, 0)) == 0 by { ValueOfNone(m); }
    }
  }

  lemma NextDigit(m: nat, v: nat, d: nat, e: nat)
    requires d > 0 && e == 2 * d && m == v + d * (m / d)
    ensures m == v + (if (m / d) % 2 == 1 then d else 0) + e * (m / e)
  {
    var q, b := m / d / 2, (m / d) % 2;
    HalfLast(m, d);
    Distribute(d, q, b);
    assert e * q == 2 * d * q;
  }

  lemma ValueOfNone(m: nat)
    ensures Value(SetBits(m, 0)) == 0
  {
  }

  lemma Distribute(d: nat, q: nat, b: nat)
    ensures d * (2 * q + b) == 2 * d * q + d * b
  {
  }

  lemma HalfLast(m: nat, d: nat)
    requires d > 0
    ensures m / (2 * d) == m / d / 2
  {
    var q, r := m / d, m % d;
    var h, b := q / 2, q % 2;
    assert m == d * q + r;
    Distribute(d, h, b);
    assert m == 2 * d * h + (d * b + r) && d * b + r < 2 * d;
    QuotientOf(2 * d, h, d * b + r);
  }

  lemma Pow2Of64()
    ensures Pow2(64) == 0x1_0000_0000_0000_0000
  {
    Pow2Of32();
    assert Pow2(40) == 0x100_0000_0000;
    assert Pow2(48) == 0x1_0000_0000_0000;
    assert Pow2(56) == 0x100_0000_0000_0000;
  }

  lemma NoBitAbove(m: Word64, x: nat)
    requires Bit(m, x)
    ensures x < 64
  {
    if x >= 64 {
      Pow2Of64();
      BitIsDigit(m, x);
      Pow2Grows(64, x);
      QuotientOf(Pow2(x), 0, m);
      assert false;
    }
  }

  lemma {:induction false} Pow2Grows(k: nat, l: nat)
    requires k <= l
    ensures Pow2(k) <= Pow2(l)
    decreases l
  {
    if k < l {
      Pow2Grows(k, l - 1);
    }
  }

  /** convertMaskToList: exactly the set bits of the 64-bit mask, in increasing order, so the list
      determines the mask. */
  method ConvertMaskToList(mask: Word64) returns (bitList: seq<nat>)
    ensures bitList == SetBits(mask, 64)
    ensures Increasing(bitList) && forall x: nat :: x in bitList <==> Bit(mask, x)
    ensures Value(bitList) == mask
  {
    bitList := [];
    for i := 0 to MASK_BITS
      invariant bitList == SetBits(mask, i)
    {
      if Bit(mask, i) {
        bitList := bitList + [i];
      }
    }
    forall x: nat ensures Increasing(bitList) && (x in bitList <==> Bit(mask, x)) {
      SetBitsExact(mask, MASK_BITS, x);
      if Bit(mask, x) {
        NoBitAbove(mask, x);
      }
    }
    WholeValue(mask);
  }

  lemma WholeValue(mask: Word64)
    ensures Value(SetBits(mask, 64)) == mask
  {
    hide SetBits, Value;
    Pow2Of64();
    ValueOfSetBits(mask, 64);
    assert mask / Pow2(64) == 0;
  }

  /** enabledCoreList and bfHighPriorityCoreList: the list of two 32-bit reads. */
  method CoreList(lo: Word32, hi: Word32) returns (cores: seq<nat>)
    ensures Increasing(cores)
    ensures forall x: nat :: x in cores <==> if x < 32 then Bit(lo, x) else Bit(hi, x - 32)
    ensures Value(cores) == hi * 0x1_0000_0000 + lo
  {
    hide Bit, Value;
    cores := ConvertMaskToList(Mask64(lo, hi));
    forall x: nat ensures Bit(Mask64(lo, hi), x) == if x < 32 then Bit(lo, x) else Bit(hi, x - 32) {
      MaskBits(lo, hi, x);
    }
  }

  // ----- std::set_difference --------------------------------------------------------

  ghost function Without(a: seq<nat>, b: seq<nat>): (r: seq<nat>)
  {
    if a == [] then []
    else if a[|a| - 1] in b then Without(a[..|a| - 1], b)
    else Without(a[..|a| - 1], b) + [a[|a| - 1]]
  }

  lemma WithoutNone(b: seq<nat>)
    ensures Without([], b) == []
  {
  }

  lemma WithoutLast(a: seq<nat>, x: nat, b: seq<nat>)
    ensures Without(a + [x], b) == if x in b then Without(a, b) else Without(a, b) + [x]
  {
    assert (a + [x])[..|a|] == a;
  }

  /** The merge that std::set_difference performs on two sorted lists. */
  method SetDifference(a: seq<nat>, b: seq<nat>) returns (r: seq<nat>)
    requires Increasing(a) && Increasing(b)
    ensures r == Without(a, b)
  {
    r := [];
    var i, j := 0, 0;
    while i < |a|
      invariant 0 <= i <= |a| && 0 <= j <= |b|
      invariant r == Without(a[..i], b)
      invariant forall k :: 0 <= k < j && i < |a| ==> b[k] < a[i]
      decreases |a| - i + |b| - j
    {
      if j == |b| || a[i] < b[j] {
        assert a[i] !in b;
        assert a[..i + 1][..i] == a[..i];
        r := r + [a[i]];
        i := i + 1;
      } else {
        if !(b[j] < a[i]) {
          assert a[..i + 1][..i] == a[..i];
          i := i + 1;
        }
        j := j + 1;
      }
    }
    assert a[..i] == a;
  }

  // ----- High- and low-priority cores -----------------------------------------------

  /** m & ~n and m & n on the low `k` bits. */
  function AndNot(m: nat, n: nat, k: nat): (r: nat)
    decreases k
  {
    if k == 0 then 0
    else (if m % 2 == 1 && n % 2 == 0 then 1 else 0) + 2 * AndNot(m / 2, n / 2, k - 1)
  }

  function And(m: nat, n: nat, k: nat): (r: nat)
    decreases k
  {
    if k == 0 then 0
    else (if m % 2 == 1 && n % 2 == 1 then 1 else 0) + 2 * And(m / 2, n / 2, k - 1)
  }

  lemma {:induction false} AndNotBits(m: nat, n: nat, k: nat, i: nat)
    requires i < k
    ensures Bit(AndNot(m, n, k), i) <==> Bit(m, i) && !Bit(n, i)
    decreases k
  {
    var r, rest := AndNot(m, n, k), AndNot(m / 2, n / 2, k - 1);
    assert r / 2 == rest && (r % 2 == 1 <==> m % 2 == 1 && n % 2 == 0);
    if i > 0 {
      AndNotBits(m / 2, n / 2, k - 1, i - 1);
    }
  }

  lemma {:induction false} AndBits(m: nat, n: nat, k: nat, i: nat)
    requires i < k
    ensures Bit(And(m, n, k), i) <==> Bit(m, i) && Bit(n, i)
    decreases k
  {
    var r, rest := And(m, n, k), And(m / 2, n / 2, k - 1);
    assert r / 2 == rest && (r % 2 == 1 <==> m % 2 == 1 && n % 2 == 1);
    if i > 0 {
      AndBits(m / 2, n / 2, k - 1, i - 1);
    }
  }

  lemma {:induction false} DifferenceUpTo(total: nat, high: nat, n: nat, width: nat)
    requires n <= width
    ensures Without(SetBits(total, n), SetBits(high, width)) == SetBits(AndNot(total, high, width), n)
    ensures |SetBits(AndNot(total, high, width), n)| + |SetBits(And(total, high, width), n)| == |SetBits(total, n)|
    decreases n
  {
    hide Bit, And, AndNot, Without;
    if n == 0 {
      assert Without([], SetBits(high, width)) == [] by { WithoutNone(SetBits(high, width)); }
    } else {
      DifferenceUpTo(total, high, n - 1, width);
      AndNotBits(total, high, width, n - 1);
      AndBits(total, high, width, n - 1);
      SetBitsExact(high, width, n - 1);
      if Bit(total, n - 1) {
        WithoutLast(SetBits(total, n - 1), n - 1, SetBits(high, width));
      }
    }
  }

  /** The low-priority list is the list of `total & ~high`; it is disjoint from the
      high-priority list, and the cores split between the two. */
  method PriorityCores(total: Word64, high: Word64) returns (all: seq<nat>, hi: seq<nat>, lo: seq<nat>)
    ensures all == SetBits(total, 64) && hi == SetBits(high, 64)
    ensures lo == SetBits(AndNot(total, high, 64), 64)
    ensures forall x :: x in lo <==> x in all && x !in hi
    ensures |lo| + |SetBits(And(total, high, 64), 64)| == |all|
  {
    hide SetBits, Without, Bit, And, AndNot;
    all := ConvertMaskToList(total);
    hi := ConvertMaskToList(high);
    lo := SetDifference(all, hi);
    DifferenceUpTo(total, high, 64, 64);
    forall x: nat ensures x in lo <==> x in all && x !in hi {
      SetBitsExact(AndNot(total, high, 64), 64, x);
      SetBitsExact(total, 64, x);
      SetBitsExact(high, 64, x);
      if x < 64 {
        AndNotBits(total, high, 64, x);
      }
    }
  }
}
