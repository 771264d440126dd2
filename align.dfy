/**
 * `Memory_Linked_List::align` (allocator.cpp): round a request up to the
 * smallest power of two that is at least 8 and at least the request.
 */
module Alignment {
  import opened Wrappers
  import opened PowersOfTwo

  /** The aligned size of an `n`-byte request, defined by halving the
      request (rounding up) until it is at most 8. */
  function Pow2AtLeast(n: nat): (r: nat)
    ensures IsPow2(r) && r >= 8 && r >= n
    decreases n
  {
    if n <= 8 then
      EightIsPow2();
      8
    else
      var half := Pow2AtLeast((n + 1) / 2);
      DoubleIsPow2(half);
      2 * half
  }

  /** `r` is the smallest power of two that is at least 8 and at least `n`. */
  ghost predicate IsAlignmentOf(r: nat, n: nat)
  {
    IsPow2(r) && r >= 8 && r >= n &&
    forall p: nat :: IsPow2(p) && p >= 8 && p >= n ==> r <= p
  }

  lemma {:induction false} Pow2AtLeastIsAlignment(n: nat)
    ensures IsAlignmentOf(Pow2AtLeast(n), n)
    decreases n
  {
    if n > 8 {
      var m := (n + 1) / 2;
      Pow2AtLeastIsAlignment(m);
      forall p: nat | IsPow2(p) && p >= 8 && p >= n
        ensures Pow2AtLeast(n) <= p
      {
        EightIsPow2();
        Pow2Gap(8, p);
        assert p % 2 == 0 && IsPow2(p / 2);
        assert p / 2 >= m && p / 2 >= 8;
        assert Pow2AtLeast(n) == 2 * Pow2AtLeast(m);
      }
    }
  }

  /** A power of two at least 8 and n that is 8 or whose half is below n
      is the alignment of n. */
  lemma AlignmentByHalf(r: nat, n: nat)
    requires IsPow2(r) && r >= 8 && r >= n && (r == 8 || r / 2 < n)
    ensures r == Pow2AtLeast(n) && IsAlignmentOf(r, n)
  {
    forall p: nat | IsPow2(p) && p >= 8 && p >= n
      ensures r <= p
    {
      if r != 8 {
        assert r >= 2 && r % 2 == 0 && IsPow2(r / 2);
        if p < r {
          Pow2Gap(r / 2, p);
        }
      }
    }
    Pow2AtLeastIsAlignment(n);
  }

  /** `align`: start from 8 and double while below the request. */
  method Align(size: nat) returns (r: nat)
    ensures IsAlignmentOf(r, size)
    ensures r == Pow2AtLeast(size)
    ensures r < 2 * (if size > 8 then size else 8)
  {
    var i := 8;
    EightIsPow2();
    while i < size
      invariant IsPow2(i) && i >= 8
      invariant i == 8 || i / 2 < size
    {
      DoubleIsPow2(i);
      i := i * 2;
    }
    AlignmentByHalf(i, size);
    r := i;
  }

  /** The largest value of a 32-bit `int`. */
  const IntMax := 0x7FFF_FFFF

  /** `align` as written: `auto i = 8` gives `i` the type `int`, so the
      doubling is 32-bit signed arithmetic. None stands for the signed
      overflow (undefined behaviour) that a request above 2^30 reaches. */
  function AlignInt32(i: int, size: nat): (r: Option<int>)
    requires 0 < i <= IntMax
    ensures r.Some? ==> i <= r.value <= IntMax && size <= r.value
    ensures r.None? ==> size > 0x4000_0000
    decreases size - i
  {
    if i < size then
      if 2 * i > IntMax then None else AlignInt32(2 * i, size)
    else Some(i)
  }

  lemma {:induction false} AlignInt32From(i: nat, size: nat)
    requires IsPow2(i) && 8 <= i <= 0x4000_0000 && (i == 8 || i / 2 < size)
    ensures AlignInt32(i, size) ==
      (if size <= 0x4000_0000 then Some(Pow2AtLeast(size) as int) else None)
    decreases size - i
  {
    if i < size {
      if 2 * i <= IntMax {
        TwoToThirtyIsPow2();
        if i < 0x4000_0000 {
          Pow2Gap(i, 0x4000_0000);
        }
        DoubleIsPow2(i);
        assert (2 * i) / 2 == i;
        AlignInt32From(2 * i, size);
      }
    } else {
      AlignmentByHalf(i, size);
    }
  }

  /** The 32-bit loop agrees with `align` exactly for requests up to 2^30
      and overflows for every larger request. */
  lemma AlignInt32Overflows(size: nat)
    ensures size <= 0x4000_0000 ==> AlignInt32(8, size) == Some(Pow2AtLeast(size) as int)
    ensures size > 0x4000_0000 ==> AlignInt32(8, size) == None
  {
    EightIsPow2();
    AlignInt32From(8, size);
  }
}
