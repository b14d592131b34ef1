/** General purpose status codes, arithmetic macros and release idioms of
    Common/Utilities.h (user-mode build). */
module Utilities {

  /* ---------------------------------------------------------------------
     RETSTATUS: a signed 32-bit LONG. Negative values are failures.
     --------------------------------------------------------------------- */

  const Int32Min: int := -0x8000_0000
  const Int32Max: int :=  0x7FFF_FFFF

  predicate IsInt32(x: int) { Int32Min <= x <= Int32Max }

  /** RETSTATUS_INVALID_VALUE: an internal error. */
  const RetStatusInvalidValue: int := -1
  /** RETSTATUS_SUCCESS: a general success. */
  const RetStatusSuccess: int := 0

  /** RETSTATUS_FAILED(eStatus) */
  predicate Failed(status: int) { status < 0 }

  /** RETSTATUS_SUCCEEDED(eStatus), defined as the negation of RETSTATUS_FAILED. */
  predicate Succeeded(status: int) { !Failed(status) }

  lemma FailedIffNegative(status: int)
    ensures Failed(status) <==> status < 0
    ensures Succeeded(status) <==> !Failed(status)
    ensures Succeeded(status) <==> status >= 0
  {
  }

  lemma StatusConstants()
    ensures Succeeded(RetStatusSuccess) && !Failed(RetStatusSuccess)
    ensures Failed(RetStatusInvalidValue) && !Succeeded(RetStatusInvalidValue)
  {
  }

  /** DEBUG_GEN_FAIL_STATUS(): the negated source line of the expansion, a
      failure status unique to that line of the module. */
  function GenFailStatus(line: nat): (status: int)
    requires 0 < line <= Int32Max
    ensures Failed(status) && IsInt32(status)
    ensures -status == line
  {
    0 - line as int
  }

  /** Two different lines never produce the same failure status. */
  lemma GenFailStatusInjective(line1: nat, line2: nat)
    requires 0 < line1 <= Int32Max && 0 < line2 <= Int32Max
    ensures GenFailStatus(line1) == GenFailStatus(line2) <==> line1 == line2
  {
  }

  /* ---------------------------------------------------------------------
     Arithmetic macros. The overflowing inputs of the 32-bit C expressions
     are excluded by the preconditions rather than modelled.
     --------------------------------------------------------------------- */

  /** ABS(iValue) */
  function Abs(v: int): (r: int)
    requires IsInt32(v) && v != Int32Min
    ensures r >= 0 && (r == v || r == -v)
    ensures IsInt32(r)
  {
    if v < 0 then -v else v
  }

  /** MAX(iFirstValue, iSecondValue) */
  function Max(first: int, second: int): (r: int)
    ensures r == first || r == second
    ensures r >= first && r >= second
  {
    if first > second then first else second
  }

  /** MIN(iFirstValue, iSecondValue) */
  function Min(first: int, second: int): (r: int)
    ensures r == first || r == second
    ensures r <= first && r <= second
  {
    if first > second then second else first
  }

  /** Together MAX and MIN return both arguments. */
  lemma MaxMinPartition(first: int, second: int)
    ensures Max(first, second) + Min(first, second) == first + second
    ensures {Max(first, second), Min(first, second)} == {first, second}
  {
  }

  /** CEIL(nNumerator, nDenominator) for a non-negative numerator and a
      positive denominator (where C's truncating division and Dafny's
      Euclidean division agree). The result is the least q with q * d >= n. */
  function Ceil(n: int, d: int): (q: int)
    requires 0 <= n && 0 < d && n + d - 1 <= Int32Max
    ensures q >= 0
    ensures q * d >= n
    ensures (q - 1) * d < n
  {
    var q := (n + d - 1) / d;
    DivBounds(n + d - 1, d);
    q
  }

  /** Euclidean division facts used by Ceil. */
  lemma DivBounds(x: int, d: int)
    requires 0 <= x && 0 < d
    ensures 0 <= x / d
    ensures x / d * d <= x < x / d * d + d
  {
    var q, r := x / d, x % d;
    assert x == q * d + r && 0 <= r < d;
    assert q * d == d * q;
  }

  /** No multiple of d below Ceil(n, d) * d reaches n: the result is the least one. */
  lemma CeilIsLeast(n: int, d: int, k: int)
    requires 0 <= n && 0 < d && n + d - 1 <= Int32Max
    requires k * d >= n
    ensures Ceil(n, d) <= k
  {
    var q := Ceil(n, d);
    if k < q {
      assert k <= q - 1;
      assert k * d <= (q - 1) * d by {
        MulMonotone(k, q - 1, d);
      }
    }
  }

  lemma MulMonotone(a: int, b: int, d: int)
    requires a <= b && 0 < d
    ensures a * d <= b * d
  {
    assert b * d - a * d == (b - a) * d;
  }

  /* ---------------------------------------------------------------------
     IS_FLAG_ON on 32-bit DWORD values.
     --------------------------------------------------------------------- */

  /** IS_FLAG_ON(dwValue, dwFlag) */
  predicate IsFlagOn(value: bv32, flag: bv32) { flag == value & flag }

  /** A DWORD with exactly one bit set: the single bits a flag is made of. */
  predicate IsSingleBit(b: bv32) { b != 0 && b & (b - 1) == 0 }

  /** A flag that is on has each of its bits set in the value. */
  lemma FlagOnCoversBits(value: bv32, flag: bv32)
    requires IsFlagOn(value, flag)
    ensures AllBitsSet(value, flag)
  {
    forall b: bv32 | IsSingleBit(b) && flag & b != 0
      ensures value & b != 0
    {
      FlagOnCoversBit(value, flag, b);
    }
  }

  lemma FlagOnCoversBit(value: bv32, flag: bv32, b: bv32)
    requires IsFlagOn(value, flag) && flag & b != 0
    ensures value & b != 0
  {
  }

  /** A flag that is not on has a bit (its lowest missing one) that is
      clear in the value. */
  function MissingBit(value: bv32, flag: bv32): (b: bv32)
    requires !IsFlagOn(value, flag)
    ensures IsSingleBit(b) && flag & b != 0 && value & b == 0
  {
    var missing := flag & !value;
    missing & -missing
  }

  /** Every bit of the flag is set in the value. */
  ghost predicate AllBitsSet(value: bv32, flag: bv32)
  {
    forall b: bv32 | IsSingleBit(b) && flag & b != 0 :: value & b != 0
  }

  /** IS_FLAG_ON holds exactly when every bit of the flag is set in the value. */
  lemma FlagOnIffAllBits(value: bv32, flag: bv32)
    ensures IsFlagOn(value, flag) <==> AllBitsSet(value, flag)
  {
    if IsFlagOn(value, flag) {
      FlagOnCoversBits(value, flag);
    } else {
      FlagOffMissesBit(value, flag);
    }
  }

  lemma FlagOffMissesBit(value: bv32, flag: bv32)
    requires !IsFlagOn(value, flag)
    ensures !AllBitsSet(value, flag)
  {
    var b := MissingBit(value, flag);
    assert !(value & b != 0);
  }

  /** The zero flag and the value itself are always on. */
  lemma IsFlagOnTrivial(value: bv32)
    ensures IsFlagOn(value, 0)
    ensures IsFlagOn(value, value)
  {
  }

  /** A flag made of two flags is on iff both are. */
  lemma IsFlagOnUnion(value: bv32, f: bv32, g: bv32)
    ensures IsFlagOn(value, f | g) <==> IsFlagOn(value, f) && IsFlagOn(value, g)
  {
    if IsFlagOn(value, f | g) {
      UnionOnSplits(value, f, g);
    }
    if IsFlagOn(value, f) && IsFlagOn(value, g) {
      BothOnJoin(value, f, g);
    }
  }

  lemma UnionOnSplits(value: bv32, f: bv32, g: bv32)
    requires IsFlagOn(value, f | g)
    ensures IsFlagOn(value, f) && IsFlagOn(value, g)
  {
  }

  lemma BothOnJoin(value: bv32, f: bv32, g: bv32)
    requires IsFlagOn(value, f) && IsFlagOn(value, g)
    ensures IsFlagOn(value, f | g)
  {
  }

  /* ---------------------------------------------------------------------
     Release idioms. A pointer or handle is an int and NULL is 0; the
     caller's variable that a macro assigns to is a Cell.
     --------------------------------------------------------------------- */

  const Null: int := 0

  /** A variable of the caller that a macro assigns to (or, for
      SET_UNLESS_NULL, the object a pointer points to). */
  class Cell {
    var value: int

    constructor (value: int)
      ensures this.value == value
    {
      this.value := value;
    }
  }

  /** What a release leaves behind: the variable's new value and the
      arguments passed to the close (or free) function, in call order. */
  datatype Released = Released(value: int, closed: seq<int>)

  /** CLOSE_TO_VALUE on a variable holding `value`: the close function is
      called once with the old value unless it already equals the sentinel,
      and either way the variable ends up holding the sentinel. */
  function CloseToValueSpec(value: int, sentinel: int): (r: Released)
    ensures r.value == sentinel
    ensures r.closed == [] <==> value == sentinel
    ensures r.closed != [] ==> r.closed == [value]
  {
    if sentinel != value then Released(sentinel, [value]) else Released(value, [])
  }

  /** Releasing twice calls the close function at most once, and never on
      the sentinel. */
  lemma CloseTwiceClosesOnce(value: int, sentinel: int)
    ensures var first := CloseToValueSpec(value, sentinel);
            var second := CloseToValueSpec(first.value, sentinel);
            second == Released(sentinel, []) &&
            |first.closed + second.closed| <= 1 &&
            sentinel !in first.closed + second.closed
  {
  }

  /** CLOSE_TO_VALUE(pvVar, pvValue, pfnCloseFunc); `closed` lists the
      arguments the close function received. */
  method CloseToValue(v: Cell, sentinel: int) returns (closed: seq<int>)
    modifies v
    ensures Released(v.value, closed) == CloseToValueSpec(old(v.value), sentinel)
  {
    closed := [];
    if sentinel != v.value {
      closed := closed + [v.value];
      v.value := sentinel;
    }
  }

  /** CLOSE(pvVar, pfnCloseFunc): CLOSE_TO_VALUE with NULL as the sentinel. */
  method Close(v: Cell) returns (closed: seq<int>)
    modifies v
    ensures Released(v.value, closed) == CloseToValueSpec(old(v.value), Null)
  {
    closed := CloseToValue(v, Null);
  }

  /** FREE(pvMem) (user mode): HeapFree is called once unless the pointer is
      NULL, and the pointer is NULL afterwards. `freed` lists the pointers
      passed to HeapFree. */
  method Free(p: Cell) returns (freed: seq<int>)
    modifies p
    ensures Released(p.value, freed) == CloseToValueSpec(old(p.value), Null)
    ensures p.value == Null && |freed| <= 1
  {
    freed := [];
    if p.value != Null {
      freed := freed + [p.value];
      p.value := Null;
    }
  }

  /** SET_UNLESS_NULL(ppvVar, pvValue): a NULL pointer is a null reference. */
  method SetUnlessNull(pp: Cell?, v: int)
    modifies pp
    ensures pp != null ==> pp.value == v
  {
    if pp != null {
      pp.value := v;
    }
  }

  /** The contents of a buffer after its first n bytes are zeroed. */
  function Zeroed(s: seq<bv8>, n: nat): (r: seq<bv8>)
    requires n <= |s|
    ensures |r| == |s|
    ensures forall i | 0 <= i < n :: r[i] == 0
    ensures forall i | n <= i < |s| :: r[i] == s[i]
  {
    seq(|s|, i requires 0 <= i < |s| => if i < n then 0 else s[i])
  }

  /** utilities_SafeMemZero(pvMem, cbBytes): returns the pointer it was
      given; zeroes the first cbBytes bytes unless the pointer is NULL.
      The buffer must hold cbBytes bytes (the function's buffer annotation). */
  method SafeMemZero(mem: array?<bv8>, n: nat) returns (r: array?<bv8>)
    requires mem != null ==> n <= mem.Length
    modifies mem
    ensures r == mem
    ensures mem != null ==> mem[..] == Zeroed(old(mem[..]), n)
  {
    if mem != null {
      forall i | 0 <= i < n {
        mem[i] := 0;
      }
    }
    r := mem;
  }
}
