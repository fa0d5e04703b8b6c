/** 32-bit TCP sequence numbers and their serial-number order. */
module SerialNumbers {
  import opened Bytes

  const MODULUS := 0x1_0000_0000
  const HALF := 0x8000_0000

  /** Unsigned 32-bit wrap-around. */
  function Wrap(x: int): uint32 {
    x % MODULUS
  }

  predicate FinFlag(flags: byte) { flags % 2 == 1 }

  predicate SynFlag(flags: byte) { flags / 2 % 2 == 1 }

  predicate RstFlag(flags: byte) { flags / 4 % 2 == 1 }

  /** Payload begins one sequence number after a SYN. */
  function PayloadSequence(sequence: uint32, flags: byte): uint32 {
    if SynFlag(flags) then Wrap(sequence + 1) else sequence
  }

  /** `(int32_t)(left - right) < 0` : the wrapped difference has its top bit set. */
  predicate Before(left: uint32, right: uint32) {
    Wrap(left - right) >= HALF
  }

  predicate BeforeOrEqual(left: uint32, right: uint32) {
    left == right || Before(left, right)
  }

  /** Within half the number space the serial order of wrapped offsets is the order of the offsets. */
  lemma SerialOrderIsExact(a: int, b: int)
    requires -0x8000_0000 <= a - b < 0x8000_0000
    ensures Before(Wrap(a), Wrap(b)) <==> a < b
    ensures BeforeOrEqual(Wrap(a), Wrap(b)) <==> a <= b
  {
    WrapOfDifference(a, b);
    if a >= b {
      assert Wrap(a - b) == a - b;
    } else {
      assert Wrap(a - b) == a - b + MODULUS;
    }
  }

  /** And nowhere else: of two offsets less than a number space apart, the comparison is right if and only if they lie
      within half of it. */
  lemma SerialOrderIsExactOnlyThere(a: int, b: int)
    requires -0x1_0000_0000 < a - b < 0x1_0000_0000
    ensures (Before(Wrap(a), Wrap(b)) <==> a < b) <==> -0x8000_0000 <= a - b < 0x8000_0000
  {
    WrapOfDifference(a, b);
    if a >= b {
      assert Wrap(a - b) == a - b;
    } else {
      assert Wrap(a - b) == a - b + MODULUS;
    }
  }

  lemma WrapOfDifference(a: int, b: int)
    ensures Wrap(Wrap(a) - Wrap(b)) == Wrap(a - b)
  {
    var q, p := a / MODULUS, b / MODULUS;
    assert a == q * MODULUS + Wrap(a) && b == p * MODULUS + Wrap(b);
    WrapShift(Wrap(a) - Wrap(b), q - p);
  }

  lemma WrapOfSum(a: int, n: int)
    ensures Wrap(Wrap(a) + n) == Wrap(a + n)
  {
    WrapShift(Wrap(a) + n, a / MODULUS);
  }

  lemma WrapOfSmall(x: nat)
    requires x < MODULUS
    ensures Wrap(x) == x
  {
  }

  lemma WrapShift(x: int, k: int)
    ensures Wrap(x + k * MODULUS) == Wrap(x)
  {
  }

  lemma BehindByAtMostHalf(start: uint32, next: uint32)
    requires BeforeOrEqual(start, next)
    ensures Wrap(next - start) <= HALF
  {
    assert Wrap(next - start) == if next >= start then next - start else next - start + MODULUS;
    assert Wrap(start - next) == if start >= next then start - next else start - next + MODULUS;
  }

  /** The two wrapped comparisons that guard a trim make it shorter than the segment, for every
      pair of 32-bit numbers: no half-window hypothesis is needed. */
  lemma TrimIsShorterThanSegment(start: uint32, length: nat, next: uint32)
    requires 0 < length < MODULUS
    requires !BeforeOrEqual(Wrap(start + length), next)
    requires BeforeOrEqual(start, next)
    ensures Wrap(next - start) < length
  {
    hide Wrap, BeforeOrEqual;
    var trim := Wrap(next - start);
    BehindByAtMostHalf(start, next);
    WrapOfSum(next - start, start);
    WrapOfSmall(next);
    if trim >= length {
      SerialOrderIsExact(start + length, start + trim);
    }
  }
}
