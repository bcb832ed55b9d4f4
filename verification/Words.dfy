/** Machine words as numbers: wrap-around, powers of two, bitwise and. */
module Words {

  type Byte = b: nat | b < 256

  const WORD32: nat := 0x1_0000_0000

  function U32(x: int): (u: nat)
    ensures u < WORD32
  {
    x % WORD32
  }

  const WORD64: nat := 0x1_0000_0000_0000_0000

  /** Unsigned 32-bit subtraction recovers a true difference that fits. */
  lemma WrappedDifference(a: int, b: int)
    requires 0 <= a - b < WORD32
    ensures U32(U32(a) - U32(b)) == a - b
  {
    assert (U32(a) - U32(b) - (a - b)) % WORD32 == 0;
  }

  lemma WrappedSum(a: int, n: int)
    ensures U32(U32(a) + n) == U32(a + n)
  {
    assert (U32(a) + n - (a + n)) % WORD32 == 0;
  }

  lemma U32Small(x: nat)
    ensures U32(x) <= x && (x < WORD32 ==> U32(x) == x)
    ensures x >= WORD32 ==> U32(x - WORD32) == U32(x)
  {
  }

  function Pow2(k: nat): (p: nat)
    ensures p > 0
  {
    if k == 0 then 1 else 2 * Pow2(k - 1)
  }

  lemma Pow2Zero()
    ensures Pow2(0) == 1
  {
  }

  /** Bitwise and. */
  function And(x: nat, y: nat): nat {
    if x == 0 || y == 0 then 0 else 2 * And(x / 2, y / 2) + (x % 2) * (y % 2)
  }

  lemma AndStep(x: nat, y: nat)
    ensures y == 0 ==> And(x, y) == 0
    ensures y % 2 == 1 ==> And(x, y) == 2 * And(x / 2, y / 2) + x % 2
  {
  }

  lemma HalfOfOnes(p: nat)
    requires p > 0
    ensures (2 * p - 1) / 2 == p - 1 && (2 * p - 1) % 2 == 1
  {
  }

  lemma {:induction false} Pow2Monotone(k: nat, l: nat)
    requires k <= l
    ensures Pow2(k) <= Pow2(l)
    decreases l
  {
    if k < l { Pow2Monotone(k, l - 1); }
  }

  lemma {:induction false} Pow2Sum(a: nat, b: nat)
    ensures Pow2(a + b) == Pow2(a) * Pow2(b)
  {
    if a > 0 {
      Pow2Sum(a - 1, b);
      assert Pow2(a + b) == 2 * (Pow2(a - 1) * Pow2(b)) == Pow2(a) * Pow2(b);
    }
  }

  lemma DivBelow(x: nat, a: nat, b: nat)
    requires a > 0 && x < a * b
    ensures x / a < b
  {
    var q := x / a;
    assert a * q <= x;
    assert q >= b ==> a * q >= a * b;
  }

  lemma Word32IsPow2()
    ensures Pow2(32) == WORD32
  {
    assert Pow2(8) == 256;
    assert Pow2(16) == 0x1_0000;
    assert Pow2(24) == 0x100_0000;
  }

  lemma Word64IsPow2()
    ensures Pow2(64) == WORD64
  {
    Word32IsPow2();
    Pow2Sum(32, 32);
  }
}
