/** Index arithmetic of the buffer pool: the pool-size test and the masking of a
    64-bit index to a buffer slot. The C++ operator `&` on unsigned words is
    modelled on natural numbers, one binary digit at a time. */
module PoolIndex {
  import opened Prelude

  // Number of values of a uint64_t.
  const WORD: nat := 0x1_0000_0000_0000_0000

  // Number of values of an unsigned (32 bits).
  const UNSIGNED: nat := 0x1_0000_0000

  function BitAnd(a: nat, b: nat): (r: nat)
    ensures r <= a && r <= b
  {
    if a == 0 || b == 0 then 0
    else 2 * BitAnd(a / 2, b / 2) + (if a % 2 == 1 && b % 2 == 1 then 1 else 0)
  }

  predicate IsPoolSizeValid(poolSize: nat) {
    poolSize > 1 && BitAnd(poolSize, poolSize - 1) == 0
  }

  // readIndexMax: the read index of a pool without a reader.
  function ReadIndexMax(poolSize: nat): nat
    requires poolSize < WORD
  {
    WORD - 1 - poolSize
  }

  // bufferAt: the first element of the buffer that an index denotes.
  function BufferAt(index: nat, bufferSize: nat, poolSize: nat): nat
    requires poolSize > 0
  {
    BitAnd(index, poolSize - 1) * bufferSize
  }

  // ---- the pool-size test ----

  lemma {:induction false} PowerHasNoSharedBit(k: nat)
    ensures BitAnd(Pow2(k), Pow2(k) - 1) == 0
  {
    if k > 0 {
      PowerHasNoSharedBit(k - 1);
      assert (Pow2(k) - 1) / 2 == Pow2(k - 1) - 1;
    }
  }

  lemma {:induction false} NoSharedBitIsPower(n: nat) returns (k: nat)
    requires n >= 1 && BitAnd(n, n - 1) == 0
    ensures n == Pow2(k)
  {
    k := 0;
    if n > 1 {
      var h := (n - 1) / 2;
      SharesItself(h);
      assert n / 2 == h || n / 2 == h + 1;
      k := NoSharedBitIsPower(n / 2);
      k := k + 1;
    }
  }

  lemma {:induction false} SharesItself(n: nat)
    ensures BitAnd(n, n) == n
  {
    if n > 0 {
      SharesItself(n / 2);
    }
  }

  // The test accepts exactly the powers of two from 2 upward.
  lemma PoolSizeValidIffPowerOfTwo(n: nat)
    ensures IsPoolSizeValid(n) <==> exists k: nat :: k >= 1 && n == Pow2(k)
  {
    if IsPoolSizeValid(n) {
      var k := NoSharedBitIsPower(n);
      assert k >= 1;
    }
    forall k: nat | k >= 1 && n == Pow2(k)
      ensures IsPoolSizeValid(n)
    {
      assert Pow2(k) == 2 * Pow2(k - 1);
      PowerHasNoSharedBit(k);
    }
  }

  // ---- masking is reduction modulo the pool size ----

  lemma AndOddMask(i: nat, m: nat)
    requires m >= 1
    ensures BitAnd(i, 2 * m - 1) == 2 * BitAnd(i / 2, m - 1) + i % 2
  {
    assert (2 * m - 1) / 2 == m - 1 && (2 * m - 1) % 2 == 1;
  }

  lemma {:induction false} MaskPowerIsMod(i: nat, k: nat)
    ensures BitAnd(i, Pow2(k) - 1) == i % Pow2(k)
  {
    if k > 0 {
      var m := Pow2(k - 1);
      AndOddMask(i, m);
      MaskPowerIsMod(i / 2, k - 1);
      HalvedMod(i, m);
    }
  }

  lemma HalvedMod(i: nat, m: nat)
    requires m >= 1
    ensures i % (2 * m) == 2 * ((i / 2) % m) + i % 2
  {
    var q, x := (i / 2) / m, (i / 2) % m;
    assert i / 2 == q * m + x;
    TwiceProduct(q, m);
    ModUnique(i, 2 * m, q, 2 * x + i % 2);
  }

  lemma TwiceProduct(q: nat, m: nat)
    ensures q * (2 * m) == 2 * (q * m)
  {}

  lemma MulMonotone(a: int, b: int, n: nat)
    requires a <= b
    ensures a * n <= b * n
  {}

  lemma ModUnique(i: nat, n: nat, q: nat, x: nat)
    requires n > 0 && x < n && i == q * n + x
    ensures i % n == x
  {
    var e, y := i / n, i % n;
    assert i == e * n + y;
    if e < q {
      MulMonotone(e + 1, q, n);
    } else if q < e {
      MulMonotone(q + 1, e, n);
    }
  }

  lemma MaskIsMod(i: nat, poolSize: nat)
    requires IsPoolSizeValid(poolSize)
    ensures BitAnd(i, poolSize - 1) == i % poolSize
  {
    var k := NoSharedBitIsPower(poolSize);
    MaskPowerIsMod(i, k);
  }

  // The buffer of an index is the one of its remainder, in units of the buffer size.
  lemma {:induction false} BufferAtIs(i: nat, bufferSize: nat, poolSize: nat)
    requires IsPoolSizeValid(poolSize)
    ensures BufferAt(i, bufferSize, poolSize) == (i % poolSize) * bufferSize
  {
    MaskIsMod(i, poolSize);
  }

  // ---- consecutive indices own disjoint slices ----

  lemma SameSlotFarApart(i: nat, j: nat, n: nat)
    requires n > 0 && i < j && i % n == j % n
    ensures j >= i + n
  {
    var a, b, x := i / n, j / n, i % n;
    assert i == a * n + x && j == b * n + x;
    if b <= a {
      MulMonotone(b, a, n);
    } else {
      MulMonotone(a + 1, b, n);
    }
  }

  lemma SlotRepeats(i: nat, n: nat)
    requires n > 0
    ensures (i + n) % n == i % n
  {
    ModUnique(i + n, n, i / n + 1, i % n);
  }

  lemma DistinctSlotsDisjoint(x: nat, y: nat, bufferSize: nat)
    requires x < y
    ensures x * bufferSize + bufferSize <= y * bufferSize
  {
    MulMonotone(x + 1, y, bufferSize);
  }

  // Any poolSize consecutive indices denote pairwise disjoint slices, each of
  // them inside the pool's storage; poolSize apart they denote the same slice.
  lemma {:induction false} SlicesDisjoint(i: nat, j: nat, bufferSize: nat, poolSize: nat)
    requires IsPoolSizeValid(poolSize) && i < j
    ensures BufferAt(i, bufferSize, poolSize) + bufferSize <= poolSize * bufferSize
    ensures j < i + poolSize ==>
              || BufferAt(i, bufferSize, poolSize) + bufferSize <= BufferAt(j, bufferSize, poolSize)
              || BufferAt(j, bufferSize, poolSize) + bufferSize <= BufferAt(i, bufferSize, poolSize)
    ensures j == i + poolSize ==> BufferAt(i, bufferSize, poolSize) == BufferAt(j, bufferSize, poolSize)
  {
    MaskIsMod(i, poolSize);
    MaskIsMod(j, poolSize);
    var x, y := BitAnd(i, poolSize - 1), BitAnd(j, poolSize - 1);
    DistinctSlotsDisjoint(x, poolSize, bufferSize);
    if j == i + poolSize {
      SlotRepeats(i, poolSize);
    } else if x < y {
      DistinctSlotsDisjoint(x, y, bufferSize);
    } else if y < x {
      DistinctSlotsDisjoint(y, x, bufferSize);
    } else {
      SameSlotFarApart(i, j, poolSize);
    }
  }
}
