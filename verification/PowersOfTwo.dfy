/** Powers of two, the low bits of a count, and how adding one changes them. */
module PowersOfTwo {
  import opened Words

  function Pow2(i: nat): (r: nat)
    ensures r > 0
  {
    if i == 0 then 1 else 2 * Pow2(i - 1)
  }

  /** The C test `(n & (1ULL << i)) != 0`, shifting `n` right instead of the mask left. */
  predicate Bit(n: nat, i: nat) {
    if i == 0 then n % 2 == 1 else Bit(n / 2, i - 1)
  }

  /** The number formed by the low `i` bits of `n`. */
  function Low(n: nat, i: nat): (r: nat)
    ensures r < Pow2(i) && r <= n
  {
    if i == 0 then 0 else n % 2 + 2 * Low(n / 2, i - 1)
  }

  lemma {:induction false} RemainderOfHalf(n: nat, d: nat)
    requires d > 0
    ensures n % (2 * d) == n % 2 + 2 * (n / 2 % d)
  {
    var q, r := n / 2 / d, n / 2 % d;
    assert n / 2 == d * q + r;
    assert (2 * d) * q == 2 * (d * q);
    DivModUnique(n, 2 * d, q, n % 2 + 2 * r);
  }

  lemma {:induction false} LowIsRemainder(n: nat, i: nat)
    ensures Low(n, i) == n % Pow2(i)
  {
    if i == 0 {
    } else {
      LowIsRemainder(n / 2, i - 1);
      RemainderOfHalf(n, Pow2(i - 1));
    }
  }

  /** What remains above the low bits is a multiple of their range. */
  lemma {:induction false} LowIsAligned(n: nat, i: nat)
    ensures (n - Low(n, i)) % Pow2(i) == 0
  {
    LowIsRemainder(n, i);
    var d := Pow2(i);
    assert n == d * (n / d) + n % d;
    DivModUnique(n - Low(n, i), d, n / d, 0);
  }

  lemma {:induction false} LowIsWhole(n: nat, i: nat)
    ensures Low(n, i) == n <==> n < Pow2(i)
  {
    if i == 0 {
    } else {
      LowIsWhole(n / 2, i - 1);
    }
  }

  /** Bit `i` is exactly what separates the low `i + 1` bits from the low `i` bits. */
  lemma {:induction false} LowBits(n: nat, i: nat)
    ensures Low(n, i + 1) == Low(n, i) + (if Bit(n, i) then Pow2(i) else 0)
  {
    if i == 0 {
      assert Low(n / 2, 0) == 0;
    } else {
      LowBits(n / 2, i - 1);
    }
  }

  lemma {:induction false} LowOfLow(n: nat, k: nat, i: nat)
    requires i <= k
    ensures Low(Low(n, k), i) == Low(n, i)
    ensures i < k ==> (Bit(Low(n, k), i) <==> Bit(n, i))
  {
    if k == 0 {
    } else {
      assert Low(n, k) / 2 == Low(n / 2, k - 1) && Low(n, k) % 2 == n % 2;
      if i > 0 {
        LowOfLow(n / 2, k - 1, i - 1);
      }
    }
  }

  lemma {:induction false} Pow2Of32()
    ensures Pow2(32) == TWO32
  {
    assert Pow2(8) == 256;
    assert Pow2(16) == 256 * Pow2(8);
    assert Pow2(24) == 256 * Pow2(16);
    assert Pow2(32) == 256 * Pow2(24);
  }

  lemma {:induction false} Pow2Add(i: nat, j: nat)
    ensures Pow2(i + j) == Pow2(i) * Pow2(j)
  {
    if j == 0 {
    } else {
      Pow2Add(i, j - 1);
      assert Pow2(i) * (2 * Pow2(j - 1)) == 2 * (Pow2(i) * Pow2(j - 1));
    }
  }

  lemma {:induction false} Pow2Of64()
    ensures Pow2(64) == TWO64
  {
    Pow2Add(32, 32);
    Pow2Of32();
  }

  /** A 64-bit counter that wraps shows the same low 64 bits as the true count. */
  lemma {:induction false} WrappedCounterBits(n: nat, i: nat)
    requires i < 64
    ensures Bit(n % TWO64, i) <==> Bit(n, i)
  {
    Pow2Of64();
    LowIsRemainder(n, 64);
    LowOfLow(n, 64, i);
  }

  /** Adding one either goes up within the low `i` bits or clears them all. */
  lemma {:induction false} SuccLow(n: nat, i: nat)
    ensures Low(n + 1, i) == if Low(n, i) == Pow2(i) - 1 then 0 else Low(n, i) + 1
  {
    if i == 0 {
    } else {
      SuccLow(n / 2, i - 1);
      if n % 2 == 0 {
        assert (n + 1) / 2 == n / 2;
      } else {
        assert (n + 1) / 2 == n / 2 + 1;
      }
    }
  }

  /** The bit a carry stops at is the only low bit left set. */
  lemma {:induction false} CarryTarget(n: nat, i: nat)
    requires Low(n, i) == Pow2(i) - 1 && Bit(n + 1, i)
    ensures Low(n + 1, i + 1) == Pow2(i)
  {
    SuccLow(n, i);
    LowBits(n + 1, i);
  }

  lemma {:induction false} NotAllOnes(n: nat, i: nat, j: nat)
    requires !Bit(n, i) && i < j
    ensures Low(n, j) < Pow2(j) - 1
  {
    LowBits(n, j - 1);
    if j == i + 1 {
    } else {
      NotAllOnes(n, i, j - 1);
    }
  }

  /** A carry that stops below bit `j` changes neither bit `j` nor where its block starts. */
  lemma {:induction false} HigherBitsKept(n: nat, i: nat, j: nat)
    requires Low(n, i) == Pow2(i) - 1 && !Bit(n, i) && i < j
    ensures Bit(n + 1, j) <==> Bit(n, j)
    ensures Low(n + 1, j + 1) == Low(n, j + 1) + 1
  {
    assert Low(n + 1, j) == Low(n, j) + 1 by {
      NotAllOnes(n, i, j);
      SuccLow(n, j);
    }
    assert Low(n + 1, j + 1) == Low(n, j + 1) + 1 by {
      NotAllOnes(n, i, j + 1);
      SuccLow(n, j + 1);
    }
    LowBits(n, j);
    LowBits(n + 1, j);
  }

  lemma {:induction false} ClearBits(n: nat, depth: nat, j: nat)
    requires Low(n, depth) == 0 && j < depth
    ensures !Bit(n, j)
  {
    LowBits(n, depth - 1);
    if j == depth - 1 {
    } else {
      ClearBits(n, depth - 1, j);
    }
  }

  /** A count whose low bits are all clear has none of them set. */
  lemma {:induction false} AllClear(n: nat, depth: nat)
    requires Low(n, depth) == 0
    ensures forall j: nat :: j < depth ==> !Bit(n, j)
  {
    forall j: nat | j < depth ensures !Bit(n, j) {
      ClearBits(n, depth, j);
    }
  }
}
