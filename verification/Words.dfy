/** Fixed-width machine words, byte strings, and the hash outputs shared by every module. */
module Words {
  const TWO16 := 0x1_0000
  const TWO32 := 0x1_0000_0000
  const TWO63 := 0x8000_0000_0000_0000
  const TWO64 := 0x1_0000_0000_0000_0000

  type byte = x: int | 0 <= x < 256
  type uint16 = x: int | 0 <= x < TWO16
  type uint32 = x: int | 0 <= x < TWO32
  type uint64 = x: int | 0 <= x < TWO64

  type Bytes = seq<byte>

  const HASH_BYTES := 32

  function Zeros(n: nat): (r: Bytes)
    ensures |r| == n
    ensures forall i :: 0 <= i < n ==> r[i] == 0
  {
    seq(n, _ => 0)
  }

  datatype Option<+T> = None | Some(value: T)

  /** The output of BLAKE2b (default length) and of SHA-256: both are 32 bytes. */
  type Digest = d: Bytes | |d| == HASH_BYTES witness Zeros(32)

  /** A hash is any total function from byte strings to digests. */
  type HashFn = Bytes -> Digest

  const ZERO_DIGEST: Digest := Zeros(HASH_BYTES)

  /** A pair of inputs on which two hash computations went through the same digest. */
  datatype InputPair = InputPair(first: Bytes, second: Bytes)

  predicate IsCollision(h: HashFn, p: InputPair) {
    p.first != p.second && h(p.first) == h(p.second)
  }

  /** Where two hash chains that end in the same digest part: nowhere, at a collision, or at a start. */
  datatype Parting =
    | Nowhere
    | AtCollision(pair: InputPair)
    | AtZeroDigest(image: Bytes)

  /** A parting shows what it claims: `same`, or inputs with the digests it speaks of. */
  predicate Shows(h: HashFn, parting: Parting, same: bool) {
    match parting
    case Nowhere => same
    case AtCollision(pair) => IsCollision(h, pair)
    case AtZeroDigest(image) => h(image) == ZERO_DIGEST
  }

  /** Little-endian image of a word in `width` bytes, as `memcpy` lays it out on the target. */
  function LittleEndian(x: nat, width: nat): (r: Bytes)
    ensures |r| == width
  {
    if width == 0 then [] else [x % 256] + LittleEndian(x / 256, width - 1)
  }

  /** 256 to the power `width`: the number of values a word of that width can hold. */
  function WordRange(width: nat): (r: nat)
    ensures r > 0
  {
    if width == 0 then 1 else 256 * WordRange(width - 1)
  }

  function FromLittleEndian(b: Bytes): (x: nat)
    ensures x < WordRange(|b|)
  {
    if b == [] then 0 else b[0] + 256 * FromLittleEndian(b[1..])
  }

  lemma {:induction false} WordRanges()
    ensures WordRange(1) == 256
    ensures WordRange(2) == TWO16
    ensures WordRange(4) == TWO32
    ensures WordRange(8) == TWO64
  {
    assert WordRange(1) == 256 * WordRange(0);
    assert WordRange(2) == 256 * WordRange(1);
    assert WordRange(3) == 256 * WordRange(2);
    assert WordRange(4) == 256 * WordRange(3);
    assert WordRange(5) == 256 * WordRange(4);
    assert WordRange(6) == 256 * WordRange(5);
    assert WordRange(7) == 256 * WordRange(6);
  }

  lemma {:induction false} MultipleAtLeast(d: int, k: int)
    requires d > 0 && k >= 1
    ensures d * k >= d
  {}

  lemma {:induction false} MultiplesApart(d: int, a: int, b: int, r: int, t: int)
    requires 0 <= r < d && 0 <= t < d
    requires d * a + r == d * b + t
    ensures a == b
  {
    assert d * (a - b) == d * a - d * b == t - r;
    assert d * (b - a) == r - t;
    if a > b {
      MultipleAtLeast(d, a - b);
    } else if b > a {
      MultipleAtLeast(d, b - a);
    }
  }

  /** Euclidean division is the only way to write `n` as a multiple of `d` plus a remainder. */
  lemma {:induction false} DivModUnique(n: int, d: int, q: int, r: int)
    requires d > 0 && 0 <= r < d
    requires n == d * q + r
    ensures n / d == q && n % d == r
  {
    MultiplesApart(d, n / d, q, n % d, r);
  }

  lemma {:induction false} DivDiv(x: nat, d: nat)
    requires d > 0
    ensures 256 * d > 0 && x / 256 / d == x / (256 * d)
  {
    var q := x / 256 / d;
    var r := 256 * (x / 256 % d) + x % 256;
    assert x / 256 == d * q + x / 256 % d;
    assert 256 * (d * q) == (256 * d) * q;
    DivModUnique(x, 256 * d, q, r);
  }

  /** Byte `k` of the image is the k-th digit of the word to the base 256, the lowest digit first. */
  lemma {:induction false} LittleEndianByte(x: nat, width: nat, k: nat)
    requires k < width
    ensures LittleEndian(x, width)[k] == x / WordRange(k) % 256
  {
    if k == 0 {
    } else {
      LittleEndianByte(x / 256, width - 1, k - 1);
      DivDiv(x, WordRange(k - 1));
    }
  }

  lemma {:induction false} LittleEndianRoundTrip(x: nat, width: nat)
    requires x < WordRange(width)
    ensures FromLittleEndian(LittleEndian(x, width)) == x
  {
    if width == 0 {
    } else {
      assert x / 256 < WordRange(width - 1);
      LittleEndianRoundTrip(x / 256, width - 1);
      var b := LittleEndian(x, width);
      assert b[1..] == LittleEndian(x / 256, width - 1);
    }
  }

  /** Every byte string is the image of the word it is read as. */
  lemma {:induction false} ReadBack(b: Bytes)
    ensures LittleEndian(FromLittleEndian(b), |b|) == b
  {
    if b == [] {
    } else {
      ReadBack(b[1..]);
      var rest := FromLittleEndian(b[1..]);
      assert (b[0] + 256 * rest) % 256 == b[0] && (b[0] + 256 * rest) / 256 == rest;
    }
  }

  lemma {:induction false} LittleEndianInjective(x: nat, y: nat, width: nat)
    requires x < WordRange(width) && y < WordRange(width)
    requires LittleEndian(x, width) == LittleEndian(y, width)
    ensures x == y
  {
    LittleEndianRoundTrip(x, width);
    LittleEndianRoundTrip(y, width);
  }

  /** Reducing modulo a multiple of `d` first does not change the remainder modulo `d`. */
  lemma {:induction false} ModOfMod(n: nat, d: nat, k: nat)
    requires d > 0 && k > 0
    ensures d * k > 0
    ensures n % (d * k) % d == n % d
  {
    assert d * k > 0;
    var m := d * k;
    assert n == m * (n / m) + n % m;
    var r := n % m;
    var q := k * (n / m) + r / d;
    assert d * (k * (n / m)) == m * (n / m);
    assert n == d * q + r % d;
    DivModUnique(n, d, q, r % d);
  }

  /** A 64-bit counter bumped once is the true count bumped once. */
  lemma {:induction false} WrapSucc(n: nat)
    ensures (n % TWO64 + 1) % TWO64 == (n + 1) % TWO64
  {}

  lemma {:induction false} WrapSucc32(n: nat)
    ensures (n % TWO32 + 1) % TWO32 == (n + 1) % TWO32
  {}

  lemma {:induction false} WrapAdd(n: nat, k: nat)
    ensures (n % TWO32 + k) % TWO32 == (n + k) % TWO32
  {}

  /** Two indices less than `cap` apart never share a ring slot. */
  lemma {:induction false} DistinctSlots(a: nat, b: nat, cap: nat)
    requires a < b < a + cap
    ensures a % cap != b % cap
  {
    if a % cap == b % cap {
      var r := b - a;
      assert b == cap * (a / cap) + (a % cap + r);
      if a % cap + r < cap {
        DivModUnique(b, cap, a / cap, a % cap + r);
      } else {
        assert cap * (a / cap + 1) == cap * (a / cap) + cap;
        DivModUnique(b, cap, a / cap + 1, a % cap + r - cap);
      }
      assert false;
    }
  }
}
