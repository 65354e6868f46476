/** 64-bit machine words: the `usize` of the desktop, its wrap-around and its bit masks. */
module MachineWords {
  /** 2^64, one more than the largest `usize`. */
  const WORD_RANGE: nat := 0x1_0000_0000_0000_0000

  type usize = x: nat | x < 0x1_0000_0000_0000_0000

  type byte = x: int | 0 <= x < 256

  function Min(a: int, b: int): int {
    if a <= b then a else b
  }

  function Max(a: int, b: int): int {
    if a >= b then a else b
  }

  function Wrap(x: nat): usize {
    x % WORD_RANGE
  }

  lemma WrapSmall(x: usize)
    ensures Wrap(x) == x
  {
  }

  function Pow2(k: nat): (r: nat)
    ensures r > 0
  {
    if k == 0 then 1 else 2 * Pow2(k - 1)
  }

  /** Bitwise `&`, one binary digit at a time. */
  function BitAnd(x: nat, y: nat): (r: nat)
    ensures r <= x
  {
    if x == 0 then 0 else (x % 2) * (y % 2) + 2 * BitAnd(x / 2, y / 2)
  }

  /** Bitwise `!` of a 64-bit word. */
  function BitNot(x: usize): usize {
    WORD_RANGE - 1 - x
  }

  lemma Pow2At64()
    ensures Pow2(64) == WORD_RANGE
  {
    hide Pow2;
    Pow2At4();
    Pow2Doubled(4, 0x10);
    Pow2Doubled(8, 0x100);
    Pow2Doubled(16, 0x1_0000);
    Pow2Doubled(32, 0x1_0000_0000);
  }

  lemma Pow2At4()
    ensures Pow2(4) == 0x10
  {
  }

  lemma Pow2Doubled(k: nat, p: nat)
    requires Pow2(k) == p
    ensures Pow2(2 * k) == p * p
  {
    Pow2Sum(k, k);
  }

  lemma {:induction false} Pow2Sum(j: nat, k: nat)
    ensures Pow2(j + k) == Pow2(j) * Pow2(k)
  {
    if j > 0 {
      calc {
        Pow2(j + k);
        2 * Pow2(j - 1 + k);
        { Pow2Sum(j - 1, k); }
        2 * (Pow2(j - 1) * Pow2(k));
        { Associates(2, Pow2(j - 1), Pow2(k)); }
        Pow2(j) * Pow2(k);
      }
    }
  }

  lemma {:induction false} Pow2Monotone(j: nat, k: nat)
    requires j <= k
    ensures Pow2(j) <= Pow2(k)
  {
    if j < k {
      Pow2Monotone(j, k - 1);
    }
  }

  lemma {:induction false} AllOnes(x: nat, w: nat)
    requires x < Pow2(w)
    ensures BitAnd(x, Pow2(w) - 1) == x
  {
    if x > 0 {
      AllOnes(x / 2, w - 1);
      BitAndStep(x, 1, Pow2(w - 1) - 1);
    }
  }

  /** A mask of ones above the lowest `k` bits rounds down to a multiple of 2^k. */
  lemma {:induction false} HighMask(x: nat, w: nat, k: nat)
    requires k <= w && x < Pow2(w)
    ensures Pow2(k) <= Pow2(w)
    ensures BitAnd(x, Pow2(w) - Pow2(k)) == x - x % Pow2(k)
  {
    hide BitAnd;
    Pow2Monotone(k, w);
    if k == 0 {
      AllOnes(x, w);
    } else {
      HighMask(x / 2, w - 1, k - 1);
      HighMaskStep(x, Pow2(w - 1) - Pow2(k - 1), Pow2(k - 1));
    }
  }

  lemma HighMaskStep(x: nat, mask: nat, half: nat)
    requires half > 0 && BitAnd(x / 2, mask) == x / 2 - (x / 2) % half
    ensures BitAnd(x, 2 * mask) == x - x % (2 * half)
  {
    hide BitAnd;
    BitAndStep(x, 0, mask);
    HalfRemainder(x, half);
  }

  lemma BitAndStep(x: nat, bit: nat, y: nat)
    requires bit < 2
    ensures BitAnd(x, 2 * y + bit) == (x % 2) * bit + 2 * BitAnd(x / 2, y)
  {
    assert (2 * y + bit) % 2 == bit && (2 * y + bit) / 2 == y;
  }

  lemma HalfRemainder(x: nat, m: nat)
    requires m > 0
    ensures x % (2 * m) == 2 * ((x / 2) % m) + x % 2
  {
    var q, r := (x / 2) / m, (x / 2) % m;
    assert x == 2 * (q * m + r) + x % 2;
    assert x == q * (2 * m) + (2 * r + x % 2);
    RemainderUnique(x, 2 * m, q, 2 * r + x % 2);
  }

  lemma RemainderUnique(x: nat, m: nat, q: nat, r: nat)
    requires x == q * m + r && r < m
    ensures x % m == r
  {
    var q' := x / m;
    assert x == q' * m + x % m;
    if q < q' {
      ProductMonotone(q + 1, q', m);
    } else if q' < q {
      ProductMonotone(q' + 1, q, m);
    }
  }

  lemma Associates(x: int, y: int, z: int)
    ensures x * (y * z) == (x * y) * z
  {
  }

  lemma Distributes(x: int, y: int, m: int)
    ensures (x + y) * m == x * m + y * m
  {
  }

  lemma ProductMonotone(x: int, y: int, m: nat)
    requires x <= y
    ensures x * m <= y * m
  {
    Distributes(x, y - x, m);
    ProductNotNegative(y - x, m);
  }

  lemma QuotientNotNegative(a: nat, b: nat)
    requires b > 0
    ensures a / b >= 0
  {
  }

  lemma {:induction false} ProductNotNegative(d: nat, m: nat)
    ensures d * m >= 0
  {
    if d > 0 {
      ProductNotNegative(d - 1, m);
      Distributes(d - 1, 1, m);
    }
  }

  /** `x & !(a - 1)` for `a` a power of two is the largest multiple of `a` not above `x`. */
  lemma MaskRoundsDown(x: usize, k: nat)
    requires k <= 63
    ensures Pow2(k) < WORD_RANGE
    ensures BitAnd(x, BitNot(Pow2(k) - 1)) == x - x % Pow2(k)
    ensures (x - x % Pow2(k)) % Pow2(k) == 0
  {
    hide BitAnd;
    Pow2At64();
    Pow2Monotone(k, 63);
    HighMask(x, 64, k);
    assert BitNot(Pow2(k) - 1) == Pow2(64) - Pow2(k);
    var q := x / Pow2(k);
    assert x - x % Pow2(k) == q * Pow2(k) + 0;
    RemainderUnique(q * Pow2(k), Pow2(k), q, 0);
  }
}
