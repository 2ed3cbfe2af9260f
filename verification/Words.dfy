/**
 32-bit machine words (the kernel's `UINT`) and the meaning of their bits.

 A word is an integer below 2^32 that is read through `Bit`.  The bitwise
 operators assemble a word from its bits; a shift by a variable amount is the
 amount's number of one-bit shifts, with C's wrap-around on the left.
 */
module Words {

  const WORD_BITS: nat := 32
  const WORD_LIMIT: nat := 0x1_0000_0000
  const ALL_ONES: Word := 0xffff_ffff

  type Word = w: int | 0 <= w < 0x1_0000_0000

  function Pow2(n: nat): (p: nat)
    ensures p > 0
  {
    if n == 0 then 1 else 2 * Pow2(n - 1)
  }

  lemma WordLimitIsPow2()
    ensures Pow2(WORD_BITS) == WORD_LIMIT
  {
    assert Pow2(8) == 256;
    assert Pow2(16) == 256 * Pow2(8);
    assert Pow2(24) == 256 * Pow2(16);
    assert Pow2(32) == 256 * Pow2(24);
  }

  function Shr(w: nat, n: nat): nat
  {
    if n == 0 then w else Shr(w / 2, n - 1)
  }

  function ShrWord(w: Word, n: nat): (r: Word)
    ensures r == Shr(w, n)
  {
    if n == 0 then w else ShrWord(w / 2, n - 1)
  }

  function Shl(w: Word, n: nat): Word
  {
    if n == 0 then w else (2 * Shl(w, n - 1)) % WORD_LIMIT
  }

  predicate Bit(w: nat, i: nat)
  {
    Shr(w, i) % 2 == 1
  }

  /** The number whose low `n` bits are f(0), f(1), ..., f(n-1). */
  function Assemble(f: nat -> bool, n: nat): (r: nat)
    ensures r < Pow2(n)
  {
    if n == 0 then 0
    else (if f(0) then 1 else 0) + 2 * Assemble((i: nat) => f(i + 1), n - 1)
  }

  function FromBits(f: nat -> bool): Word
  {
    WordLimitIsPow2();
    Assemble(f, WORD_BITS)
  }

  function Or(a: Word, b: Word): Word
  {
    FromBits((i: nat) => Bit(a, i) || Bit(b, i))
  }

  function And(a: Word, b: Word): Word
  {
    FromBits((i: nat) => Bit(a, i) && Bit(b, i))
  }

  function Not(a: Word): Word
  {
    FromBits((i: nat) => !Bit(a, i))
  }

  // ------------------------------------------------------------ reading bits back

  lemma {:induction false} BitOfAssemble(f: nat -> bool, n: nat, i: nat)
    requires i < n
    ensures Bit(Assemble(f, n), i) == f(i)
  {
    if i > 0 {
      var g := (j: nat) => f(j + 1);
      BitOfAssemble(g, n - 1, i - 1);
      assert Assemble(f, n) / 2 == Assemble(g, n - 1);
    }
  }

  lemma BitOr(a: Word, b: Word, i: nat)
    requires i < WORD_BITS
    ensures Bit(Or(a, b), i) == (Bit(a, i) || Bit(b, i))
  {
    BitOfAssemble((j: nat) => Bit(a, j) || Bit(b, j), WORD_BITS, i);
  }

  lemma BitAnd(a: Word, b: Word, i: nat)
    requires i < WORD_BITS
    ensures Bit(And(a, b), i) == (Bit(a, i) && Bit(b, i))
  {
    BitOfAssemble((j: nat) => Bit(a, j) && Bit(b, j), WORD_BITS, i);
  }

  lemma BitNot(a: Word, i: nat)
    requires i < WORD_BITS
    ensures Bit(Not(a), i) == !Bit(a, i)
  {
    BitOfAssemble((j: nat) => !Bit(a, j), WORD_BITS, i);
  }

  lemma {:induction false} ShrShr(w: nat, n: nat, m: nat)
    ensures Shr(Shr(w, n), m) == Shr(w, n + m)
    decreases n
  {
    if n > 0 {
      ShrShr(w / 2, n - 1, m);
    }
  }

  lemma BitOfShr(w: Word, n: nat, i: nat)
    ensures Bit(Shr(w, n), i) == Bit(w, n + i)
  {
    ShrShr(w, n, i);
  }

  /** Two numbers below 2^n with the same n bits are the same number. */
  lemma {:induction false} BitsDetermine(a: nat, b: nat, n: nat)
    requires a < Pow2(n) && b < Pow2(n)
    requires forall i: nat :: i < n ==> Bit(a, i) == Bit(b, i)
    ensures a == b
  {
    if n > 0 {
      assert Bit(a, 0) == Bit(b, 0);
      forall i: nat | i < n - 1
        ensures Bit(a / 2, i) == Bit(b / 2, i)
      {
        assert Bit(a, i + 1) == Bit(b, i + 1);
      }
      BitsDetermine(a / 2, b / 2, n - 1);
    }
  }

  lemma WordsEqual(a: Word, b: Word)
    requires forall i: nat :: i < WORD_BITS ==> Bit(a, i) == Bit(b, i)
    ensures a == b
  {
    WordLimitIsPow2();
    BitsDetermine(a, b, WORD_BITS);
  }

  lemma {:induction false} BitOfZero(i: nat)
    ensures !Bit(0, i)
  {
    if i > 0 {
      BitOfZero(i - 1);
    }
  }

  /** A non-zero word has a set bit. */
  lemma NonZeroHasBit(w: Word)
    requires w != 0
    ensures exists i: nat :: i < WORD_BITS && Bit(w, i)
  {
    if forall i: nat :: i < WORD_BITS ==> !Bit(w, i) {
      forall i: nat | i < WORD_BITS
        ensures Bit(w, i) == Bit(0, i)
      {
        BitOfZero(i);
      }
      WordsEqual(w, 0);
    }
  }

  lemma {:induction false} BitOfOnes(n: nat, i: nat)
    ensures Bit(Pow2(n) - 1, i) == (i < n)
    decreases i
  {
    if n == 0 {
      BitOfZero(i);
    } else {
      assert Pow2(n) - 1 == 2 * (Pow2(n - 1) - 1) + 1;
      if i > 0 {
        assert (Pow2(n) - 1) / 2 == Pow2(n - 1) - 1;
        BitOfOnes(n - 1, i - 1);
      }
    }
  }

  lemma BitOfAllOnes(i: nat)
    ensures Bit(ALL_ONES, i) == (i < WORD_BITS)
  {
    WordLimitIsPow2();
    BitOfOnes(WORD_BITS, i);
  }

  /** Reducing modulo 2^n leaves the low n bits alone. */
  lemma {:induction false} BitOfMod(w: nat, n: nat, i: nat)
    requires i < n
    ensures Bit(w % Pow2(n), i) == Bit(w, i)
  {
    var p := Pow2(n - 1);
    HalfOfMod(w, p);
    if i > 0 {
      BitOfMod(w / 2, n - 1, i - 1);
    }
  }

  lemma HalfOfMod(w: nat, p: nat)
    requires p > 0
    ensures (w % (2 * p)) / 2 == (w / 2) % p
    ensures (w % (2 * p)) % 2 == w % 2
  {
    var q := w / (2 * p);
    var r := w % (2 * p);
    assert w == 2 * (q * p) + r by {
      assert (2 * p) * q == 2 * (q * p);
    }
    assert w / 2 == q * p + r / 2;
    ModOfSum(q, p, r / 2);
  }

  lemma ModOfSum(q: nat, p: nat, r: nat)
    requires r < p
    ensures (q * p + r) % p == r
  {
    var a := q * p + r;
    var d := q - a / p;
    assert d >= 1 ==> d * p >= p;
    assert d <= -1 ==> d * p + p <= 0;
    assert d * p == q * p - p * (a / p) == a % p - r;
  }

  lemma BitOfDouble(w: Word, i: nat)
    requires i < WORD_BITS
    ensures Bit((2 * w) % WORD_LIMIT, i) == (0 < i && Bit(w, i - 1))
  {
    WordLimitIsPow2();
    BitOfMod(2 * w, WORD_BITS, i);
  }

  lemma {:induction false} BitOfShl(w: Word, n: nat, i: nat)
    requires i < WORD_BITS
    ensures Bit(Shl(w, n), i) == (n <= i && Bit(w, i - n))
    decreases n
  {
    if n > 0 {
      BitOfDouble(Shl(w, n - 1), i);
      if i > 0 {
        BitOfShl(w, n - 1, i - 1);
      }
    }
  }

  lemma BitOfSingle(k: nat, i: nat)
    requires i < WORD_BITS
    ensures Bit(Shl(1, k), i) == (i == k)
  {
    BitOfShl(1, k, i);
    if k <= i {
      assert Pow2(1) - 1 == 1;
      BitOfOnes(1, i - k);
    }
  }

  lemma {:induction false} ShrOfOnes(n: nat, m: nat)
    requires m <= n
    ensures Shr(Pow2(n) - 1, m) == Pow2(n - m) - 1
  {
    if m > 0 {
      assert (Pow2(n) - 1) / 2 == Pow2(n - 1) - 1;
      ShrOfOnes(n - 1, m - 1);
    }
  }

  /** No bit at or above the width of a word is set. */
  lemma BitInRange(w: Word, i: nat)
    requires Bit(w, i)
    ensures i < WORD_BITS
  {
    WordLimitIsPow2();
    if i >= WORD_BITS {
      Pow2Monotone(WORD_BITS, i);
      ShrOfSmall(w, i);
    }
  }

  lemma {:induction false} ShrOfSmall(w: nat, n: nat)
    requires w < Pow2(n)
    ensures Shr(w, n) == 0
  {
    if n > 0 {
      ShrOfSmall(w / 2, n - 1);
    }
  }

  lemma {:induction false} Pow2Monotone(m: nat, n: nat)
    requires m <= n
    ensures Pow2(m) <= Pow2(n)
    decreases n - m
  {
    if m < n {
      Pow2Monotone(m + 1, n);
    }
  }
}
