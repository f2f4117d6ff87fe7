/** Unsigned 32-bit words as natural numbers, with the C operators given digit by digit.
    A word is below WORD_MOD; bit 0 is the least significant one. */
module Bits {

  const WORD_MOD: nat := 0x1_0000_0000

  /** Bit i of w. */
  predicate Bit(w: nat, i: nat) {
    if i == 0 then w % 2 == 1 else Bit(w / 2, i - 1)
  }

  /** 2 to the power e. */
  function Pow2(e: nat): (p: nat)
    ensures p > 0
  {
    if e == 0 then 1 else 2 * Pow2(e - 1)
  }

  /** The C operator a & b. */
  function And(a: nat, b: nat): (r: nat)
    ensures r <= a && r <= b
  {
    if a == 0 || b == 0 then 0
    else 2 * And(a / 2, b / 2) + (if a % 2 == 1 && b % 2 == 1 then 1 else 0)
  }

  /** The C operator a | b. */
  function Or(a: nat, b: nat): nat
    decreases a + b
  {
    if a == 0 then b
    else if b == 0 then a
    else 2 * Or(a / 2, b / 2) + (if a % 2 == 1 || b % 2 == 1 then 1 else 0)
  }

  /** The C operator ~a on unsigned int. */
  function Not(a: nat): nat
    requires a < WORD_MOD
  {
    WORD_MOD - 1 - a
  }

  /** The C operator a << n on unsigned int: the bits shifted out at the top are lost. */
  function Shl(a: nat, n: nat): (r: nat)
    requires a < WORD_MOD
    ensures r < WORD_MOD
    decreases n
  {
    if n == 0 then a else Shl(2 * a % WORD_MOD, n - 1)
  }

  /** The C operator a >> n on an unsigned type. */
  function Shr(a: nat, n: nat): nat {
    if n == 0 then a else Shr(a / 2, n - 1)
  }

  lemma {:induction false} ShrIsDivision(a: nat, n: nat)
    ensures Shr(a, n) == a / Pow2(n)
  {
    if n > 0 {
      ShrIsDivision(a / 2, n - 1);
      DivHalves(a, Pow2(n - 1));
    }
  }

  // ---------- what each operator does to each bit ----------

  lemma {:induction false} BitOfZero(i: nat)
    ensures !Bit(0, i)
  {
    if i > 0 { BitOfZero(i - 1); }
  }

  lemma {:induction false} BitAnd(a: nat, b: nat, i: nat)
    ensures Bit(And(a, b), i) <==> Bit(a, i) && Bit(b, i)
  {
    if a == 0 || b == 0 {
      BitOfZero(i);
    } else if i > 0 {
      BitAnd(a / 2, b / 2, i - 1);
      assert And(a, b) / 2 == And(a / 2, b / 2);
    }
  }

  lemma {:induction false} BitOr(a: nat, b: nat, i: nat)
    ensures Bit(Or(a, b), i) <==> Bit(a, i) || Bit(b, i)
  {
    if a == 0 || b == 0 {
      BitOfZero(i);
    } else if i > 0 {
      BitOr(a / 2, b / 2, i - 1);
      assert Or(a, b) / 2 == Or(a / 2, b / 2);
    }
  }

  lemma {:induction false} BitComplement(a: nat, n: nat, i: nat)
    requires a < Pow2(n) && i < n
    ensures Bit(Pow2(n) - 1 - a, i) <==> !Bit(a, i)
  {
    if i > 0 {
      assert (Pow2(n) - 1 - a) / 2 == Pow2(n - 1) - 1 - a / 2;
      BitComplement(a / 2, n - 1, i - 1);
    }
  }

  lemma Pow2Of32()
    ensures Pow2(32) == WORD_MOD
  {
    assert Pow2(8) == 256;
    assert Pow2(16) == 256 * Pow2(8);
    assert Pow2(24) == 256 * Pow2(16);
  }

  lemma BitNot(a: nat, i: nat)
    requires a < WORD_MOD && i < 32
    ensures Bit(Not(a), i) <==> !Bit(a, i)
  {
    Pow2Of32();
    BitComplement(a, 32, i);
  }

  lemma {:induction false} BitModPow2(a: nat, n: nat, i: nat)
    ensures Bit(a % Pow2(n), i) <==> i < n && Bit(a, i)
  {
    if n == 0 {
      assert a % 1 == 0;
      BitOfZero(i);
    } else {
      var m := (a / 2) % Pow2(n - 1);
      ModHalves(a, Pow2(n - 1));
      BitOfDouble(m, a % 2, i);
      if i > 0 {
        BitModPow2(a / 2, n - 1, i - 1);
      }
    }
  }

  lemma BitOfDouble(m: nat, b: nat, i: nat)
    requires b < 2
    ensures Bit(2 * m + b, i) <==> if i == 0 then b == 1 else Bit(m, i - 1)
  {
    assert (2 * m + b) / 2 == m && (2 * m + b) % 2 == b;
  }

  lemma ModHalves(a: nat, p: nat)
    requires p > 0
    ensures a % (2 * p) == 2 * ((a / 2) % p) + a % 2
  {
    var q, r := (a / 2) / p, (a / 2) % p;
    DoubleProduct(p, q);
    DivModUnique(a, 2 * p, q, 2 * r + a % 2);
  }

  lemma DivHalves(a: nat, p: nat)
    requires p > 0
    ensures a / 2 / p == a / (2 * p)
  {
    var q, r := (a / 2) / p, (a / 2) % p;
    DoubleProduct(p, q);
    DivModUnique(a, 2 * p, q, 2 * r + a % 2);
  }

  lemma DoubleProduct(p: int, q: int)
    ensures (2 * p) * q == 2 * (p * q)
  {
  }

  lemma MulAtLeast(d: int, k: int)
    requires d > 0 && k >= 1
    ensures d * k >= d
  {
    assert d * k == d + d * (k - 1);
  }

  lemma DivModUnique(a: int, d: int, q: int, r: int)
    requires d > 0 && a == d * q + r && 0 <= r < d
    ensures a / d == q && a % d == r
  {
    var q' := a / d;
    assert d * (q - q') == d * q - d * q' == a % d - r;
    if q > q' {
      MulAtLeast(d, q - q');
    } else if q < q' {
      MulAtLeast(d, q' - q);
    }
  }

  lemma {:induction false} BitShl(a: nat, n: nat, i: nat)
    requires a < WORD_MOD && i < 32
    ensures Bit(Shl(a, n), i) <==> n <= i && Bit(a, i - n)
    decreases n
  {
    if n > 0 {
      BitShl(2 * a % WORD_MOD, n - 1, i);
      if n <= i {
        Pow2Of32();
        BitModPow2(2 * a, 32, i - n + 1);
        assert 2 * a / 2 == a;
      } else if n - 1 <= i {
        assert (2 * a % WORD_MOD) % 2 == 0;
      }
    }
  }

  // ---------- single bits ----------

  lemma {:induction false} BitOfPow2(n: nat, i: nat)
    ensures Bit(Pow2(n), i) <==> i == n
  {
    if n == 0 {
      if i > 0 { BitOfZero(i - 1); }
    } else if i > 0 {
      assert Pow2(n) / 2 == Pow2(n - 1);
      BitOfPow2(n - 1, i - 1);
    }
  }

  lemma BitOfOneShl(n: nat, i: nat)
    requires n < 32 && i < 32
    ensures Bit(Shl(1, n), i) <==> i == n
  {
    BitShl(1, n, i);
    if n <= i {
      BitOfPow2(0, i - n);
    }
  }

  lemma {:induction false} SomeBit(a: nat, n: nat) returns (i: nat)
    requires 0 < a < Pow2(n)
    ensures i < n && Bit(a, i)
  {
    if a % 2 == 1 {
      i := 0;
    } else {
      i := SomeBit(a / 2, n - 1);
      i := i + 1;
    }
  }

  /** A word is zero exactly when it has no bit. */
  lemma ZeroIffNoBit(a: nat)
    requires a < WORD_MOD
    ensures a == 0 ==> forall i :: 0 <= i < 32 ==> !Bit(a, i)
    ensures a != 0 ==> exists i :: 0 <= i < 32 && Bit(a, i)
  {
    if a == 0 {
      forall i | 0 <= i < 32 ensures !Bit(a, i) { BitOfZero(i); }
    } else {
      Pow2Of32();
      var k := SomeBit(a, 32);
    }
  }

  lemma {:induction false} OrBound(a: nat, b: nat, n: nat)
    requires a < Pow2(n) && b < Pow2(n)
    ensures Or(a, b) < Pow2(n)
  {
    if a != 0 && b != 0 {
      OrBound(a / 2, b / 2, n - 1);
    }
  }

  // ---------- the bitmap idioms of the allocator ----------

  /** w | (1U << i) */
  function SetBit(w: nat, i: nat): (r: nat)
    requires w < WORD_MOD && i < 32
    ensures r < WORD_MOD
  {
    var m := Shl(1, i);
    Pow2Of32();
    OrBound(w, m, 32);
    Or(w, m)
  }

  lemma SetBitBits(w: nat, i: nat)
    requires w < WORD_MOD && i < 32
    ensures forall j :: 0 <= j < 32 ==> (Bit(SetBit(w, i), j) <==> j == i || Bit(w, j))
  {
    forall j | 0 <= j < 32 ensures Bit(SetBit(w, i), j) <==> j == i || Bit(w, j) {
      BitOr(w, Shl(1, i), j);
      BitOfOneShl(i, j);
    }
  }

  /** w & ~(1U << i) */
  function ClearBit(w: nat, i: nat): (r: nat)
    requires w < WORD_MOD && i < 32
    ensures r < WORD_MOD
  {
    And(w, Not(Shl(1, i)))
  }

  lemma ClearBitBits(w: nat, i: nat)
    requires w < WORD_MOD && i < 32
    ensures forall j :: 0 <= j < 32 ==> (Bit(ClearBit(w, i), j) <==> j != i && Bit(w, j))
  {
    forall j | 0 <= j < 32 ensures Bit(ClearBit(w, i), j) <==> j != i && Bit(w, j) {
      BitAnd(w, Not(Shl(1, i)), j);
      BitNot(Shl(1, i), j);
      BitOfOneShl(i, j);
    }
  }

  /** w & (~0U << i) */
  function FromBit(w: nat, i: nat): (r: nat)
    requires w < WORD_MOD && i < 32
    ensures r < WORD_MOD
  {
    And(w, Shl(Not(0), i))
  }

  lemma FromBitBits(w: nat, i: nat)
    requires w < WORD_MOD && i < 32
    ensures forall j :: 0 <= j < 32 ==> (Bit(FromBit(w, i), j) <==> i <= j && Bit(w, j))
  {
    forall j | 0 <= j < 32 ensures Bit(FromBit(w, i), j) <==> i <= j && Bit(w, j) {
      BitAnd(w, Shl(Not(0), i), j);
      BitShl(Not(0), i, j);
      if i <= j {
        BitNot(0, j - i);
        BitOfZero(j - i);
      }
    }
  }

  // ---------- find first / find last set ----------

  /** The index of the most significant set bit, counted by halving. */
  function Log2(n: nat): nat
    requires n > 0
  {
    if n == 1 then 0 else 1 + Log2(n / 2)
  }

  lemma {:induction false} Log2Bounds(n: nat)
    requires n > 0
    ensures Pow2(Log2(n)) <= n < 2 * Pow2(Log2(n))
  {
    if n > 1 { Log2Bounds(n / 2); }
  }

  lemma {:induction false} Log2Unique(n: nat, k: nat)
    requires Pow2(k) <= n < 2 * Pow2(k)
    ensures n > 0 && Log2(n) == k
  {
    if k > 0 {
      Log2Unique(n / 2, k - 1);
    }
  }

  lemma {:induction false} Pow2Monotone(a: nat, b: nat)
    requires a <= b
    ensures Pow2(a) <= Pow2(b)
  {
    if a < b { Pow2Monotone(a, b - 1); }
  }

  /** __builtin_ffs(word) - 1 for a word that is not zero: the least significant set bit. */
  function Ffs(w: nat): (i: nat)
    requires 0 < w
    ensures Bit(w, i)
    ensures forall j :: 0 <= j < i ==> !Bit(w, j)
  {
    if w % 2 == 1 then 0
    else
      var k := Ffs(w / 2);
      assert forall j :: 0 <= j < k + 1 ==> !Bit(w, j) by {
        forall j | 0 <= j < k + 1 ensures !Bit(w, j) {
          if j > 0 { assert !Bit(w / 2, j - 1); }
        }
      }
      k + 1
  }

  lemma FfsOfWord(w: nat)
    requires 0 < w < WORD_MOD
    ensures Ffs(w) < 32
  {
    Pow2Of32();
    var k := SomeBit(w, 32);
  }

  // ---------- the portable implementations of fls and ffs ----------

  /** !(word & mask) for a mask of the n - k high bits asks whether word is below 2^k. */
  lemma {:induction false} AndHighMask(w: nat, n: nat, k: nat)
    requires k <= n && w < Pow2(n)
    ensures Pow2(k) <= Pow2(n)
    ensures And(w, Pow2(n) - Pow2(k)) == 0 <==> w < Pow2(k)
  {
    Pow2Monotone(k, n);
    if w != 0 && k < n {
      if k == 0 {
        AndOnes(w, n);
      } else {
        AndHighMask(w / 2, n - 1, k - 1);
        assert (Pow2(n) - Pow2(k)) / 2 == Pow2(n - 1) - Pow2(k - 1);
      }
    }
  }

  lemma {:induction false} AndOnes(w: nat, n: nat)
    requires w < Pow2(n)
    ensures And(w, Pow2(n) - 1) == w
  {
    if w != 0 {
      AndOnes(w / 2, n - 1);
      assert (Pow2(n) - 1) / 2 == Pow2(n - 1) - 1;
    }
  }

  lemma Log2OfDouble(w: nat)
    requires w > 0
    ensures Log2(2 * w) == Log2(w) + 1
  {
    assert 2 * w / 2 == w;
  }

  /** Shifting left while no set bit is lost raises the most significant bit by the shift. */
  lemma {:induction false} Log2OfShl(w: nat, s: nat, k: nat)
    requires s + k == 32 && 0 < w < Pow2(k)
    ensures w < WORD_MOD
    ensures Shl(w, s) > 0 && Log2(Shl(w, s)) == Log2(w) + s
    decreases s
  {
    Pow2Of32();
    Pow2Monotone(k, 32);
    if s > 0 {
      Pow2Monotone(k + 1, 32);
      Log2OfDouble(w);
      Log2OfShl(2 * w, s - 1, k + 1);
      assert 2 * w % WORD_MOD == 2 * w;
    }
  }

  lemma Log2AtLeast(w: nat, k: nat)
    requires w > 0
    ensures Pow2(k) <= w <==> k <= Log2(w)
  {
    Log2Bounds(w);
    if k <= Log2(w) {
      Pow2Monotone(k, Log2(w));
    } else {
      Pow2Monotone(Log2(w) + 1, k);
    }
  }

  /** One step of tlsf_fls_generic: if none of the top s bits is set, shift them out. */
  method FlsStep(word: nat, bit: int, s: nat, mask: nat, ghost k: nat) returns (word': nat, bit': int)
    requires 0 < word < WORD_MOD && s + k == 32
    requires mask == WORD_MOD - Pow2(k)
    ensures 0 < word' < WORD_MOD
    ensures Log2(word') + bit' == Log2(word) + bit
    ensures k - s <= Log2(word) ==> k <= Log2(word')
  {
    word', bit' := word, bit;
    Pow2Of32();
    AndHighMask(word, 32, k);
    Log2AtLeast(word, k);
    if And(word, mask) == 0 {
      Log2OfShl(word, s, k);
      word', bit' := Shl(word, s), bit - s;
    }
  }

  lemma HighMasks()
    ensures 0xffff_0000 == WORD_MOD - Pow2(16)
    ensures 0xff00_0000 == WORD_MOD - Pow2(24)
    ensures 0xf000_0000 == WORD_MOD - Pow2(28)
    ensures 0xc000_0000 == WORD_MOD - Pow2(30)
    ensures 0x8000_0000 == WORD_MOD - Pow2(31)
  {
    assert Pow2(8) == 256;
    assert Pow2(16) == 256 * Pow2(8);
    assert Pow2(24) == 256 * Pow2(16);
    assert Pow2(28) == 16 * Pow2(24);
    assert Pow2(30) == 4 * Pow2(28);
  }

  lemma Log2OfWord(word: nat)
    requires 0 < word < WORD_MOD
    ensures Log2(word) < 32
  {
    Pow2Of32();
    Log2AtLeast(word, 32);
  }

  /** tlsf_fls_generic: one more than the index of the most significant set bit; 0 for 0. */
  method FlsGeneric(word: nat) returns (bit: int)
    requires word < WORD_MOD
    ensures bit == if word == 0 then 0 else Log2(word) + 1
  {
    var w := word;
    bit := 32;
    if w == 0 {
      // every test of the cascade holds and every shift leaves zero
      bit := bit - 1 - 16 - 8 - 4 - 2 - 1;
      return;
    }
    HighMasks();
    w, bit := FlsStep(w, bit, 16, 0xffff_0000, 16);
    w, bit := FlsStep(w, bit, 8, 0xff00_0000, 24);
    w, bit := FlsStep(w, bit, 4, 0xf000_0000, 28);
    w, bit := FlsStep(w, bit, 2, 0xc000_0000, 30);
    w, bit := FlsStep(w, bit, 1, 0x8000_0000, 31);
    Log2OfWord(w);
  }

  /** word & (~word + 1) isolates the least significant set bit. */
  lemma {:induction false} LowestBit(w: nat, n: nat)
    requires 0 < w < Pow2(n)
    ensures And(w, Pow2(n) - w) == Pow2(Ffs(w))
  {
    var h := w / 2;
    if w % 2 == 1 {
      LowestOfOdd(w, h, n);
    } else {
      LowestBit(h, n - 1);
      LowestOfEven(w, h, Pow2(n - 1));
    }
  }

  lemma LowestOfOdd(w: nat, h: nat, n: nat)
    requires n > 0 && w == 2 * h + 1 && w < Pow2(n)
    ensures And(w, Pow2(n) - w) == 1
  {
    var p := Pow2(n - 1);
    AndComplement(h, n - 1);
    AndOdd(h, p - 1 - h);
  }

  lemma AndOdd(a: nat, b: nat)
    ensures And(2 * a + 1, 2 * b + 1) == 2 * And(a, b) + 1
  {
    assert (2 * a + 1) / 2 == a && (2 * b + 1) / 2 == b;
  }

  lemma LowestOfEven(w: nat, h: nat, p: nat)
    requires w == 2 * h && h <= p
    ensures And(w, 2 * p - w) == 2 * And(h, p - h)
  {
    AndEven(w, p - h);
  }

  lemma {:induction false} AndComplement(w: nat, n: nat)
    requires w < Pow2(n)
    ensures And(w, Pow2(n) - 1 - w) == 0
  {
    if w != 0 && Pow2(n) - 1 - w != 0 {
      AndComplement(w / 2, n - 1);
      assert (Pow2(n) - 1 - w) / 2 == Pow2(n - 1) - 1 - w / 2;
    }
  }

  lemma LowestIsolated(word: nat)
    requires word < WORD_MOD
    ensures var lowest := And(word, (Not(word) + 1) % WORD_MOD);
            if word == 0 then lowest == 0 else 0 < lowest < WORD_MOD && Log2(lowest) == Ffs(word)
  {
    if word != 0 {
      Pow2Of32();
      LowestBit(word, 32);
      Log2Unique(Pow2(Ffs(word)), Ffs(word));
    }
  }

  /** tlsf_ffs in terms of tlsf_fls_generic: -1 for 0, else the least significant set bit. */
  method FfsGeneric(word: nat) returns (i: int)
    requires word < WORD_MOD
    ensures i == if word == 0 then -1 else Ffs(word)
  {
    var lowest := And(word, (Not(word) + 1) % WORD_MOD);
    LowestIsolated(word);
    var bit := FlsGeneric(lowest);
    i := bit - 1;
  }

  /** The k low bits of y. */
  function LowBits(y: nat, k: nat): nat {
    if k == 0 then 0 else 2 * LowBits(y / 2, k - 1) + y % 2
  }

  lemma {:induction false} LowBitsIsRemainder(y: nat, k: nat)
    ensures LowBits(y, k) == y % Pow2(k)
  {
    if k == 0 {
      assert y % 1 == 0;
    } else {
      LowBitsIsRemainder(y / 2, k - 1);
      ModHalves(y, Pow2(k - 1));
    }
  }

  /** y & ~(2^k - 1) on an n-bit word clears the k low bits of y. */
  lemma {:induction false} AndClearsLowBits(y: nat, n: nat, k: nat)
    requires k <= n && y < Pow2(n)
    ensures Pow2(k) <= Pow2(n)
    ensures And(y, Pow2(n) - Pow2(k)) == y - LowBits(y, k)
  {
    Pow2Monotone(k, n);
    if k == 0 {
      AndOnes(y, n);
    } else {
      AndClearsLowBits(y / 2, n - 1, k - 1);
      AndEven(y, Pow2(n - 1) - Pow2(k - 1));
    }
  }

  lemma AndEven(a: nat, b: nat)
    ensures And(a, 2 * b) == 2 * And(a / 2, b)
  {
    var c := 2 * b;
    assert c / 2 == b && c % 2 == 0;
    if a == 0 || b == 0 {
    } else {
      assert And(a, c) == 2 * And(a / 2, c / 2);
    }
  }

  lemma {:induction false} Pow2Sum(a: nat, b: nat)
    ensures Pow2(a) * Pow2(b) == Pow2(a + b)
  {
    if a > 0 { Pow2Sum(a - 1, b); }
  }
}
