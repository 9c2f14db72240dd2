/**
 * Overflow-safe modular arithmetic on `size_t` words: powers of two, sums,
 * products and powers mod n, the value of a byte block mod n, the 128-bit
 * product of two words, and the odd/power-of-two decomposition of a word.
 * Each routine is proved against exact integer arithmetic.
 */
module UtilitiesMod {
  import opened Base

  /** x^k over the integers. */
  function Pow(x: nat, k: nat): nat
  {
    if k == 0 then 1 else x * Pow(x, k - 1)
  }

  /** The value of a byte block read in little-endian order (byte 0 is least significant). */
  function LeValue(s: seq<byte>): nat
  {
    if |s| == 0 then 0 else LeValue(s[..|s| - 1]) + s[|s| - 1] * Pow(256, |s| - 1)
  }

  /** x doubled i times, i.e. x * 2^i. */
  function Doubled(x: nat, i: nat): nat
  {
    if i == 0 then x else 2 * Doubled(x, i - 1)
  }

  /** pow_two: 1 << k. */
  function PowTwo(k: Word): (r: Word)
    requires k < WORD_BITS
    ensures r == Pow2(k)
  {
    Pow2Fits(k);
    ModSmall(Pow2(k), WORD);
    Shl(1, k)
  }

  /** sum_mod: (a + b) mod n without overflowing the word. */
  function SumMod(a: Word, b: Word, n: Word): (r: Word)
    requires n > 0
    ensures r == (a + b) % n
  {
    if n == 1 then 0
    else if a == 0 then b % n
    else if b == 0 then a % n
    else
      var a1: Word := if a >= n then a % n else a;
      var b1: Word := if b >= n then b % n else b;
      var rem := n - a1;
      ReducedSum(a, b, n, a1, b1);
      if rem <= b1 then b1 - rem else a1 + b1
  }

  /** (a + b) mod n is (a1 + b1) mod n for the reduced a1, b1, which is a1 + b1 or a1 + b1 - n. */
  lemma ReducedSum(a: nat, b: nat, n: nat, a1: nat, b1: nat)
    requires n > 0 && a1 == (if a >= n then a % n else a) && b1 == (if b >= n then b % n else b)
    ensures a1 < n && b1 < n
    ensures a1 + b1 >= n ==> (a + b) % n == a1 + b1 - n
    ensures a1 + b1 < n ==> (a + b) % n == a1 + b1
  {
    ModSmall(a, n);
    ModSmall(b, n);
    ModAdd(a, b, n);
    if a1 + b1 >= n {
      DivModUnique(a1 + b1, n, 1, a1 + b1 - n);
    } else {
      ModSmall(a1 + b1, n);
    }
  }

  /** A number below the modulus is its own remainder. */
  lemma ModSmall(x: nat, n: nat)
    requires n > 0
    ensures x < n ==> x % n == x
    ensures x % n < n
  {
    if x < n {
      DivModUnique(x, n, 0, x);
    }
  }

  /** Congruence is preserved by addition. */
  lemma ModCongAdd(x1: int, y1: int, x2: int, y2: int, n: int)
    requires n > 0 && x1 % n == y1 % n && x2 % n == y2 % n
    ensures (x1 + x2) % n == (y1 + y2) % n
  {
    ModAdd(x1, x2, n);
    ModAdd(y1, y2, n);
  }

  /** Congruence is preserved by multiplication. */
  lemma ModCongMul(x1: int, y1: int, x2: int, y2: int, n: int)
    requires n > 0 && x1 % n == y1 % n && x2 % n == y2 % n
    ensures (x1 * x2) % n == (y1 * y2) % n
  {
    ModMul(x1, x2, n);
    ModMul(y1, y2, n);
  }

  /** Adding y to a residue of x gives a residue of x + y. */
  lemma AddStep(v: nat, x: nat, y: nat, n: nat)
    requires n > 0 && v % n == x % n
    ensures ((v + y) % n) % n == (x + y) % n
  {
    ModMod(v + y, n);
    ModCongAdd(v, x, y, y, n);
  }

  /** Doubling a residue of Doubled(x, i) gives a residue of Doubled(x, i + 1). */
  lemma DoubleStep(v: nat, x: nat, i: nat, n: nat)
    requires n > 0 && v % n == Doubled(x, i) % n
    ensures ((v + v) % n) % n == Doubled(x, i + 1) % n
  {
    ModMod(v + v, n);
    ModCongAdd(v, Doubled(x, i), v, Doubled(x, i), n);
  }

  lemma {:induction false} DoubledIsScaled(x: nat, i: nat)
    ensures Doubled(x, i) == x * Pow2(i)
  {
    if i > 0 {
      DoubledIsScaled(x, i - 1);
    }
  }

  /** a * b == (ah * bh) * 2^64 + (ah * bl + al * bh) * 2^32 + al * bl for the word halves. */
  lemma ProductOfHalves(a: nat, b: nat, ah: nat, al: nat, bh: nat, bl: nat)
    requires a == ah * HALF + al && b == bh * HALF + bl
    ensures a * b == (ah * bh) * WORD + (ah * bl + al * bh) * HALF + al * bl
  {
    calc {
      a * b;
      (ah * HALF + al) * (bh * HALF + bl);
      (ah * HALF) * (bh * HALF) + (ah * HALF) * bl + al * (bh * HALF) + al * bl;
      { assert (ah * HALF) * (bh * HALF) == (ah * bh) * (HALF * HALF); }
      (ah * bh) * WORD + (ah * bl + al * bh) * HALF + al * bl;
    }
  }

  /** Both halves of a word lie below 2^32. */
  lemma HalfBounds(x: Word)
    ensures Low(x) < HALF && High(x) < HALF
  {
    HalfSplit(x);
  }

  /** The product of two half words, which cannot overflow. */
  function MulHalves(x: Word, y: Word): (r: Word)
    requires x < HALF && y < HALF
    ensures r == x * y
  {
    HalfProduct(x, y);
    x * y
  }

  /** The value reassembled by mul_mod from the half-word products equals a * b. */
  lemma MulModParts(a: Word, b: Word)
    ensures ((High(a) * High(b)) * HALF + High(a) * Low(b) + Low(a) * High(b)) * HALF + Low(a) * Low(b) == a * b
  {
    var al, bl, ah, bh := Low(a), Low(b), High(a), High(b);
    HalfSplit(a);
    HalfSplit(b);
    ProductOfHalves(a, b, ah, al, bh, bl);
    assert ((ah * bh) * HALF + ah * bl + al * bh) * HALF == (ah * bh) * (HALF * HALF) + (ah * bl + al * bh) * HALF;
  }

  /** mul_mod: (a * b) mod n without overflowing the word. */
  method MulMod(a: Word, b: Word, n: Word) returns (r: Word)
    requires n > 0
    ensures r == (a * b) % n
  {
    if n == 1 {
      assert (a * b) % n == 0 by {
        DivModUnique(a * b, 1, a * b, 0);
      }
      return 0;
    }
    if a == 0 || b == 0 {
      assert (a * b) % n == 0 by {
        assert a * b == 0;
        DivModUnique(0, n, 0, 0);
      }
      return 0;
    }
    // pow_two(HALF_BIT_COUNT) is the constant HALF
    if a < HALF && b < HALF {
      return MulHalves(a, b) % n;
    }
    var al, bl := Low(a), Low(b);
    var ah, bh := High(a), High(b);
    HalfBounds(a);
    HalfBounds(b);
    var ahBh := Redouble(MulHalves(ah, bh), n);
    ghost var d1 := (ah * bh) * HALF;
    ghost var mid := d1 + ah * bl + al * bh;
    var ahBl := MulHalves(ah, bl);
    var alBh := MulHalves(al, bh);
    assert ahBh % n == d1 % n by {
      ModMod(d1, n);
    }
    AddStep(ahBh, d1, ahBl, n);
    r := SumMod(ahBh, ahBl, n);
    AddStep(r, d1 + ah * bl, alBh, n);
    r := SumMod(r, alBh, n);
    ModMod(mid, n);
    var r1 := Redouble(r, n);
    assert r1 % n == (mid * HALF) % n by {
      ModMod(r * HALF, n);
      ModCongMul(r, mid, HALF, HALF, n);
    }
    var alBl := MulHalves(al, bl);
    AddStep(r1, mid * HALF, alBl, n);
    r := SumMod(r1, alBl, n);
    assert r == (mid * HALF + alBl) % n by {
      ModSmall(r, n);
    }
    assert mid * HALF + alBl == a * b by {
      MulModParts(a, b);
    }
  }

  /** The doubling loops of mul_mod: x is doubled mod n once per bit of a half word. */
  method Redouble(x: Word, n: Word) returns (r: Word)
    requires n > 0
    ensures r < n && r == (x * HALF) % n
  {
    r := x;
    for i: nat := 0 to HALF_BITS
      invariant r % n == Doubled(x, i) % n
      invariant i > 0 ==> r < n
    {
      DoubleStep(r, x, i, n);
      ModSmall(r + r, n);
      r := SumMod(r, r, n);
    }
    assert Doubled(x, HALF_BITS) == x * HALF by {
      DoubledIsScaled(x, HALF_BITS);
      Pow2Word();
    }
    ModSmall(r, n);
  }

  lemma {:induction false} PowAdd(x: nat, j: nat, k: nat)
    ensures Pow(x, j + k) == Pow(x, j) * Pow(x, k)
  {
    if j > 0 {
      PowAdd(x, j - 1, k);
      assert Pow(x, j + k) == x * Pow(x, (j - 1) + k);
      MulAssoc(x, Pow(x, j - 1), Pow(x, k));
    }
  }

  lemma {:induction false} PowSquare(x: nat, k: nat)
    ensures Pow(x, 2 * k) == Pow(x * x, k)
  {
    if k > 0 {
      PowSquare(x, k - 1);
      PowAdd(x, 2, 2 * (k - 1));
    }
  }

  /** Raising a residue to a power gives the residue of the power. */
  lemma {:induction false} PowModBase(x: nat, k: nat, n: nat)
    requires n > 0
    ensures Pow(x % n, k) % n == Pow(x, k) % n
  {
    if k > 0 {
      PowModBase(x, k - 1, n);
      ModMod(x, n);
      ModCongMul(x % n, x, Pow(x % n, k - 1), Pow(x, k - 1), n);
    }
  }

  /** One round of pow_mod keeps r * base^kShift congruent to the wanted power. */
  lemma PowModStep(r: nat, base: nat, kShift: nat, n: nat, r1: nat, sq: nat)
    requires n > 0 && r < n && kShift > 0
    requires r1 == (if kShift % 2 == 1 then (r * base) % n else r)
    requires sq == (base * base) % n
    ensures (r1 * Pow(sq, kShift / 2)) % n == (r * Pow(base, kShift)) % n
  {
    var half, odd := kShift / 2, kShift % 2;
    assert Pow(base, kShift) == Pow(base, odd) * Pow(base * base, half) by {
      PowSquare(base, half);
      PowAdd(base, odd, 2 * half);
    }
    assert r1 % n == (r * Pow(base, odd)) % n by {
      ModSmall(r, n);
      ModMod(r * base, n);
    }
    PowModBase(base * base, half, n);
    var p1, p2 := Pow(base, odd), Pow(base * base, half);
    ModCongMul(r1, r * p1, Pow(sq, half), p2, n);
    MulAssoc(r, p1, p2);
  }

  /** Products regroup. */
  lemma MulAssoc(x: int, y: int, z: int)
    ensures (x * y) * z == x * (y * z)
  {
  }

  /** pow_mod: a^k mod n by repeated squaring over the bits of k. */
  method PowMod(a: Word, k: Word, n: Word) returns (r: Word)
    requires n > 0
    ensures r == Pow(a, k) % n
  {
    var kShift := k;
    if n == 1 {
      return 0;
    }
    var base := a;
    r := 1;
    ModSmall(1, n);
    while kShift != 0
      invariant r < n
      invariant (r * Pow(base, kShift)) % n == Pow(a, k) % n
    {
      var r1 := r;
      if kShift % 2 == 1 {
        r1 := MulMod(r, base, n);
      }
      var sq := MulMod(base, base, n);
      PowModStep(r, base, kShift, n, r1, sq);
      ModSmall(r * base, n);
      r, base := r1, sq;
      assert Pow2(1) == 2;
      kShift := Shr(kShift, 1);
    }
    ModSmall(r, n);
  }

  /** One byte of mem_mod: the running residue and power of 256 advance together. */
  lemma MemModStep(s: seq<byte>, i: nat, n: nat, r: nat, ptwo: nat, prod: nat, inc: nat)
    requires n > 0 && i < |s|
    requires r == LeValue(s[..i]) % n && ptwo == Pow(256, i) % n
    requires prod == (ptwo * s[i]) % n && inc == 256 % n
    ensures (r + prod) % n == LeValue(s[..i + 1]) % n
    ensures (ptwo * inc) % n == Pow(256, i + 1) % n
  {
    assert s[..i + 1][..i] == s[..i];
    ModMod(Pow(256, i), n);
    ModMod(LeValue(s[..i]), n);
    ModCongMul(ptwo, Pow(256, i), s[i], s[i], n);
    ModMod(ptwo * s[i], n);
    ModCongAdd(r, LeValue(s[..i]), prod, s[i] * Pow(256, i), n);
    ModMul(Pow(256, i), 256, n);
  }

  /** mem_mod: the little-endian value of a byte block mod n. */
  method MemMod(s: seq<byte>, n: Word) returns (r: Word)
    requires n > 0
    ensures r == LeValue(s) % n
  {
    r := 0;
    if n == 1 {
      return 0;
    }
    var ptwo: Word := 1;
    var two8 := PowTwo(8);
    Pow2Word();
    var ptwoInc := two8 % n;
    ModSmall(1, n);
    for i := 0 to |s|
      invariant r == LeValue(s[..i]) % n
      invariant ptwo == Pow(256, i) % n
    {
      var prod := MulMod(ptwo, s[i], n);
      MemModStep(s, i, n, r, ptwo, prod, ptwoInc);
      r := SumMod(r, prod, n);
      ptwo := MulMod(ptwo, ptwoInc, n);
    }
    assert s[..|s|] == s;
  }

  /**
   * The overlap term shared by mul_mod_pow_two and mul_ext:
   * (bl * ah & LOW_MASK) + (al * bh & LOW_MASK) + (al * bl >> 32).
   */
  function Overlap(a: Word, b: Word): (r: Word)
    ensures r < 3 * HALF
  {
    HalfBounds(a);
    HalfBounds(b);
    HalfBounds(MulHalves(Low(a), Low(b)));
    Low(MulHalves(Low(b), High(a))) + Low(MulHalves(Low(a), High(b)))
      + High(MulHalves(Low(a), Low(b)))
  }

  /** The high word computed by mul_ext, before it is known to fit in a word. */
  function HighPart(a: Word, b: Word): nat
  {
    HalfBounds(a);
    HalfBounds(b);
    High(Overlap(a, b)) + MulHalves(High(a), High(b))
      + High(MulHalves(High(a), Low(b))) + High(MulHalves(Low(a), High(b)))
  }

  /** The product a * b splits into the high part and (overlap << 32) + (al * bl & LOW_MASK). */
  lemma ProductWords(a: Word, b: Word)
    ensures ShlHalf(Overlap(a, b)) + Low(Low(a) * Low(b)) < WORD
    ensures a * b == HighPart(a, b) * WORD + ShlHalf(Overlap(a, b)) + Low(Low(a) * Low(b))
  {
    var al, bl, ah, bh := Low(a), Low(b), High(a), High(b);
    HalfSplit(a);
    HalfSplit(b);
    Pow2Word();
    var x1, x2, x3 := bl * ah, al * bh, al * bl;
    var overlap := Overlap(a, b);
    assert overlap == x1 % HALF + x2 % HALF + x3 / HALF;
    ProductOfHalves(a, b, ah, al, bh, bl);
    assert x1 == (x1 / HALF) * HALF + x1 % HALF;
    assert x2 == (x2 / HALF) * HALF + x2 % HALF;
    assert x3 == (x3 / HALF) * HALF + x3 % HALF;
    assert overlap == (overlap / HALF) * HALF + overlap % HALF;
    assert overlap * HALF == (overlap / HALF) * WORD + (overlap % HALF) * HALF;
    assert (overlap % HALF) * HALF <= (HALF - 1) * HALF by {
      MulLe(overlap % HALF, HALF - 1, HALF);
    }
    DivModUnique(overlap * HALF, WORD, overlap / HALF, (overlap % HALF) * HALF);
    assert ShlHalf(overlap) == (overlap % HALF) * HALF;
    calc {
      a * b;
      (ah * bh) * WORD + (ah * bl + al * bh) * HALF + al * bl;
      { assert ah * bl == x1; }
      (ah * bh) * WORD + ((x1 / HALF) * HALF + x1 % HALF + (x2 / HALF) * HALF + x2 % HALF) * HALF
        + (x3 / HALF) * HALF + x3 % HALF;
      (ah * bh + x1 / HALF + x2 / HALF) * WORD + (x1 % HALF + x2 % HALF + x3 / HALF) * HALF + x3 % HALF;
      (ah * bh + x1 / HALF + x2 / HALF) * WORD + overlap * HALF + x3 % HALF;
      (ah * bh + x1 / HALF + x2 / HALF + overlap / HALF) * WORD + (overlap % HALF) * HALF + x3 % HALF;
    }
  }

  /** mul_mod_pow_two: a * b mod 2^64 computed from half-word products. */
  function MulModPowTwo(a: Word, b: Word): (r: Word)
    ensures r == (a * b) % WORD
  {
    HalfBounds(a);
    HalfBounds(b);
    var alBl := MulHalves(Low(a), Low(b));
    ProductWords(a, b);
    ModAddMultiple(ShlHalf(Overlap(a, b)) + Low(alBl), HighPart(a, b), WORD);
    ModSmall(ShlHalf(Overlap(a, b)) + Low(alBl), WORD);
    ShlHalf(Overlap(a, b)) + Low(alBl)
  }

  /** The high word of a product of two words is itself a word. */
  lemma HighBound(a: Word, b: Word, h: nat, l: nat)
    requires h * WORD + l == a * b
    ensures h < WORD
  {
    MulLe(a, WORD - 1, b);
    MulLe(b, WORD - 1, WORD - 1);
    if h >= WORD {
      MulLe(WORD, h, WORD);
    }
  }

  /** mul_ext: the high and low words of the full 128-bit product a * b. */
  function MulExt(a: Word, b: Word): (r: (Word, Word))
    ensures r.0 * WORD + r.1 == a * b
    ensures r.1 == MulModPowTwo(a, b)
  {
    HalfBounds(a);
    HalfBounds(b);
    var alBl := MulHalves(Low(a), Low(b));
    ProductWords(a, b);
    var l: Word := ShlHalf(Overlap(a, b)) + Low(alBl);
    HighBound(a, b, HighPart(a, b), l);
    (HighPart(a, b), l)
  }

  /** n * 2^c wraps to zero in a word exactly when 2^(64 - c) divides n. */
  lemma ShiftedZero(n: nat, c: nat)
    requires c <= WORD_BITS
    ensures (n * Pow2(c)) % WORD == 0 <==> n % Pow2(WORD_BITS - c) == 0
  {
    Pow2Add(c, WORD_BITS - c);
    Pow2Word();
    ScaledDivides(n, Pow2(c), Pow2(WORD_BITS - c));
  }

  /** One shift of represent_uint: shifting n * 2^c left once gives n * 2^(c + 1), wrapped. */
  lemma ShiftStep(n: Word, c: nat, shiftN: Word)
    requires c < WORD_BITS && shiftN == (n * Pow2(c)) % WORD
    ensures Shl(shiftN, 1) == (n * Pow2(c + 1)) % WORD
  {
    assert Pow2(1) == 2;
    ModMulLeft(n * Pow2(c), 2, WORD);
    assert n * Pow2(c) * 2 == n * Pow2(c + 1);
  }

  /** When the first c with n * 2^c wrapping to zero is found, n == (n >> (64 - c)) * 2^(64 - c) with an odd factor. */
  lemma RepresentEnd(n: Word, c: nat)
    requires 0 < n && 0 < c <= WORD_BITS
    requires (n * Pow2(c)) % WORD == 0 && (n * Pow2(c - 1)) % WORD != 0
    ensures n == Shr(n, WORD_BITS - c) * Pow2(WORD_BITS - c) && Shr(n, WORD_BITS - c) % 2 == 1
  {
    var k := WORD_BITS - c;
    var p := Pow2(k);
    var u := Shr(n, k);
    ShiftedZero(n, c);
    ShiftedZero(n, c - 1);
    assert n % p == 0 && n % (2 * p) != 0;
    OddCofactor(n, p, u);
  }

  /** If p divides n but 2 * p does not, n is n / p times p and n / p is odd. */
  lemma OddCofactor(n: nat, p: nat, u: nat)
    requires p > 0 && u == n / p && n % p == 0 && n % (2 * p) != 0
    ensures n == u * p && u % 2 == 1
  {
    assert n == u * p;
    HalveFactor(u, p);
  }

  /** A multiple u * p of p leaves remainder (u mod 2) * p on division by 2 * p. */
  lemma HalveFactor(u: nat, p: nat)
    requires p > 0
    ensures (u * p) % (2 * p) == (u % 2) * p
  {
    var q, r := u / 2, u % 2;
    assert u * p == (2 * q + r) * p;
    assert (2 * q + r) * p == q * (2 * p) + r * p;
    MulLe(r, 1, p);
    DivModUnique(u * p, 2 * p, q, r * p);
  }

  /** represent_uint: n == u * 2^k with u odd; n == 0 gives k == 64 and u == 0. */
  method RepresentUint(n: Word) returns (k: Word, u: Word)
    ensures n > 0 ==> k < WORD_BITS && u % 2 == 1 && n == u * Pow2(k)
    ensures n == 0 ==> k == WORD_BITS && u == 0
  {
    var c: Word := 0;
    var shiftN := n;
    ModSmall(n, WORD);
    while shiftN != 0
      invariant c <= WORD_BITS
      invariant shiftN == (n * Pow2(c)) % WORD
      invariant c > 0 ==> (n * Pow2(c - 1)) % WORD != 0
      decreases WORD_BITS - c
    {
      if c == WORD_BITS {
        ShiftedZero(n, c);
        assert false;
      }
      ShiftStep(n, c, shiftN);
      c := c + 1;
      shiftN := Shl(shiftN, 1);
    }
    k := WORD_BITS - c;
    u := Shr(n, k);
    if n == 0 {
      Pow2Word();
      DivModUnique(0, WORD, 0, 0);
    } else {
      RepresentEnd(n, c);
    }
  }
}
