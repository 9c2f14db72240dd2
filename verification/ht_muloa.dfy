/**
 * A hash table with byte-block keys, multiplication-method hashing and open
 * addressing with double hashing. The slot count is 2^logCount. A key's two
 * hash values are its reduced key times two fixed primes, mod 2^64; the top
 * logCount bits of the first give the home slot, those of the second the
 * probe step, made odd so that the probe sequence visits every slot.
 * Removed entries leave a shared placeholder (first hash value 1) behind, so
 * that later probe sequences still run past their slot.
 *
 * The abstract state is the ghost map `M` from keys to elements, with the
 * ghost map `Pn` giving the probe number (0-based) at which each key is
 * stored.
 */
module HtMuloa {
  import opened Base
  import opened UtilitiesMod

  type Key = seq<byte>

  const LOG_COUNT_MIN: nat := 8
  const LOG_COUNT_MAX: nat := 63

  /**
   * The two primes find_build_prime assembles from the last four 16-bit
   * parts of its tables on a 64-bit size_t: 2^63 < FPRIME, SPRIME < 2^64.
   */
  const FPRIME: Word := 0xdad8_6dbe_4c70_8969
  const SPRIME: Word := 0xbd8f_5cb7_33a5_d047

  /** The first hash value of the placeholder, which no stored entry has. */
  const PH_FVAL: Word := 1

  /**
   * A slot: NULL, the shared placeholder, or a stored entry holding its
   * hash values, its key and its element.
   */
  datatype Slot<E> = Null | Ph | Live(fval: Word, sval: Word, key: Key, elt: E)

  /** The first hash value a slot's entry carries. */
  function FvalOf<E>(s: Slot<E>): Word
    requires s != Null
  {
    if s.Ph? then PH_FVAL else s.fval
  }

  /** is_ph: the placeholder is recognised by its first hash value. */
  predicate IsPh<E>(s: Slot<E>)
    requires s != Null
  {
    FvalOf(s) == PH_FVAL
  }

  /** The slot holds an entry for key: it is neither NULL nor marked as the placeholder, and its key matches. */
  predicate Holds<E>(s: Slot<E>, key: Key)
  {
    s.Live? && !IsPh(s) && s.key == key
  }

  // ---------------------------------------------------------------------
  // Reducing a key to a word

  /** The value of a byte block read in big-endian order (byte 0 most significant). */
  function BeValue(s: seq<byte>): nat
  {
    if s == [] then 0 else BeValue(s[..|s| - 1]) * 256 + s[|s| - 1]
  }

  /** The sum of the first n words after `rem` leading bytes of a key, each read little-endian. */
  function WordSum(key: Key, rem: nat, n: nat): nat
    requires rem + 8 * n <= |key|
  {
    if n == 0 then 0 else WordSum(key, rem, n - 1) + LeValue(key[rem + 8 * (n - 1)..rem + 8 * n])
  }

  /**
   * The default reduction of a key longer than a word: the |key| % 8
   * leading bytes, as a big-endian number shifted up by one byte, plus the
   * sum of the key's remaining words, all mod 2^64.
   */
  function RdcKey(key: Key): Word
  {
    var rem := |key| % 8;
    (BeValue(key[..rem]) * 256 + WordSum(key, rem, |key| / 8)) % WORD
  }

  /** The standard key that is hashed: a short key's own little-endian value, else the reduced key. */
  function StdKey(key: Key): nat
  {
    if |key| <= 8 then LeValue(key) else RdcKey(key)
  }

  /** The first and second hash values: the standard key times a prime, mod 2^64. */
  function FVal(key: Key): Word
  {
    (FPRIME * StdKey(key)) % WORD
  }

  function SVal(key: Key): Word
  {
    (SPRIME * StdKey(key)) % WORD
  }

  /** One step of rdc_key_def's first loop: add a byte, then shift left by a byte. */
  lemma RemStep(std: nat, b: nat, c: byte)
    requires std == (b * 256) % WORD
    ensures (((std + c) % WORD) * 256) % WORD == ((b * 256 + c) * 256) % WORD
  {
    ModMod(b * 256, WORD);
    ModCongAdd(std, b * 256, c, c, WORD);
    ModMod(std + c, WORD);
    ModCongMul((std + c) % WORD, b * 256 + c, 256, 256, WORD);
  }

  /** One step of rdc_key_def's second loop: add a word, mod 2^64. */
  lemma WordStep(std: nat, x: nat, w: nat)
    requires std == x % WORD
    ensures (std + w) % WORD == (x + w) % WORD
  {
    ModMod(x, WORD);
    ModCongAdd(std, x, w, w, WORD);
  }

  /**
   * rdc_key_def: adds the leading |key| % 8 bytes one at a time, shifting
   * left by a byte after each, then adds the key's words; all in size_t
   * arithmetic.
   */
  method RdcKeyDef(key: Key) returns (stdKey: Word)
    ensures stdKey == RdcKey(key)
  {
    var szCount := |key| / 8;
    var remCount := |key| - szCount * 8;
    assert remCount == |key| % 8 && remCount + 8 * szCount == |key|;
    stdKey := ShiftInBytes(key, remCount);
    stdKey := AddWords(key, remCount, szCount, stdKey, BeValue(key[..remCount]) * 256);
  }

  /** The first loop of rdc_key_def, over the n leading bytes. */
  method ShiftInBytes(key: Key, n: nat) returns (stdKey: Word)
    requires n <= |key|
    ensures stdKey == (BeValue(key[..n]) * 256) % WORD
  {
    stdKey := 0;
    for i := 0 to n
      invariant stdKey == (BeValue(key[..i]) * 256) % WORD
    {
      assert key[..i + 1][..i] == key[..i];
      RemStep(stdKey, BeValue(key[..i]), key[i]);
      stdKey := (stdKey + key[i]) % WORD;
      stdKey := (stdKey * 256) % WORD;
    }
  }

  /** The second loop of rdc_key_def: adds the n words that follow the rem leading bytes to x. */
  method AddWords(key: Key, rem: nat, n: nat, stdKey0: Word, ghost x: nat) returns (stdKey: Word)
    requires rem + 8 * n <= |key| && stdKey0 == x % WORD
    ensures stdKey == (x + WordSum(key, rem, n)) % WORD
  {
    stdKey := stdKey0;
    for i := 0 to n
      invariant stdKey == (x + WordSum(key, rem, i)) % WORD
    {
      var w := LeValue(key[rem + 8 * i..rem + 8 * i + 8]);
      var next := (stdKey + w) % WORD;
      WordSumStep(key, rem, i, x, stdKey, next);
      stdKey := next;
    }
  }

  /** Adding word i of the key to the running sum, both taken mod 2^64. */
  lemma WordSumStep(key: Key, rem: nat, i: nat, x: nat, stdKey: nat, next: nat)
    requires rem + 8 * (i + 1) <= |key| && stdKey == (x + WordSum(key, rem, i)) % WORD
    requires next == (stdKey + LeValue(key[rem + 8 * i..rem + 8 * i + 8])) % WORD
    ensures next == (x + WordSum(key, rem, i + 1)) % WORD
  {
    var w := LeValue(key[rem + 8 * i..rem + 8 * i + 8]);
    assert WordSum(key, rem, i + 1) == WordSum(key, rem, i) + w;
    WordStep(stdKey, x + WordSum(key, rem, i), w);
  }

  /** convert_std_key without a user reduction: a short key is copied into a zeroed word. */
  method ConvertStdKey(key: Key) returns (stdKey: nat)
    ensures stdKey == StdKey(key)
  {
    if |key| <= 8 {
      stdKey := LeValue(key);
    } else {
      stdKey := RdcKeyDef(key);
    }
  }

  // ---------------------------------------------------------------------
  // Slots and probe sequences

  /** v >> (64 - lc): the top lc bits of a hash value. */
  function Top(v: Word, lc: nat): (r: Word)
    requires 1 <= lc <= LOG_COUNT_MAX
    ensures r < Pow2(lc)
  {
    TopBound(v, lc);
    DivLe(v, Pow2(WORD_BITS - lc));
    v / Pow2(WORD_BITS - lc)
  }

  lemma TopBound(v: Word, lc: nat)
    requires 1 <= lc <= LOG_COUNT_MAX
    ensures v / Pow2(WORD_BITS - lc) < Pow2(lc)
  {
    var a, b := Pow2(lc), Pow2(WORD_BITS - lc);
    Pow2Add(lc, WORD_BITS - lc);
    Pow2Word();
    assert a * b == WORD;
    DivBelow(v, a, b);
  }

  /** x < a * b implies x / b < a. */
  lemma DivBelow(x: nat, a: nat, b: nat)
    requires b > 0 && x < a * b
    ensures x / b < a
  {
    var q := x / b;
    assert q * b <= x;
    if q >= a {
      MulLe(a, q, b);
    }
  }

  /** adjust_dist: an even step is made odd, 0 becoming 1 and any other even value one less. */
  function AdjustDist(dist: Word): (r: Word)
    ensures r % 2 == 1
    ensures dist == 0 ==> r == 1
    ensures dist > 0 ==> dist - 1 <= r <= dist
  {
    if dist % 2 == 0 then (if dist == 0 then 1 else dist - 1) else dist
  }

  /**
   * The slot of the j-th probe (from 0) for the hash values fval and sval in
   * a table of 2^lc slots: the home slot plus j odd steps, mod 2^lc.
   */
  function ProbeAt(fval: Word, sval: Word, lc: nat, j: nat): (ix: nat)
    requires 1 <= lc <= LOG_COUNT_MAX
    ensures ix < Pow2(lc)
  {
    (Top(fval, lc) + j * AdjustDist(Top(sval, lc))) % Pow2(lc)
  }

  /** The j-th probe of a key. */
  function KeyProbe(key: Key, lc: nat, j: nat): (ix: nat)
    requires 1 <= lc <= LOG_COUNT_MAX
    ensures ix < Pow2(lc)
  {
    ProbeAt(FVal(key), SVal(key), lc, j)
  }

  /** fval - (fval & 1): the first hash value with its lowest bit cleared. */
  function ClearLow(fval: Word): (r: Word)
    ensures r % 2 == 0 && r != PH_FVAL
    ensures r <= fval && fval - r <= 1
  {
    fval - fval % 2
  }

  /** Clearing the lowest bit does not change the top bits used for the home slot. */
  lemma TopClearLow(fval: Word, lc: nat)
    requires 1 <= lc <= LOG_COUNT_MAX
    ensures Top(ClearLow(fval), lc) == Top(fval, lc)
  {
    var h := Pow2(WORD_BITS - lc - 1);
    assert Pow2(WORD_BITS - lc) == 2 * h;
    EvenQuot(fval, h);
  }

  /** Clearing the lowest bit of v does not change its quotient by an even divisor 2 * h. */
  lemma EvenQuot(v: nat, h: nat)
    requires h > 0
    ensures (v - v % 2) / (2 * h) == v / (2 * h)
  {
    var p := 2 * h;
    var q, r := v / p, v % p;
    var x := q * h;
    assert v == r + x * 2 by {
      assert q * p == x * 2;
    }
    assert v % 2 == r % 2 by {
      ModAddMultiple(r, x, 2);
    }
    assert v - v % 2 == q * p + (r - r % 2);
    DivModUnique(v - v % 2, p, q, r - r % 2);
  }

  /** A probe sequence started from a stored entry's hash values is the key's own. */
  lemma StoredProbe(key: Key, lc: nat, j: nat)
    requires 1 <= lc <= LOG_COUNT_MAX
    ensures ProbeAt(ClearLow(FVal(key)), SVal(key), lc, j) == KeyProbe(key, lc, j)
  {
    TopClearLow(FVal(key), lc);
  }

  /** Adding one more step d < n to a residue of h + j * d mod n gives the residue of h + (j + 1) * d. */
  lemma StepResidue(h: nat, d: nat, j: nat, n: nat)
    requires 0 < n && d < n
    ensures (d + (h + j * d) % n) % n == (h + (j + 1) * d) % n
  {
    var a := h + j * d;
    ModSmall(d, n);
    ModMod(a, n);
    ModCongAdd(d, d, a % n, a, n);
    assert h + (j + 1) * d == d + a;
  }

  /** The first probe is the top bits of the first hash value. */
  lemma ProbeFirst(fval: Word, sval: Word, lc: nat)
    requires 1 <= lc <= LOG_COUNT_MAX
    ensures ProbeAt(fval, sval, lc, 0) == Top(fval, lc)
  {
    ModSmall(Top(fval, lc), Pow2(lc));
  }

  /** sum_mod(dist, ix, count) moves from one probe to the next. */
  lemma ProbeNext(fval: Word, sval: Word, lc: nat, j: nat, dist: nat, ix: nat, n: nat)
    requires 1 <= lc <= LOG_COUNT_MAX && n == Pow2(lc)
    requires dist == AdjustDist(Top(sval, lc)) && ix == ProbeAt(fval, sval, lc, j)
    ensures (dist + ix) % n == ProbeAt(fval, sval, lc, j + 1)
  {
    var h, d := Top(fval, lc), Top(sval, lc);
    assert n == 2 * Pow2(lc - 1);
    assert dist < n by {
      assert d < n;
    }
    assert ix == (h + j * dist) % n;
    StepResidue(h, dist, j, n);
  }

  /** The product of two odd numbers is odd. */
  lemma OddProduct(x: nat, d: nat)
    requires x % 2 == 1 && d % 2 == 1
    ensures (x * d) % 2 == 1
  {
    var a, b := x / 2, d / 2;
    assert x == 2 * a + 1 && d == 2 * b + 1;
    assert x * d == 2 * (2 * a * b + a + b) + 1;
    DivModUnique(x * d, 2, 2 * a * b + a + b, 1);
  }

  /** An odd factor does not help a product be divisible by a power of two. */
  lemma {:induction false} OddFactor(k: nat, x: nat, d: nat, m: nat)
    requires d % 2 == 1 && x * d == m * Pow2(k)
    ensures x % Pow2(k) == 0
  {
    if k == 0 {
      DivModUnique(x, 1, x, 0);
    } else {
      var p := Pow2(k - 1);
      assert Pow2(k) == 2 * p;
      HalveEven(x, d, m * p);
      OddFactor(k - 1, x / 2, d, m);
      DoubleMultiple(x / 2, p);
    }
  }

  /** If x * d is 2 * z with d odd, x is even and (x / 2) * d == z. */
  lemma HalveEven(x: nat, d: nat, z: nat)
    requires d % 2 == 1 && x * d == 2 * z
    ensures x % 2 == 0 && (x / 2) * d == z
  {
    DivModUnique(x * d, 2, z, 0);
    if x % 2 == 1 {
      OddProduct(x, d);
    }
    var y := x / 2;
    assert x == 2 * y;
    assert (y * d) * 2 == z * 2;
    CancelFactor(y * d, z, 2);
  }

  /** If p divides y, 2 * p divides 2 * y. */
  lemma DoubleMultiple(y: nat, p: nat)
    requires p > 0 && y % p == 0
    ensures (2 * y) % (2 * p) == 0
  {
    var t := y / p;
    assert y == t * p;
    assert 2 * y == t * (2 * p);
    DivModUnique(2 * y, 2 * p, t, 0);
  }

  /** Two residues mod n that agree differ by a multiple of n. */
  lemma SameResidue(a: nat, x: nat, n: nat)
    requires n > 0 && (a + x) % n == a % n
    ensures x % n == 0
  {
    ModAdd(a, x, n);
    ModSmall(a, n);
    ModSmall(x, n);
    var s := a % n + x % n;
    if s >= n {
      DivModUnique(s, n, 1, s - n);
    } else {
      DivModUnique(s, n, 0, s);
    }
  }

  /** Adding up to n - 1 further odd steps never returns to the same residue mod n = 2^k. */
  lemma DistinctSteps(h: nat, d: nat, k: nat, i: nat, j: nat)
    requires d % 2 == 1 && i < j < Pow2(k)
    ensures (h + i * d) % Pow2(k) != (h + j * d) % Pow2(k)
  {
    var n := Pow2(k);
    var x := (j - i) * d;
    if (h + i * d) % n == (h + j * d) % n {
      assert h + j * d == (h + i * d) + x;
      SameResidue(h + i * d, x, n);
      assert x == (x / n) * n;
      OddFactor(k, j - i, d, x / n);
      ModSmall(j - i, n);
    }
  }

  /** An odd step visits 2^lc different slots in its first 2^lc probes. */
  lemma ProbesDistinct(fval: Word, sval: Word, lc: nat, i: nat, j: nat)
    requires 1 <= lc <= LOG_COUNT_MAX && i < j < Pow2(lc)
    ensures ProbeAt(fval, sval, lc, i) != ProbeAt(fval, sval, lc, j)
  {
    DistinctSteps(Top(fval, lc), AdjustDist(Top(sval, lc)), lc, i, j);
  }

  /** The slots of the first n probes. */
  ghost function ProbeSet(fval: Word, sval: Word, lc: nat, n: nat): set<nat>
    requires 1 <= lc <= LOG_COUNT_MAX
  {
    set j | 0 <= j < n :: ProbeAt(fval, sval, lc, j)
  }

  lemma {:induction false} ProbeSetSize(fval: Word, sval: Word, lc: nat, n: nat)
    requires 1 <= lc <= LOG_COUNT_MAX && n <= Pow2(lc)
    ensures |ProbeSet(fval, sval, lc, n)| == n
  {
    if n > 0 {
      ProbeSetSize(fval, sval, lc, n - 1);
      var p := ProbeAt(fval, sval, lc, n - 1);
      forall j | 0 <= j < n - 1
        ensures ProbeAt(fval, sval, lc, j) != p
      {
        ProbesDistinct(fval, sval, lc, j, n - 1);
      }
      assert ProbeSet(fval, sval, lc, n) == ProbeSet(fval, sval, lc, n - 1) + {p};
    }
  }

  lemma {:induction false} SubsetSize<T>(a: set<T>, b: set<T>)
    requires a <= b
    ensures |a| <= |b|
  {
    if a != {} {
      var x :| x in a;
      SubsetSize(a - {x}, b - {x});
    }
  }

  /** The indices of the occupied (non-NULL) slots. */
  ghost function Occupied<E>(t: seq<Slot<E>>): set<nat>
  {
    set i | 0 <= i < |t| && t[i] != Null
  }

  /** No more slots are occupied than there are. */
  lemma {:induction false} OccupiedSize<E>(t: seq<Slot<E>>)
    ensures |Occupied(t)| <= |t|
  {
    if t != [] {
      var u := t[..|t| - 1];
      OccupiedSize(u);
      if t[|t| - 1] == Null {
        assert Occupied(t) == Occupied(u);
      } else {
        assert Occupied(t) == Occupied(u) + {|t| - 1};
      }
    }
  }

  /** Overwriting an occupied slot with an occupied one keeps the occupied set. */
  lemma OccupiedSame<E>(t: seq<Slot<E>>, i: nat, s: Slot<E>)
    requires i < |t| && t[i] != Null && s != Null
    ensures Occupied(t[i := s]) == Occupied(t)
  {
    assert forall x :: x in Occupied(t[i := s]) <==> x in Occupied(t);
  }

  /** Filling a NULL slot occupies it. */
  lemma OccupiedFill<E>(t: seq<Slot<E>>, i: nat, s: Slot<E>)
    requires i < |t| && t[i] == Null && s != Null
    ensures i !in Occupied(t) && Occupied(t[i := s]) == Occupied(t) + {i}
  {
    assert forall x :: x in Occupied(t[i := s]) <==> x in Occupied(t) + {i};
  }

  /** A probe sequence whose first n slots are occupied has at least n occupied slots to run through. */
  lemma ProbesOccupied<E>(t: seq<Slot<E>>, fval: Word, sval: Word, lc: nat, n: nat)
    requires 1 <= lc <= LOG_COUNT_MAX && |t| == Pow2(lc) && n <= Pow2(lc)
    requires forall j :: 0 <= j < n ==> t[ProbeAt(fval, sval, lc, j)] != Null
    ensures n <= |Occupied(t)|
  {
    ProbeSetSize(fval, sval, lc, n);
    SubsetSize(ProbeSet(fval, sval, lc, n), Occupied(t));
  }

  // ---------------------------------------------------------------------
  // Load factor

  /**
   * mul_alpha: n * alphaN / 2^logAlphaD from the 128-bit product, as the low
   * word shifted right plus the high word shifted left by 64 - logAlphaD.
   */
  function MulAlpha(n: Word, alphaN: Word, logAlphaD: nat): Word
    requires logAlphaD < WORD_BITS
  {
    var hl := MulExt(n, alphaN);
    // (l >> logAlphaD) + (h << (64 - logAlphaD)), in size_t arithmetic
    (hl.1 / Pow2(logAlphaD) + (hl.0 * Pow2(WORD_BITS - logAlphaD)) % WORD) % WORD
  }

  /**
   * Dividing a two-word number h * w + l (w = p * q) by p: the quotient mod w
   * is the low word divided by p plus the high word times q, mod w.
   */
  lemma SplitQuotient(x: nat, h: nat, l: nat, p: nat, q: nat, w: nat)
    requires p > 0 && q > 0 && w == p * q && l < w && x == h * w + l
    ensures (x / p) % w == (l / p + (h * q) % w) % w
  {
    var lq, lr := l / p, l % p;
    assert h * w == (h * q) * p;
    assert h * w + l == (h * q + lq) * p + lr;
    DivModUnique(h * w + l, p, h * q + lq, lr);
    DivLe(l, p);
    ModSmall(lq, w);
    ModAdd(h * q, lq, w);
  }

  /** mul_alpha is the exact quotient n * alphaN / 2^logAlphaD, mod 2^64. */
  lemma MulAlphaExact(n: Word, alphaN: Word, logAlphaD: nat)
    requires logAlphaD < WORD_BITS
    ensures MulAlpha(n, alphaN, logAlphaD) == ((n * alphaN) / Pow2(logAlphaD)) % WORD
  {
    var hl := MulExt(n, alphaN);
    var p, q := Pow2(logAlphaD), Pow2(WORD_BITS - logAlphaD);
    WordSplit(logAlphaD);
    SplitQuotient(n * alphaN, hl.0, hl.1, p, q, WORD);
  }

  /** A product with a factor of at most 1 fits in the low word. */
  lemma UnitProduct(n: Word, alphaN: Word)
    requires alphaN <= 1
    ensures MulExt(n, alphaN) == (0, n * alphaN)
  {
    var hl := MulExt(n, alphaN);
    var x := if alphaN == 0 then 0 else n;
    assert n * alphaN == x;
    HighZero(hl.0, hl.1, x);
  }

  /** A two-word number below 2^64 has a zero high word. */
  lemma HighZero(h: nat, l: nat, x: nat)
    requires h * WORD + l == x < WORD
    ensures h == 0
  {
  }

  /**
   * With logAlphaD = 0 a load factor of at most 1 leaves the high word of
   * n * alphaN at 0, so the shift by 64 adds nothing however it is read.
   */
  lemma MulAlphaUnitFactor(n: Word, alphaN: Word)
    requires alphaN <= 1
    ensures MulExt(n, alphaN).0 == 0 && MulAlpha(n, alphaN, 0) == n * alphaN
  {
    UnitProduct(n, alphaN);
    var q := Pow2(WORD_BITS);
    assert 0 * q == 0;
    assert MulAlpha(n, alphaN, 0) == (n * alphaN / Pow2(0) + (0 * q) % WORD) % WORD;
  }

  /** 2^64 = 2^k * 2^(64 - k). */
  lemma WordSplit(k: nat)
    requires k <= WORD_BITS
    ensures WORD == Pow2(k) * Pow2(WORD_BITS - k)
  {
    Pow2Add(k, WORD_BITS - k);
    Pow2Word();
  }

  /** Scaling c by a / p with a <= p gives at most c, and less than c when a < p. */
  lemma ScaleDown(c: nat, a: nat, p: nat)
    requires c > 0 && 0 < p && a <= p
    ensures 0 <= (c * a) / p <= c
    ensures a == p ==> (c * a) / p == c
    ensures a < p ==> (c * a) / p < c
  {
    var x := (c * a) / p;
    assert x * p <= c * a;
    MulLe(a, p, c);
    assert a * c == c * a && p * c == c * p;
    if a == p {
      DivModUnique(c * a, p, c, 0);
    } else {
      MulLe(a, p - 1, c);
      assert (p - 1) * c == c * p - c;
      DivBelow(c * a, c, p);
    }
    assert c * a <= c * p;
    assert (c + 1) * p == c * p + p;
    DivBelow(c * a, c + 1, p);
  }

  /** The largest count of occupied slots before growth: count * alpha, or count - 1 if that is count. */
  function MaxSum(count: Word, alphaN: Word, logAlphaD: nat): Word
    requires count > 0 && logAlphaD < WORD_BITS
  {
    var m := MulAlpha(count, alphaN, logAlphaD);
    if m == count then count - 1 else m
  }

  /**
   * With a load factor bound alpha = alphaN / 2^logAlphaD of at most 1,
   * max_sum is count * alpha rounded down, capped at count - 1; so
   * 0 <= max_sum < count.
   */
  lemma MaxSumBound(count: Word, alphaN: Word, logAlphaD: nat)
    requires count > 0 && logAlphaD < WORD_BITS && alphaN <= Pow2(logAlphaD)
    ensures MaxSum(count, alphaN, logAlphaD) ==
      if alphaN == Pow2(logAlphaD) then count - 1 else (count * alphaN) / Pow2(logAlphaD)
    ensures MaxSum(count, alphaN, logAlphaD) < count
  {
    var p := Pow2(logAlphaD);
    ScaleDown(count, alphaN, p);
    var x: nat := (count * alphaN) / p;
    var m := MulAlpha(count, alphaN, logAlphaD);
    assert m == x by {
      MulAlphaExact(count, alphaN, logAlphaD);
      ModSmall(x, WORD);
    }
    assert MaxSum(count, alphaN, logAlphaD) == if m == count then count - 1 else m;
  }

  /** max_sum for a table of 2^lc slots. */
  function MaxSumAt(lc: nat, alphaN: Word, logAlphaD: nat): Word
    requires 1 <= lc <= LOG_COUNT_MAX && logAlphaD < WORD_BITS
  {
    Pow2Fits(lc);
    MaxSum(Pow2(lc), alphaN, logAlphaD)
  }

  function Max(a: nat, b: nat): nat
  {
    if a < b then b else a
  }

  // ---------------------------------------------------------------------
  // The table invariant

  /** The entry a key is stored as: fval with its low bit cleared, sval, the key and its element. */
  function Entry<E>(key: Key, elt: E): Slot<E>
  {
    Live(ClearLow(FVal(key)), SVal(key), key, elt)
  }

  /** The first n probes of key's sequence all meet an occupied slot. */
  ghost predicate Reached<E>(t: seq<Slot<E>>, lc: nat, key: Key, n: nat)
    requires 1 <= lc <= LOG_COUNT_MAX && |t| == Pow2(lc)
  {
    forall j :: 0 <= j < n ==> t[KeyProbe(key, lc, j)] != Null
  }

  /**
   * The slots t of a table of 2^lc slots store the map m: each key's entry
   * sits at probe pn[key] < mnp of its sequence and every earlier probe of
   * the sequence meets an occupied slot; every entry is the one its key's
   * probe number points to.
   */
  ghost predicate TableOk<E>(t: seq<Slot<E>>, lc: nat, mnp: nat, m: map<Key, E>, pn: map<Key, nat>)
  {
    1 <= lc <= LOG_COUNT_MAX && |t| == Pow2(lc) && pn.Keys == m.Keys &&
    (forall k :: KeyOk(t, lc, mnp, m, pn, k)) && (forall i :: SlotOk(t, lc, pn, i))
  }

  /** A key of m has its entry at probe pn[k] < mnp of its sequence, every earlier probe meeting an occupied slot. */
  ghost predicate KeyOk<E>(t: seq<Slot<E>>, lc: nat, mnp: nat, m: map<Key, E>, pn: map<Key, nat>, k: Key)
  {
    1 <= lc <= LOG_COUNT_MAX && |t| == Pow2(lc) && k in m ==>
      k in pn && pn[k] < mnp && t[KeyProbe(k, lc, pn[k])] == Entry(k, m[k]) && Reached(t, lc, k, pn[k])
  }

  /** An entry in slot i is the one its key's probe number points to. */
  ghost predicate SlotOk<E>(t: seq<Slot<E>>, lc: nat, pn: map<Key, nat>, i: int)
  {
    1 <= lc <= LOG_COUNT_MAX && 0 <= i < |t| && t[i].Live? ==>
      t[i].key in pn && KeyProbe(t[i].key, lc, pn[t[i].key]) == i
  }

  /** A stored entry is its key's entry, so its first hash value is even and it is never taken for the placeholder. */
  lemma LiveEntry<E>(t: seq<Slot<E>>, lc: nat, mnp: nat, m: map<Key, E>, pn: map<Key, nat>, i: nat)
    requires TableOk(t, lc, mnp, m, pn) && i < |t| && t[i].Live?
    ensures t[i].key in m && KeyProbe(t[i].key, lc, pn[t[i].key]) == i
    ensures t[i] == Entry(t[i].key, m[t[i].key]) && !IsPh(t[i])
  {
    assert SlotOk(t, lc, pn, i);
    var k := t[i].key;
    assert KeyOk(t, lc, mnp, m, pn, k);
  }

  /**
   * The probes of a stored key meet its entry within the probe limit and
   * no NULL slot before it: so if the first n probes did not meet it, the
   * n-th probe is within the limit and its slot is not NULL.
   */
  lemma FirstHit<E>(t: seq<Slot<E>>, lc: nat, mnp: nat, m: map<Key, E>, pn: map<Key, nat>, key: Key, n: nat)
    requires TableOk(t, lc, mnp, m, pn) && key in m
    requires forall j :: 0 <= j < n ==> !Holds(t[KeyProbe(key, lc, j)], key)
    ensures n < mnp && t[KeyProbe(key, lc, n)] != Null
  {
    assert KeyOk(t, lc, mnp, m, pn, key);
    var p := pn[key];
    assert Holds(t[KeyProbe(key, lc, p)], key);
    assert n <= p;
  }

  /**
   * A probe sequence that met no entry for key in its first n probes, and
   * then either ran out of probes or met a NULL slot, shows key is absent.
   */
  lemma NotStored<E>(t: seq<Slot<E>>, lc: nat, mnp: nat, m: map<Key, E>, pn: map<Key, nat>, key: Key, n: nat)
    requires TableOk(t, lc, mnp, m, pn)
    requires forall j :: 0 <= j < n ==> !Holds(t[KeyProbe(key, lc, j)], key)
    requires n >= mnp || t[KeyProbe(key, lc, n)] == Null
    ensures key !in m
  {
    if key in m {
      FirstHit(t, lc, mnp, m, pn, key, n);
    }
  }

  /** A larger probe limit keeps a table well formed. */
  lemma MoreProbes<E>(t: seq<Slot<E>>, lc: nat, mnp: nat, m: map<Key, E>, pn: map<Key, nat>, mnp': nat)
    requires TableOk(t, lc, mnp, m, pn) && mnp <= mnp'
    ensures TableOk(t, lc, mnp', m, pn)
  {
    forall k
      ensures KeyOk(t, lc, mnp', m, pn, k)
    {
      assert KeyOk(t, lc, mnp, m, pn, k);
    }
  }

  /** An array of NULL slots stores the empty map. */
  lemma EmptyTable<E>(t: seq<Slot<E>>, lc: nat)
    requires 1 <= lc <= LOG_COUNT_MAX && |t| == Pow2(lc)
    requires forall i :: 0 <= i < |t| ==> t[i] == Null
    ensures TableOk(t, lc, 1, map[], map[]) && Occupied(t) == {}
  {
  }

  /** The size ht_muloa_init starts from: 2^8 slots and the max_sum for that count. */
  method InitialSize(alphaN: Word, logAlphaD: nat) returns (lc: nat, count: Word, maxSum: Word)
    requires logAlphaD < WORD_BITS
    ensures lc == LOG_COUNT_MIN && count == Pow2(lc) && maxSum == MaxSumAt(lc, alphaN, logAlphaD)
  {
    lc := LOG_COUNT_MIN;
    count := PowTwo(LOG_COUNT_MIN);
    maxSum := MaxSumAt(LOG_COUNT_MIN, alphaN, logAlphaD);
  }

  /** A fresh array of 2^lc NULL slots, which stores the empty map. */
  method NullSlots<E>(lc: nat, count: Word) returns (a: array<Slot<E>>)
    requires 1 <= lc <= LOG_COUNT_MAX && count == Pow2(lc)
    ensures fresh(a) && StoredIn(a[..], lc, count, 1, map[], map[], 0, 0)
  {
    a := new Slot<E>[count](_ => Null);
    EmptyTable(a[..], lc);
  }

  /** Filling or overwriting slots keeps every probe that met an occupied slot meeting one. */
  lemma ReachedKeep<E>(t: seq<Slot<E>>, t': seq<Slot<E>>, lc: nat, key: Key, n: nat)
    requires 1 <= lc <= LOG_COUNT_MAX && |t| == |t'| == Pow2(lc) && Reached(t, lc, key, n)
    requires forall i :: 0 <= i < |t| && t[i] != Null ==> t'[i] != Null
    ensures Reached(t', lc, key, n)
  {
  }

  /**
   * Writing a new key's entry into the NULL slot at probe j of its sequence,
   * every earlier probe meeting an occupied slot, stores the key with probe
   * number j and occupies one more slot.
   */
  lemma TablePlace<E>(t: seq<Slot<E>>, lc: nat, mnp: nat, m: map<Key, E>, pn: map<Key, nat>, key: Key, elt: E, j: nat)
    requires TableOk(t, lc, mnp, m, pn) && key !in m && j < mnp
    requires t[KeyProbe(key, lc, j)] == Null && Reached(t, lc, key, j)
    ensures TableOk(t[KeyProbe(key, lc, j) := Entry(key, elt)], lc, mnp, m[key := elt], pn[key := j])
    ensures Occupied(t[KeyProbe(key, lc, j) := Entry(key, elt)]) == Occupied(t) + {KeyProbe(key, lc, j)}
    ensures KeyProbe(key, lc, j) !in Occupied(t)
  {
    var ix := KeyProbe(key, lc, j);
    var t' := t[ix := Entry(key, elt)];
    var m', pn' := m[key := elt], pn[key := j];
    forall k
      ensures KeyOk(t', lc, mnp, m', pn', k)
    {
      if k in m' {
        if k == key {
          ReachedKeep(t, t', lc, k, j);
        } else {
          assert KeyOk(t, lc, mnp, m, pn, k);
          ReachedKeep(t, t', lc, k, pn[k]);
        }
      }
    }
    forall i
      ensures SlotOk(t', lc, pn', i)
    {
      if 0 <= i < |t'| && i != ix && t'[i].Live? {
        LiveEntry(t, lc, mnp, m, pn, i);
      }
    }
    OccupiedFill(t, ix, Entry(key, elt));
  }

  /** Replacing a stored key's element in place keeps its slot and probe number. */
  lemma TableSet<E>(t: seq<Slot<E>>, lc: nat, mnp: nat, m: map<Key, E>, pn: map<Key, nat>, key: Key, elt: E)
    requires TableOk(t, lc, mnp, m, pn) && key in m
    ensures TableOk(t[KeyProbe(key, lc, pn[key]) := Entry(key, elt)], lc, mnp, m[key := elt], pn)
    ensures Occupied(t[KeyProbe(key, lc, pn[key]) := Entry(key, elt)]) == Occupied(t)
  {
    assert KeyOk(t, lc, mnp, m, pn, key);
    var ix := KeyProbe(key, lc, pn[key]);
    var t' := t[ix := Entry(key, elt)];
    var m' := m[key := elt];
    forall k
      ensures KeyOk(t', lc, mnp, m', pn, k)
    {
      if k in m' {
        assert KeyOk(t, lc, mnp, m, pn, k);
        ReachedKeep(t, t', lc, k, pn[k]);
      }
    }
    forall i
      ensures SlotOk(t', lc, pn, i)
    {
      if 0 <= i < |t'| && i != ix && t'[i].Live? {
        LiveEntry(t, lc, mnp, m, pn, i);
      }
    }
    OccupiedSame(t, ix, Entry(key, elt));
  }

  /** Putting the placeholder in a stored key's slot removes the key and leaves the slot occupied. */
  lemma TableVacate<E>(t: seq<Slot<E>>, lc: nat, mnp: nat, m: map<Key, E>, pn: map<Key, nat>, key: Key)
    requires TableOk(t, lc, mnp, m, pn) && key in m
    ensures TableOk(t[KeyProbe(key, lc, pn[key]) := Ph], lc, mnp, m - {key}, pn - {key})
    ensures Occupied(t[KeyProbe(key, lc, pn[key]) := Ph]) == Occupied(t)
  {
    assert KeyOk(t, lc, mnp, m, pn, key);
    var ix := KeyProbe(key, lc, pn[key]);
    var t' := t[ix := Ph];
    var m', pn' := m - {key}, pn - {key};
    forall k
      ensures KeyOk(t', lc, mnp, m', pn', k)
    {
      if k in m' {
        assert KeyOk(t, lc, mnp, m, pn, k);
        ReachedKeep(t, t', lc, k, pn[k]);
      }
    }
    forall i
      ensures SlotOk(t', lc, pn', i)
    {
      if 0 <= i < |t'| && t'[i].Live? {
        LiveEntry(t, lc, mnp, m, pn, i);
      }
    }
    OccupiedSame(t, ix, Ph);
  }

  /**
   * The outcome of insert's probe loop on a well-formed table: a slot holding
   * the key is the key's entry, whose element is replaced; a NULL slot at
   * probe j means the key is absent, and its entry goes there with probe
   * number j. Either way max_num_probes becomes at least j + 1.
   */
  lemma PutEntry<E>(t: seq<Slot<E>>, lc: nat, mnp: nat, m: map<Key, E>, pn: map<Key, nat>,
                    key: Key, elt: E, found: bool, ix: nat, j: nat)
    requires TableOk(t, lc, mnp, m, pn)
    requires ix < |t| && ix == KeyProbe(key, lc, j)
    requires forall i :: 0 <= i < j ==> t[KeyProbe(key, lc, i)] != Null && !Holds(t[KeyProbe(key, lc, i)], key)
    requires found ==> Holds(t[ix], key)
    requires !found ==> t[ix] == Null
    ensures found <==> key in m
    ensures found ==> (t[ix] == Entry(key, m[key]) &&
                       TableOk(t[ix := Entry(key, elt)], lc, Max(mnp, j + 1), m[key := elt], pn) &&
                       Occupied(t[ix := Entry(key, elt)]) == Occupied(t))
    ensures !found ==> (TableOk(t[ix := Entry(key, elt)], lc, Max(mnp, j + 1), m[key := elt], pn[key := j]) &&
                        |Occupied(t[ix := Entry(key, elt)])| == |Occupied(t)| + 1)
  {
    var mnp' := Max(mnp, j + 1);
    MoreProbes(t, lc, mnp, m, pn, mnp');
    if found {
      LiveEntry(t, lc, mnp', m, pn, ix);
      TableSet(t, lc, mnp', m, pn, key, elt);
    } else {
      NotStored(t, lc, mnp', m, pn, key, j);
      TablePlace(t, lc, mnp', m, pn, key, elt, j);
    }
  }

  /** The first and second hash values of a key, as insert and search compute them. */
  method HashValues(key: Key) returns (fval: Word, sval: Word)
    ensures fval == FVal(key) && sval == SVal(key)
  {
    var stdKey := ConvertStdKey(key);
    fval := (FPRIME * stdKey) % WORD;
    sval := (SPRIME * stdKey) % WORD;
  }

  /**
   * The probe loop of search: follows the probe sequence of the hash values
   * through the slots of a, passing over placeholders and other keys, until
   * a NULL slot, a slot holding the key, or mnp probes.
   */
  method ProbeFor<E>(a: array<Slot<E>>, lc: nat, count: Word, mnp: nat, key: Key, fval: Word, sval: Word)
    returns (found: bool, ix: nat, ghost j: nat)
    requires 1 <= lc <= LOG_COUNT_MAX && count == Pow2(lc) && a.Length == count && 1 <= mnp
    ensures ix < a.Length
    ensures forall i :: 0 <= i < j ==> !Holds(a[ProbeAt(fval, sval, lc, i)], key)
    ensures found ==> j < mnp && ix == ProbeAt(fval, sval, lc, j) && Holds(a[ix], key)
    ensures !found ==> j >= mnp || a[ProbeAt(fval, sval, lc, j)] == Null
  {
    var dist := AdjustDist(Top(sval, lc));
    var numProbes := 1;
    ix := Top(fval, lc);
    ProbeFirst(fval, sval, lc);
    while a[ix] != Null
      invariant 1 <= numProbes <= mnp
      invariant ix == ProbeAt(fval, sval, lc, numProbes - 1)
      invariant forall i :: 0 <= i < numProbes - 1 ==> !Holds(a[ProbeAt(fval, sval, lc, i)], key)
      decreases mnp - numProbes
    {
      var s := a[ix];
      if Holds(s, key) {
        return true, ix, numProbes - 1;
      } else if numProbes == mnp {
        return false, ix, numProbes;
      }
      var next := SumMod(dist, ix, count);
      ProbeNext(fval, sval, lc, numProbes - 1, dist, ix, count);
      ix, numProbes := next, numProbes + 1;
    }
    j := numProbes - 1;
    found := false;
  }

  /**
   * The probe loop of insert: follows the probe sequence of the hash values
   * until a NULL slot or a slot holding the key. A free slot exists, so the
   * loop ends within count probes.
   */
  method ProbeInsert<E>(a: array<Slot<E>>, lc: nat, count: Word, key: Key, fval: Word, sval: Word)
    returns (found: bool, ix: nat, j: nat)
    requires 1 <= lc <= LOG_COUNT_MAX && count == Pow2(lc) && a.Length == count
    requires |Occupied(a[..])| < count
    ensures ix < a.Length && ix == ProbeAt(fval, sval, lc, j) && j < count
    ensures forall i :: 0 <= i < j ==> a[ProbeAt(fval, sval, lc, i)] != Null && !Holds(a[ProbeAt(fval, sval, lc, i)], key)
    ensures found ==> Holds(a[ix], key)
    ensures !found ==> a[ix] == Null
  {
    var dist := AdjustDist(Top(sval, lc));
    var numProbes := 1;
    ix := Top(fval, lc);
    ProbeFirst(fval, sval, lc);
    while a[ix] != Null
      invariant 1 <= numProbes <= count
      invariant ix == ProbeAt(fval, sval, lc, numProbes - 1)
      invariant forall i :: 0 <= i < numProbes - 1 ==>
                  a[ProbeAt(fval, sval, lc, i)] != Null && !Holds(a[ProbeAt(fval, sval, lc, i)], key)
      decreases count - numProbes
    {
      if Holds(a[ix], key) {
        return true, ix, numProbes - 1;
      }
      ProbesOccupied(a[..], fval, sval, lc, numProbes);
      var next := SumMod(dist, ix, count);
      ProbeNext(fval, sval, lc, numProbes - 1, dist, ix, count);
      ix, numProbes := next, numProbes + 1;
    }
    j := numProbes - 1;
    found := false;
  }

  /**
   * The probe loop of reinsert: follows the probe sequence of the hash values
   * until a NULL slot, which exists.
   */
  method ProbeNull<E>(a: array<Slot<E>>, lc: nat, count: Word, fval: Word, sval: Word)
    returns (ix: nat, j: nat)
    requires 1 <= lc <= LOG_COUNT_MAX && count == Pow2(lc) && a.Length == count
    requires |Occupied(a[..])| < count
    ensures ix < a.Length && ix == ProbeAt(fval, sval, lc, j) && j < count && a[ix] == Null
    ensures forall i :: 0 <= i < j ==> a[ProbeAt(fval, sval, lc, i)] != Null
  {
    var dist := AdjustDist(Top(sval, lc));
    var numProbes := 1;
    ix := Top(fval, lc);
    ProbeFirst(fval, sval, lc);
    while a[ix] != Null
      invariant 1 <= numProbes <= count
      invariant ix == ProbeAt(fval, sval, lc, numProbes - 1)
      invariant forall i :: 0 <= i < numProbes - 1 ==> a[ProbeAt(fval, sval, lc, i)] != Null
      decreases count - numProbes
    {
      ProbesOccupied(a[..], fval, sval, lc, numProbes);
      var next := SumMod(dist, ix, count);
      ProbeNext(fval, sval, lc, numProbes - 1, dist, ix, count);
      ix, numProbes := next, numProbes + 1;
    }
    j := numProbes - 1;
  }

  /**
   * The slots t of a table of count == 2^lc slots store m with probe limit
   * mnp; ne counts the keys and ne + np the occupied slots.
   */
  ghost predicate StoredIn<E>(t: seq<Slot<E>>, lc: nat, count: nat, mnp: nat, m: map<Key, E>, pn: map<Key, nat>, ne: nat, np: nat)
  {
    |t| == count && 1 <= mnp <= count && TableOk(t, lc, mnp, m, pn) &&
    ne == |m| && ne + np == |Occupied(t)|
  }

  /**
   * The body of insert on the slot array a of a table storing m: probes for
   * the key, then replaces the element of its entry, which it returns, or
   * writes its entry to the NULL slot found at probe j.
   */
  method PutSlot<E>(a: array<Slot<E>>, lc: nat, count: Word, mnp: nat, ghost m: map<Key, E>, ghost pn: map<Key, nat>,
                    ghost ne: nat, ghost np: nat, key: Key, elt: E)
    returns (found: bool, j: nat, previous: Option<E>)
    requires StoredIn(a[..], lc, count, mnp, m, pn, ne, np) && ne + np < count
    modifies a
    ensures found <==> key in m
    ensures previous == if key in m then Some(m[key]) else None
    ensures j < count
    ensures StoredIn(a[..], lc, count, Max(mnp, j + 1), m[key := elt],
                     if found then pn else pn[key := j], if found then ne else ne + 1, np)
  {
    ghost var t := a[..];
    var fval, sval := HashValues(key);
    var ix;
    found, ix, j := ProbeInsert(a, lc, count, key, fval, sval);
    PutEntry(t, lc, mnp, m, pn, key, elt, found, ix, j);
    previous := None;
    if found {
      previous := Some(a[ix].elt);
      a[ix] := a[ix].(elt := elt);
    } else {
      a[ix] := Live(ClearLow(fval), sval, key, elt);
    }
    assert a[..] == t[ix := Entry(key, elt)];
  }

  /**
   * reinsert: an entry of the previous array goes, unchanged, to the first
   * NULL slot of the probe sequence of its stored hash values, which is its
   * key's own sequence; the probe limit grows to the number of probes made.
   */
  method Reinsert<E>(a: array<Slot<E>>, lc: nat, count: Word, mnp: nat, ghost m: map<Key, E>, ghost pn: map<Key, nat>,
                     prevKe: Slot<E>, ghost key: Key)
    returns (mnp': nat, ghost pn': map<Key, nat>)
    requires StoredIn(a[..], lc, count, mnp, m, pn, |m|, 0) && key !in m && |m| < count
    requires prevKe.Live? && prevKe == Entry(key, prevKe.elt)
    modifies a
    ensures StoredIn(a[..], lc, count, mnp', m[key := prevKe.elt], pn', |m| + 1, 0)
    ensures mnp <= mnp'
  {
    ghost var t := a[..];
    var ix, j := ProbeNull(a, lc, count, prevKe.fval, prevKe.sval);
    forall i | 0 <= i <= j
      ensures ProbeAt(prevKe.fval, prevKe.sval, lc, i) == KeyProbe(key, lc, i)
    {
      StoredProbe(key, lc, i);
    }
    mnp' := Max(mnp, j + 1);
    MoreProbes(t, lc, mnp, m, pn, mnp');
    TablePlace(t, lc, mnp', m, pn, key, prevKe.elt, j);
    a[ix] := prevKe;
    assert a[..] == t[ix := Entry(key, prevKe.elt)];
    pn' := pn[key := j];
  }

  /** m holds exactly the entries of all whose slots in the previous table lie below i. */
  ghost predicate Prefix<E>(m: map<Key, E>, all: map<Key, E>, prevLc: nat, prevPn: map<Key, nat>, i: nat)
    requires 1 <= prevLc <= LOG_COUNT_MAX && all.Keys <= prevPn.Keys
  {
    (forall k :: k in m <==> k in all && KeyProbe(k, prevLc, prevPn[k]) < i) &&
    (forall k :: k in m ==> m[k] == all[k])
  }

  /**
   * Passing slot i of the previous table t: an entry there is a key of all
   * not yet in m, so m grows by it; any other slot holds no key of all.
   */
  lemma PrefixStep<E>(t: seq<Slot<E>>, prevLc: nat, prevMnp: nat, all: map<Key, E>, prevPn: map<Key, nat>,
                      m: map<Key, E>, i: nat)
    requires TableOk(t, prevLc, prevMnp, all, prevPn) && i < |t| && Prefix(m, all, prevLc, prevPn, i)
    ensures t[i] != Null && !IsPh(t[i]) ==>
              t[i].Live? && t[i] == Entry(t[i].key, t[i].elt) && t[i].key !in m && |m| < |all| &&
              Prefix(m[t[i].key := t[i].elt], all, prevLc, prevPn, i + 1)
    ensures !(t[i] != Null && !IsPh(t[i])) ==> Prefix(m, all, prevLc, prevPn, i + 1)
  {
    SlotOwner(t, prevLc, prevMnp, all, prevPn, i);
    if t[i] != Null && !IsPh(t[i]) {
      PrefixTake(t, prevLc, prevMnp, all, prevPn, m, i);
    }
  }

  /** A key of all whose probe ends in slot i is the key of the entry there. */
  lemma SlotOwner<E>(t: seq<Slot<E>>, prevLc: nat, prevMnp: nat, all: map<Key, E>, prevPn: map<Key, nat>, i: nat)
    requires TableOk(t, prevLc, prevMnp, all, prevPn) && i < |t|
    ensures forall k :: k in all && KeyProbe(k, prevLc, prevPn[k]) == i ==> t[i].Live? && !IsPh(t[i]) && k == t[i].key
  {
    forall k | k in all && KeyProbe(k, prevLc, prevPn[k]) == i
      ensures t[i].Live? && !IsPh(t[i]) && k == t[i].key
    {
      assert KeyOk(t, prevLc, prevMnp, all, prevPn, k);
      LiveEntry(t, prevLc, prevMnp, all, prevPn, i);
    }
  }

  /** Passing an entry in slot i adds its key, which is not yet in m, to m. */
  lemma PrefixTake<E>(t: seq<Slot<E>>, prevLc: nat, prevMnp: nat, all: map<Key, E>, prevPn: map<Key, nat>,
                      m: map<Key, E>, i: nat)
    requires TableOk(t, prevLc, prevMnp, all, prevPn) && i < |t| && Prefix(m, all, prevLc, prevPn, i)
    requires t[i] != Null && !IsPh(t[i])
    ensures t[i].Live? && t[i] == Entry(t[i].key, t[i].elt) && t[i].key !in m && |m| < |all| &&
            Prefix(m[t[i].key := t[i].elt], all, prevLc, prevPn, i + 1)
  {
    SlotOwner(t, prevLc, prevMnp, all, prevPn, i);
    LiveEntry(t, prevLc, prevMnp, all, prevPn, i);
    PrefixAdd(m, all, prevLc, prevPn, i, t[i].key, t[i].elt);
  }

  /** The one key of all whose probe ends at i joins m as i moves past it. */
  lemma PrefixAdd<E>(m: map<Key, E>, all: map<Key, E>, prevLc: nat, prevPn: map<Key, nat>, i: nat, key: Key, elt: E)
    requires 1 <= prevLc <= LOG_COUNT_MAX && all.Keys <= prevPn.Keys && Prefix(m, all, prevLc, prevPn, i)
    requires key in all && all[key] == elt && KeyProbe(key, prevLc, prevPn[key]) == i
    requires forall k :: k in all && KeyProbe(k, prevLc, prevPn[k]) == i ==> k == key
    ensures key !in m && |m| < |all| && Prefix(m[key := elt], all, prevLc, prevPn, i + 1)
  {
    SubsetSize(m.Keys, all.Keys - {key});
    var m' := m[key := elt];
    forall k
      ensures k in m' <==> k in all && KeyProbe(k, prevLc, prevPn[k]) < i + 1
    {
    }
    assert forall k :: k in m' ==> m'[k] == all[k];
  }

  /** Past the last slot, m holds all of all. */
  lemma PrefixAll<E>(t: seq<Slot<E>>, prevLc: nat, prevMnp: nat, all: map<Key, E>, prevPn: map<Key, nat>, m: map<Key, E>)
    requires TableOk(t, prevLc, prevMnp, all, prevPn) && Prefix(m, all, prevLc, prevPn, |t|)
    ensures m == all
  {
  }

  /**
   * The reinsertion loop of ht_grow and ht_clean: every entry of the
   * previous array prev, which stores the map all, goes into the array a of
   * NULL slots, in slot order; placeholders are dropped.
   */
  method ReinsertAll<E>(prev: array<Slot<E>>, a: array<Slot<E>>, lc: nat, count: Word, mnp0: nat,
                        ghost prevLc: nat, ghost prevMnp: nat, ghost all: map<Key, E>, ghost prevPn: map<Key, nat>)
    returns (mnp: nat, ghost pn: map<Key, nat>)
    requires prev != a && TableOk(prev[..], prevLc, prevMnp, all, prevPn) && |all| <= count
    requires 1 <= lc <= LOG_COUNT_MAX && count == Pow2(lc) && a.Length == count && 1 <= mnp0 <= count
    requires forall i :: 0 <= i < a.Length ==> a[i] == Null
    modifies a
    ensures StoredIn(a[..], lc, count, mnp, all, pn, |all|, 0)
  {
    ghost var t := prev[..];
    ghost var m: map<Key, E> := map[];
    EmptyTable(a[..], lc);
    MoreProbes(a[..], lc, 1, m, map[], mnp0);
    mnp, pn := mnp0, map[];
    var i := 0;
    while i < prev.Length
      invariant 0 <= i <= prev.Length && prev[..] == t
      invariant StoredIn(a[..], lc, count, mnp, m, pn, |m|, 0)
      invariant Prefix(m, all, prevLc, prevPn, i)
    {
      var s := prev[i];
      PrefixStep(t, prevLc, prevMnp, all, prevPn, m, i);
      if s != Null && !IsPh(s) {
        mnp, pn := Reinsert(a, lc, count, mnp, m, pn, s, s.key);
        m := m[s.key := s.elt];
      }
      i := i + 1;
    }
    PrefixAll(t, prevLc, prevMnp, all, prevPn, m);
  }

  /** The placeholder goes into the slot ix of a stored key: the key is gone and the slot stays occupied. */
  method VacateSlot<E>(a: array<Slot<E>>, lc: nat, count: nat, mnp: nat, ghost m: map<Key, E>, ghost pn: map<Key, nat>,
                       ghost ne: nat, ghost np: nat, key: Key, ix: nat)
    requires StoredIn(a[..], lc, count, mnp, m, pn, ne, np) && key in m && ix == KeyProbe(key, lc, pn[key])
    modifies a
    ensures StoredIn(a[..], lc, count, mnp, m - {key}, pn - {key}, ne - 1, np + 1)
  {
    ghost var t := a[..];
    TableVacate(t, lc, mnp, m, pn, key);
    a[ix] := Ph;
    assert a[..] == t[ix := Ph];
  }

  // ---------------------------------------------------------------------
  // Freeing

  /** Slot s holds an entry: it is neither NULL nor the placeholder. */
  predicate HasEntry<E>(s: Slot<E>)
  {
    s != Null && !IsPh(s)
  }

  /** The keys of the entries among the first n slots of t, in slot order. */
  ghost function LiveKeys<E>(t: seq<Slot<E>>, n: nat): seq<Key>
    requires n <= |t|
  {
    if n == 0 then [] else LiveKeys(t, n - 1) + (if HasEntry(t[n - 1]) then [t[n - 1].key] else [])
  }

  /** The elements of the entries among the first n slots of t, in slot order. */
  function LiveElts<E>(t: seq<Slot<E>>, n: nat): seq<E>
    requires n <= |t|
  {
    if n == 0 then [] else LiveElts(t, n - 1) + (if HasEntry(t[n - 1]) then [t[n - 1].elt] else [])
  }

  /**
   * The entries of t are those of m: key k's entry, with its element, sits
   * in slot at[k], and every entry is found this way.
   */
  ghost predicate Placed<E>(t: seq<Slot<E>>, m: map<Key, E>, at: map<Key, nat>)
  {
    at.Keys == m.Keys &&
    (forall k :: k in m ==> at[k] < |t| && HasEntry(t[at[k]]) && t[at[k]].key == k && t[at[k]].elt == m[k]) &&
    (forall i :: 0 <= i < |t| && HasEntry(t[i]) ==> t[i].key in at && at[t[i].key] == i)
  }

  /** A table storing m places each key at its probe number's slot. */
  lemma TablePlaced<E>(t: seq<Slot<E>>, lc: nat, mnp: nat, m: map<Key, E>, pn: map<Key, nat>)
    requires TableOk(t, lc, mnp, m, pn)
    ensures Placed(t, m, map k | k in m :: KeyProbe(k, lc, pn[k]))
  {
    var at := map k | k in m :: KeyProbe(k, lc, pn[k]);
    assert at.Keys == m.Keys;
    forall k | k in m
      ensures at[k] < |t| && HasEntry(t[at[k]]) && t[at[k]].key == k && t[at[k]].elt == m[k]
    {
      assert KeyOk(t, lc, mnp, m, pn, k);
      assert at[k] == KeyProbe(k, lc, pn[k]);
    }
    forall i | 0 <= i < |t| && HasEntry(t[i])
      ensures t[i].key in at && at[t[i].key] == i
    {
      LiveEntry(t, lc, mnp, m, pn, i);
    }
    assert Placed(t, m, at);
  }

  /**
   * The entries among the first n slots of t list, without repetition,
   * exactly the keys of m placed below n, each with its element.
   */
  lemma {:induction false} LiveListing<E>(t: seq<Slot<E>>, m: map<Key, E>, at: map<Key, nat>, n: nat)
    requires Placed(t, m, at) && n <= |t|
    ensures |LiveKeys(t, n)| == |LiveElts(t, n)| && Distinct(LiveKeys(t, n))
    ensures forall i :: 0 <= i < |LiveKeys(t, n)| ==>
              LiveKeys(t, n)[i] in m && LiveElts(t, n)[i] == m[LiveKeys(t, n)[i]] && at[LiveKeys(t, n)[i]] < n
    ensures forall k :: k in m && at[k] < n ==> k in LiveKeys(t, n)
  {
    if n > 0 {
      LiveListing(t, m, at, n - 1);
      var ks, es := LiveKeys(t, n - 1), LiveElts(t, n - 1);
      if HasEntry(t[n - 1]) {
        assert LiveKeys(t, n) == ks + [t[n - 1].key] && LiveElts(t, n) == es + [t[n - 1].elt];
      } else {
        assert LiveKeys(t, n) == ks && LiveElts(t, n) == es;
      }
    }
  }

  /** The entries of a table storing m list m: as many as its keys, none twice, each with its element. */
  lemma TableListing<E>(t: seq<Slot<E>>, lc: nat, mnp: nat, m: map<Key, E>, pn: map<Key, nat>)
    requires TableOk(t, lc, mnp, m, pn)
    ensures |LiveKeys(t, |t|)| == |LiveElts(t, |t|)| == |m| && Distinct(LiveKeys(t, |t|))
    ensures forall i :: 0 <= i < |LiveKeys(t, |t|)| ==>
              LiveKeys(t, |t|)[i] in m && LiveElts(t, |t|)[i] == m[LiveKeys(t, |t|)[i]]
  {
    var at := map k | k in m :: KeyProbe(k, lc, pn[k]);
    TablePlaced(t, lc, mnp, m, pn);
    LiveListing(t, m, at, |t|);
    var ks := LiveKeys(t, |t|);
    DistinctKeysSize(ks, m);
  }

  /** The loop of ht_muloa_free: the element of every entry is handed to free_elt, in slot order. */
  method FreeSlots<E>(a: array<Slot<E>>) returns (freed: seq<E>)
    ensures freed == LiveElts(a[..], a.Length)
  {
    freed := [];
    for i := 0 to a.Length
      invariant freed == LiveElts(a[..], i)
    {
      if a[i] != Null && !IsPh(a[i]) {
        freed := freed + [a[i].elt];
      }
    }
  }

  class HtMuloa<E> {
    /** The byte length of every key. */
    const keySize: nat
    /** The load factor bound alpha = alphaN / 2^logAlphaD. */
    const alphaN: Word
    const logAlphaD: nat
    var logCount: nat
    var count: nat
    var maxSum: nat
    var maxNumProbes: nat
    var numElts: nat
    var numPhs: nat
    var keyElts: array<Slot<E>>
    ghost var M: map<Key, E>
    ghost var Pn: map<Key, nat>

    /** The size parameters: count is 2^logCount and maxSum is count * alpha, capped below count. */
    ghost predicate Sized()
      reads this
    {
      0 < alphaN <= Pow2(logAlphaD) && logAlphaD < WORD_BITS &&
      LOG_COUNT_MIN <= logCount <= LOG_COUNT_MAX && count == Pow2(logCount) &&
      maxSum == MaxSumAt(logCount, alphaN, logAlphaD)
    }

    /**
     * The slots store M: every stored key at its probe number, at most
     * max_num_probes probes down its sequence; num_elts counts the keys and
     * num_elts + num_phs the occupied slots.
     */
    ghost predicate Stored()
      reads this, keyElts
    {
      Sized() && StoredIn(keyElts[..], logCount, count, maxNumProbes, M, Pn, numElts, numPhs)
    }

    /** Between operations the occupied slots are within max_sum, unless the count can grow no more. */
    ghost predicate Valid()
      reads this, keyElts
    {
      Stored() && (numElts + numPhs <= maxSum || logCount == LOG_COUNT_MAX)
    }

    /** 0 <= max_sum < count, and count is a word. */
    lemma SizedBounds()
      requires Sized()
      ensures maxSum < count < WORD
    {
      Pow2Fits(logCount);
      MaxSumBound(count, alphaN, logAlphaD);
    }

    /**
     * ht_muloa_init: 2^8 slots, grown while min_num exceeds max_sum and the
     * count can still double; every slot NULL, no entries, one probe.
     */
    constructor (keySize: nat, minNum: Word, alphaN: Word, logAlphaD: nat)
      requires 0 < alphaN <= Pow2(logAlphaD) && logAlphaD < WORD_BITS
      ensures Valid() && fresh(keyElts)
      ensures this.keySize == keySize && this.alphaN == alphaN && this.logAlphaD == logAlphaD
      ensures M == map[] && numElts == 0 && numPhs == 0 && maxNumProbes == 1
      ensures minNum <= maxSum || logCount == LOG_COUNT_MAX
      ensures forall lc :: LOG_COUNT_MIN <= lc < logCount ==> MaxSumAt(lc, alphaN, logAlphaD) < minNum
    {
      this.keySize := keySize;
      this.alphaN := alphaN;
      this.logAlphaD := logAlphaD;
      var lc, c, ms := InitialSize(alphaN, logAlphaD);
      logCount, count, maxSum := lc, c, ms;
      maxNumProbes := 1;
      numElts := 0;
      numPhs := 0;
      keyElts := new Slot<E>[0];
      M := map[];
      Pn := map[];
      new;
      GrowTo(minNum);
      AllocSlots();
    }

    /** The allocation ending ht_muloa_init: count NULL slots, so the table stores no entries. */
    method AllocSlots()
      requires Sized() && M == map[] && Pn == map[] && numElts == 0 && numPhs == 0 && maxNumProbes == 1
      modifies this`keyElts
      ensures Valid() && fresh(keyElts)
    {
      SizedBounds();
      keyElts := NullSlots(logCount, count);
      EmptyValid();
    }

    /** An array of NULL slots with no entries and one probe is a valid table. */
    lemma EmptyValid()
      requires Sized() && M == map[] && Pn == map[] && numElts == 0 && numPhs == 0 && maxNumProbes == 1
      requires StoredIn(keyElts[..], logCount, count, 1, map[], map[], 0, 0)
      ensures Valid()
    {
      SizedBounds();
    }

    /** The loop of ht_muloa_init: doubles the count while min_num exceeds max_sum and the count can still double. */
    method GrowTo(minNum: Word)
      requires Sized()
      requires forall lc :: LOG_COUNT_MIN <= lc < logCount ==> MaxSumAt(lc, alphaN, logAlphaD) < minNum
      modifies this`logCount, this`count, this`maxSum
      ensures Sized() && logCount >= old(logCount)
      ensures minNum <= maxSum || logCount == LOG_COUNT_MAX
      ensures forall lc :: LOG_COUNT_MIN <= lc < logCount ==> MaxSumAt(lc, alphaN, logAlphaD) < minNum
    {
      while minNum > maxSum
        invariant Sized() && logCount >= old(logCount)
        invariant forall lc :: LOG_COUNT_MIN <= lc < logCount ==> MaxSumAt(lc, alphaN, logAlphaD) < minNum
        decreases LOG_COUNT_MAX - logCount
      {
        var ok := IncrCount();
        if !ok {
          break;
        }
      }
    }

    /**
     * incr_count: doubles the count and recomputes max_sum, unless the count
     * is already 2^63; reports whether it grew.
     */
    method IncrCount() returns (ok: bool)
      requires Sized()
      modifies this`logCount, this`count, this`maxSum
      ensures Sized() && maxSum < count
      ensures ok <==> old(logCount) < LOG_COUNT_MAX
      ensures logCount == if ok then old(logCount) + 1 else old(logCount)
      ensures count == if ok then 2 * old(count) else old(count)
    {
      if logCount == LOG_COUNT_MAX {
        SizedBounds();
        return false;
      }
      logCount := logCount + 1;
      count := count * 2;
      maxSum := MaxSumAt(logCount, alphaN, logAlphaD);
      SizedBounds();
      return true;
    }

    /**
     * search: follows the key's probe sequence until a NULL slot, an entry
     * for the key, or max_num_probes probes; placeholders are passed over.
     */
    method SearchSlot(key: Key) returns (found: bool, ix: nat)
      requires Valid()
      requires |key| == keySize
      ensures found <==> key in M
      ensures found ==> ix == KeyProbe(key, logCount, Pn[key]) && ix < keyElts.Length && keyElts[ix] == Entry(key, M[key])
    {
      SizedBounds();
      ghost var t := keyElts[..];
      var fval, sval := HashValues(key);
      ghost var j;
      found, ix, j := ProbeFor(keyElts, logCount, count, maxNumProbes, key, fval, sval);
      if found {
        LiveEntry(t, logCount, maxNumProbes, M, Pn, ix);
      } else {
        NotStored(t, logCount, maxNumProbes, M, Pn, key, j);
      }
    }

    /** ht_muloa_search: the element associated with the key, or None. */
    method Search(key: Key) returns (r: Option<E>)
      requires Valid()
      requires |key| == keySize
      ensures r == if key in M then Some(M[key]) else None
    {
      var found, ix := SearchSlot(key);
      r := if found then Some(keyElts[ix].elt) else None;
    }

    /**
     * ht_muloa_insert: an entry for a present key gets the new element in
     * place, the old element going to the element destructor when there is
     * one; otherwise the entry goes to the first NULL slot of the key's
     * probe sequence, and if the occupied slots then exceed max_sum the table
     * is cleaned (more placeholders than entries) or grown. A free slot is
     * needed for the probe sequence to end.
     */
    method Insert(key: Key, elt: E, hasFreeElt: bool) returns (freed: Option<E>)
      requires Valid() && numElts + numPhs < count
      requires |key| == keySize
      modifies this, keyElts
      ensures Valid() && M == old(M)[key := elt]
      ensures freed == if hasFreeElt && key in old(M) then Some(old(M)[key]) else None
      ensures keyElts == old(keyElts) || fresh(keyElts)
    {
      var added;
      added, freed := Put(key, elt, hasFreeElt);
      if added && numElts + numPhs > maxSum {
        if numElts < numPhs {
          Clean();
        } else if logCount < LOG_COUNT_MAX {
          Grow();
        }
      }
    }

    /**
     * The probing part of insert: the key's entry is updated in place or
     * written to the first NULL slot of its probe sequence, and
     * max_num_probes grows to the number of probes made.
     */
    method Put(key: Key, elt: E, hasFreeElt: bool) returns (added: bool, freed: Option<E>)
      requires Valid() && numElts + numPhs < count
      requires |key| == keySize
      modifies this`M, this`Pn, this`numElts, this`maxNumProbes, keyElts
      ensures Stored() && M == old(M)[key := elt]
      ensures added <==> key !in old(M)
      ensures freed == if hasFreeElt && key in old(M) then Some(old(M)[key]) else None
      ensures numElts == if added then old(numElts) + 1 else old(numElts)
      ensures !added ==> Valid()
      ensures numElts + numPhs <= maxSum + 1 || logCount == LOG_COUNT_MAX
    {
      SizedBounds();
      var found, j, previous := PutSlot(keyElts, logCount, count, maxNumProbes, M, Pn, numElts, numPhs, key, elt);
      freed := if hasFreeElt then previous else None;
      maxNumProbes := Max(maxNumProbes, j + 1);
      if found {
        M := M[key := elt];
      } else {
        M, Pn := M[key := elt], Pn[key := j];
        numElts := numElts + 1;
      }
      added := !found;
    }

    /** Puts the placeholder in the slot of a stored key: one entry fewer, one placeholder more. */
    method Vacate(key: Key, ix: nat)
      requires Valid() && key in M && ix == KeyProbe(key, logCount, Pn[key])
      requires |key| == keySize
      modifies this`M, this`Pn, this`numElts, this`numPhs, keyElts
      ensures Valid() && M == old(M) - {key}
      ensures numElts == old(numElts) - 1 && numPhs == old(numPhs) + 1
    {
      VacateSlot(keyElts, logCount, count, maxNumProbes, M, Pn, numElts, numPhs, key, ix);
      M, Pn := M - {key}, Pn - {key};
      numElts, numPhs := numElts - 1, numPhs + 1;
    }

    /**
     * ht_muloa_remove: hands back the element of a present key and replaces
     * its entry by the placeholder; an absent key changes nothing.
     */
    method Remove(key: Key) returns (r: Option<E>)
      requires Valid()
      requires |key| == keySize
      modifies this`M, this`Pn, this`numElts, this`numPhs, keyElts
      ensures Valid() && M == old(M) - {key}
      ensures r == if key in old(M) then Some(old(M)[key]) else None
      ensures numElts + numPhs == old(numElts) + old(numPhs)
    {
      var found, ix := SearchSlot(key);
      if found {
        r := Some(keyElts[ix].elt);
        Vacate(key, ix);
      } else {
        r := None;
        assert M - {key} == M;
      }
    }

    /**
     * ht_muloa_delete: a present key's entry is freed (its element handed to
     * free_elt when the table has one) and replaced by the placeholder; an
     * absent key changes nothing.
     */
    method Delete(key: Key, hasFreeElt: bool) returns (freed: Option<E>)
      requires Valid()
      requires |key| == keySize
      modifies this`M, this`Pn, this`numElts, this`numPhs, keyElts
      ensures Valid() && M == old(M) - {key}
      ensures freed == if hasFreeElt && key in old(M) then Some(old(M)[key]) else None
      ensures numElts + numPhs == old(numElts) + old(numPhs)
    {
      var found, ix := SearchSlot(key);
      freed := None;
      if found {
        if hasFreeElt {
          freed := Some(keyElts[ix].elt);
        }
        Vacate(key, ix);
      } else {
        assert M - {key} == M;
      }
    }

    /**
     * ht_muloa_free: every stored entry is freed, its element handed to
     * free_elt once when the table has one. The keys, in slot order, are ghost.
     */
    method Free(hasFreeElt: bool) returns (freed: seq<E>, ghost keys: seq<Key>)
      requires Valid()
      ensures |keys| == |M| && Distinct(keys) && forall i :: 0 <= i < |keys| ==> keys[i] in M
      ensures hasFreeElt ==> |freed| == |keys| && forall i :: 0 <= i < |keys| ==> freed[i] == M[keys[i]]
      ensures !hasFreeElt ==> freed == []
    {
      freed := [];
      if hasFreeElt {
        freed := FreeSlots(keyElts);
      }
      keys := LiveKeys(keyElts[..], keyElts.Length);
      TableListing(keyElts[..], logCount, maxNumProbes, M, Pn);
    }

    /**
     * ht_grow: doubles the count until the occupied slots fit within max_sum
     * or the count reaches 2^63, then reinserts every entry into a new array,
     * dropping the placeholders.
     */
    method Grow()
      requires Stored()
      modifies this
      ensures Stored() && M == old(M) && numPhs == 0 && fresh(keyElts)
      ensures numElts + old(numPhs) <= maxSum || logCount == LOG_COUNT_MAX
      ensures old(logCount) <= logCount
      ensures forall lc :: old(logCount) <= lc < logCount ==> MaxSumAt(lc, alphaN, logAlphaD) < numElts + old(numPhs)
    {
      ghost var prevLc, prevMnp, prevPn := logCount, maxNumProbes, Pn;
      OccupiedSize(keyElts[..]);
      var prev := keyElts;
      while numElts + numPhs > maxSum
        modifies this`logCount, this`count, this`maxSum
        invariant Sized() && old(logCount) <= logCount && old(count) <= count
        invariant forall lc :: old(logCount) <= lc < logCount ==> MaxSumAt(lc, alphaN, logAlphaD) < numElts + numPhs
        decreases LOG_COUNT_MAX - logCount
      {
        var ok := IncrCount();
        if !ok {
          break;
        }
      }
      Rebuild(prev, prevLc, prevMnp, prevPn);
    }

    /**
     * ht_clean: reinserts every entry into a new array of the same count,
     * dropping the placeholders.
     */
    method Clean()
      requires Stored()
      modifies this
      ensures Stored() && M == old(M) && numPhs == 0 && fresh(keyElts)
      ensures logCount == old(logCount) && numElts == old(numElts)
    {
      OccupiedSize(keyElts[..]);
      Rebuild(keyElts, logCount, maxNumProbes, Pn);
    }

    /**
     * The common part of ht_grow and ht_clean: a new array of NULL slots,
     * one probe, no placeholders, and every entry of the previous array
     * reinserted, slot by slot.
     */
    method Rebuild(prev: array<Slot<E>>, ghost prevLc: nat, ghost prevMnp: nat, ghost prevPn: map<Key, nat>)
      requires Sized() && TableOk(prev[..], prevLc, prevMnp, M, prevPn) && numElts == |M| <= count
      modifies this
      ensures Stored() && M == old(M) && numPhs == 0 && fresh(keyElts)
      ensures logCount == old(logCount) && count == old(count) && maxSum == old(maxSum) && numElts == old(numElts)
    {
      SizedBounds();
      maxNumProbes := 1;
      numPhs := 0;
      keyElts := new Slot<E>[count](_ => Null);
      maxNumProbes, Pn := ReinsertAll(prev, keyElts, logCount, count, maxNumProbes, prevLc, prevMnp, M, prevPn);
    }
  }
}
