/**
 * Shared definitions: the 64-bit `size_t` word of the target machine, the
 * meaning of C's unsigned operators on it, bytes, an option type and the
 * modular-arithmetic facts the other modules rely on.
 */
module Base {

  /** Bits in a `size_t` word (8 * sizeof(size_t) on a 64-bit machine). */
  const WORD_BITS: nat := 64
  /** 2^64, the modulus of unsigned `size_t` arithmetic. */
  const WORD: nat := 0x1_0000_0000_0000_0000
  /** SIZE_MAX, the largest `size_t`. */
  const SIZE_MAX: nat := WORD - 1
  /** Bits in half a word, and 2^32. */
  const HALF_BITS: nat := 32
  const HALF: nat := 0x1_0000_0000

  /** A value of type `size_t`. */
  type Word = x: nat | x < WORD

  /** An `unsigned char`. */
  type byte = x: nat | x < 256

  datatype Option<T> = None | Some(value: T)

  function Pow2(k: nat): (r: nat)
    ensures r >= 1
  {
    if k == 0 then 1 else 2 * Pow2(k - 1)
  }

  /** x << k on a `size_t`: the bits shifted past the top are lost. */
  function Shl(x: Word, k: nat): Word
    requires k < WORD_BITS
  {
    Pow2Word();
    (x * Pow2(k)) % WORD
  }

  /** x >> k on a `size_t`. */
  function Shr(x: Word, k: nat): Word
  {
    Quot(x, Pow2(k))
  }

  /** Unsigned division of a word by a positive divisor. */
  function Quot(x: Word, d: nat): Word
    requires d >= 1
  {
    DivLe(x, d);
    x / d
  }

  /** x & (SIZE_MAX >> 32), the low half of a word. */
  function Low(x: Word): Word
  {
    x % HALF
  }

  /** x >> 32, the high half of a word. */
  function High(x: Word): Word
  {
    x / HALF
  }

  /** x << 32: the high half is shifted out. */
  function ShlHalf(x: Word): Word
  {
    (x * HALF) % WORD
  }

  /** The fixed shifts agree with the general ones. */
  lemma HalfShifts(x: Word)
    ensures High(x) == Shr(x, HALF_BITS) && ShlHalf(x) == Shl(x, HALF_BITS)
  {
    Pow2Word();
  }

  lemma {:induction false} Pow2Add(a: nat, b: nat)
    ensures Pow2(a + b) == Pow2(a) * Pow2(b)
  {
    if a > 0 {
      Pow2Add(a - 1, b);
    }
  }

  lemma {:induction false} Pow2Le(a: nat, b: nat)
    requires a <= b
    ensures Pow2(a) <= Pow2(b)
  {
    if a < b {
      Pow2Le(a, b - 1);
    }
  }

  lemma Pow2Word()
    ensures Pow2(8) == 256 && Pow2(32) == HALF && Pow2(64) == WORD
  {
    assert Pow2(2) == 4;
    assert Pow2(4) == 16;
    assert Pow2(8) == 256 by { Pow2Add(4, 4); }
    assert Pow2(16) == 65536 by { Pow2Add(8, 8); }
    assert Pow2(32) == HALF by { Pow2Add(16, 16); }
    Pow2Add(32, 32);
  }

  /** Every power of two below 2^64 fits in a word. */
  lemma Pow2Fits(k: nat)
    requires k < WORD_BITS
    ensures Pow2(k) < WORD
  {
    Pow2Le(k, 63);
    Pow2Add(63, 1);
    Pow2Word();
  }

  lemma DivLe(x: nat, d: nat)
    requires d >= 1
    ensures x / d <= x
  {
    var q := x / d;
    assert q * d + x % d == x && x % d >= 0;
    if q > 0 {
      MulGe(d, q);
    }
  }

  lemma {:induction false} MulGe(d: int, n: int)
    requires d >= 1 && n > 0
    ensures d * n >= n
  {
    if d > 1 {
      MulGe(d - 1, n);
      assert d * n == (d - 1) * n + n;
    }
  }

  lemma MulLe(a: int, b: int, c: int)
    requires 0 <= a <= b && c >= 0
    ensures a * c <= b * c
  {
    if a < b && c > 0 {
      assert b * c - a * c == (b - a) * c;
      MulGe(b - a, c);
    }
  }

  /** Quotient and remainder are determined by any decomposition x == q * n + r with 0 <= r < n. */
  lemma DivModUnique(x: int, n: int, q: int, r: int)
    requires n > 0 && 0 <= r < n && x == q * n + r
    ensures x / n == q && x % n == r
  {
    var q0, r0 := x / n, x % n;
    assert x == q0 * n + r0;
    if q0 > q {
      assert (q0 - q) * n == q0 * n - q * n;
      MulGe(q0 - q, n);
    } else if q0 < q {
      assert (q - q0) * n == q * n - q0 * n;
      MulGe(q - q0, n);
    }
  }

  /** Cancelling a positive common factor. */
  lemma CancelFactor(x: int, y: int, p: int)
    requires p > 0 && x * p == y * p
    ensures x == y
  {
    if x < y {
      assert (y - x) * p == y * p - x * p;
      MulGe(y - x, p);
    } else if x > y {
      assert (x - y) * p == x * p - y * p;
      MulGe(x - y, p);
    }
  }

  /** p * q divides n * p exactly when q divides n. */
  lemma ScaledDivides(n: nat, p: nat, q: nat)
    requires p > 0 && q > 0
    ensures (n * p) % (p * q) == 0 <==> n % q == 0
  {
    if n % q == 0 {
      var m := n / q;
      assert n == m * q;
      assert n * p == m * (p * q);
      DivModUnique(n * p, p * q, m, 0);
    }
    if (n * p) % (p * q) == 0 {
      var t := (n * p) / (p * q);
      assert n * p == t * (p * q);
      assert n * p == (t * q) * p;
      CancelFactor(n, t * q, p);
      DivModUnique(n, q, t, 0);
    }
  }

  lemma ModAddMultiple(x: int, k: int, n: int)
    requires n > 0
    ensures (x + k * n) % n == x % n && (x + k * n) / n == x / n + k
  {
    DivModUnique(x + k * n, n, x / n + k, x % n);
  }

  lemma ModAdd(a: int, b: int, n: int)
    requires n > 0
    ensures (a + b) % n == (a % n + b % n) % n
  {
    ModAddMultiple(a % n + b % n, a / n + b / n, n);
    assert a % n + b % n + (a / n + b / n) * n == a + b;
  }

  lemma ModMulLeft(a: int, b: int, n: int)
    requires n > 0
    ensures (a * b) % n == ((a % n) * b) % n
  {
    ModAddMultiple((a % n) * b, (a / n) * b, n);
    assert (a % n) * b + ((a / n) * b) * n == a * b;
  }

  lemma ModMul(a: int, b: int, n: int)
    requires n > 0
    ensures (a * b) % n == ((a % n) * (b % n)) % n
  {
    ModMulLeft(a, b, n);
    ModMulLeft(b, a % n, n);
    assert b * (a % n) == (a % n) * b;
    assert (b % n) * (a % n) == (a % n) * (b % n);
  }

  lemma ModMod(a: int, n: int)
    requires n > 0
    ensures (a % n) % n == a % n
  {
    DivModUnique(a % n, n, 0, a % n);
  }

  /** Splitting a word into its halves: x == (x >> 32) * 2^32 + (x & LOW_MASK). */
  lemma HalfSplit(x: Word)
    ensures x == High(x) * HALF + Low(x)
    ensures High(x) < HALF && Low(x) < HALF
  {
    DivModUnique(x, HALF, x / HALF, x % HALF);
  }

  /** The product of two half words fits in a word. */
  lemma HalfProduct(a: nat, b: nat)
    requires a < HALF && b < HALF
    ensures a * b < WORD && a * b <= (HALF - 1) * (HALF - 1)
  {
    MulLe(a, HALF - 1, b);
    MulLe(b, HALF - 1, HALF - 1);
    assert (HALF - 1) * b == b * (HALF - 1);
  }

  /** The sequence read from its last element to its first. */
  function Reverse<T>(s: seq<T>): (r: seq<T>)
    ensures |r| == |s| && forall i :: 0 <= i < |s| ==> r[i] == s[|s| - 1 - i]
  {
    if s == [] then [] else Reverse(s[1..]) + [s[0]]
  }

  lemma ReverseSnoc<T>(s: seq<T>, x: T)
    ensures Reverse(s + [x]) == [x] + Reverse(s)
  {
    assert (s + [x])[1..] == if s == [] then [] else s[1..] + [x];
    if s != [] {
      ReverseSnoc(s[1..], x);
    }
  }

  /** No element occurs twice. */
  ghost predicate Distinct<T>(s: seq<T>)
  {
    forall i, j :: 0 <= i < j < |s| ==> s[i] != s[j]
  }

  /** A sequence without repetitions has as many members as elements. */
  lemma {:induction false} DistinctSize<T>(s: seq<T>)
    requires Distinct(s)
    ensures |set i | 0 <= i < |s| :: s[i]| == |s|
  {
    if s != [] {
      var u := s[..|s| - 1];
      DistinctSize(u);
      var su := set i | 0 <= i < |u| :: u[i];
      assert (set i | 0 <= i < |s| :: s[i]) == su + {s[|s| - 1]};
      assert s[|s| - 1] !in su;
    }
  }

  /** Distinct elements that are exactly a map's keys are as many as its entries. */
  lemma DistinctKeysSize<K, V>(ks: seq<K>, m: map<K, V>)
    requires Distinct(ks)
    requires forall i :: 0 <= i < |ks| ==> ks[i] in m
    requires forall k :: k in m ==> k in ks
    ensures |ks| == |m|
  {
    DistinctSize(ks);
    assert (set i | 0 <= i < |ks| :: ks[i]) == m.Keys;
  }

  /** A set of naturals below n has at most n members. */
  lemma {:induction false} BelowSize(s: set<nat>, n: nat)
    requires forall x :: x in s ==> x < n
    ensures |s| <= n
  {
    if n > 0 {
      BelowSize(s - {n - 1}, n - 1);
    }
  }

  /** A sequence of distinct naturals below n has at most n elements. */
  lemma DistinctBelow(s: seq<nat>, n: nat)
    requires Distinct(s) && forall k :: 0 <= k < |s| ==> s[k] < n
    ensures |s| <= n
  {
    DistinctSize(s);
    BelowSize(set i | 0 <= i < |s| :: s[i], n);
  }
  /** A sequence in which every natural below n occurs has at least n elements. */
  lemma {:induction false} CoverSize(s: seq<nat>, n: nat)
    requires forall x: nat :: x < n ==> x in s
    ensures |s| >= n
  {
    if n > 0 {
      var top: nat := n - 1;
      assert top in s;
      var k :| 0 <= k < |s| && s[k] == top;
      var t := s[..k] + s[k + 1..];
      forall x: nat | x < n - 1
        ensures x in t
      {
        assert x in s;
        var i :| 0 <= i < |s| && s[i] == x;
        if i < k {
          assert t[i] == x;
        } else {
          assert t[i - 1] == x;
        }
      }
      CoverSize(t, n - 1);
    }
  }
}
