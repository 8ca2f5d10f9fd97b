/** Unsigned 32-bit numbers, powers of two and masks. */
module Numbers {
  import opened RingQueue

  const WRAP := 0x1_0000_0000

  /** What an unsigned 32-bit computation of `x` gives. */
  function U32(x: int): (r: nat)
    ensures r < WRAP
  {
    x % WRAP
  }

  /** Subtraction of counters wraps at most once. */
  lemma Difference(a: nat, b: nat)
    requires a < WRAP && b < WRAP
    ensures U32(a - b) == if a >= b then a - b else a - b + WRAP
    ensures U32(b + U32(a - b)) == a
  {
  }

  /** Moving one of two counters changes their distance by as much. */
  lemma CounterMoves(a: nat, b: nat, l: nat)
    requires a < WRAP && b < WRAP
    ensures U32(a - b) + l < WRAP ==> U32(U32(a + l) - b) == U32(a - b) + l
    ensures l <= U32(a - b) ==> U32(a - U32(b + l)) == U32(a - b) - l
  {
  }

  function Pow2(k: nat): (n: nat)
    ensures n > 0
  {
    if k == 0 then 1 else 2 * Pow2(k - 1)
  }

  /** Bitwise and. */
  function And(x: nat, y: nat): nat {
    if x == 0 || y == 0 then 0 else (if x % 2 == 1 && y % 2 == 1 then 1 else 0) + 2 * And(x / 2, y / 2)
  }

  /** Bitwise or. */
  function Or(x: nat, y: nat): nat {
    if x == 0 then y
    else if y == 0 then x
    else (if x % 2 == 1 || y % 2 == 1 then 1 else 0) + 2 * Or(x / 2, y / 2)
  }

  lemma DivUnique(n: nat, d: nat, q: nat, r: nat)
    requires d > 0 && n == d * q + r && r < d
    ensures n / d == q && n % d == r
  {
    var q', r' := n / d, n % d;
    assert n == d * q' + r';
    MulOrder(d, q' + 1, q);
    MulOrder(d, q + 1, q');
  }

  lemma MulOrder(d: nat, a: nat, b: nat)
    ensures a <= b ==> d * a <= d * b
  {
  }

  /** Masking with a power of two less one is a remainder. */
  lemma {:induction false} AndMask(x: nat, k: nat)
    ensures And(x, Pow2(k) - 1) == x % Pow2(k)
  {
    if k == 0 {
      assert x % 1 == 0;
    } else {
      var h := Pow2(k - 1);
      AndMask(x / 2, k - 1);
      HalfRemainder(x, h);
      assert (2 * h - 1) / 2 == h - 1 && (2 * h - 1) % 2 == 1;
      AndHalves(x, 2 * h - 1);
    }
  }

  lemma AndHalves(x: nat, y: nat)
    ensures And(x, y) == (if x % 2 == 1 && y % 2 == 1 then 1 else 0) + 2 * And(x / 2, y / 2)
  {
  }

  lemma HalfRemainder(x: nat, h: nat)
    requires h > 0
    ensures x % (2 * h) == 2 * (x / 2 % h) + x % 2
  {
    var q, r := x / 2 / h, x / 2 % h;
    assert x / 2 == h * q + r;
    Spread(h, q, r, x);
    DivUnique(x, 2 * h, q, 2 * r + x % 2);
  }

  lemma Spread(h: nat, q: nat, r: nat, x: nat)
    requires x / 2 == h * q + r
    ensures x == (2 * h) * q + (2 * r + x % 2)
  {
    assert x == 2 * (x / 2) + x % 2;
    assert (2 * h) * q == 2 * (h * q);
  }

  ghost predicate IsPow2(n: nat) {
    exists k: nat :: n == Pow2(k)
  }

  lemma DoublePower(n: nat)
    requires n > 0
    ensures IsPow2(2 * n) <==> IsPow2(n)
  {
    if IsPow2(n) {
      var k: nat :| n == Pow2(k);
      assert 2 * n == Pow2(k + 1);
    }
    if IsPow2(2 * n) {
      var k: nat :| 2 * n == Pow2(k);
      assert n == Pow2(k - 1);
    }
  }

  /** The test `size & (size - 1)` recognises the powers of two. */
  lemma {:induction false} PowerTest(n: nat)
    requires n > 0
    ensures And(n, n - 1) == 0 <==> IsPow2(n)
  {
    AndHalves(n, n - 1);
    if n == 1 {
      assert n == Pow2(0);
    } else if n % 2 == 1 {
      assert (n - 1) / 2 == n / 2;
      AndSelf(n / 2);
    } else {
      assert (n - 1) / 2 == n / 2 - 1;
      PowerTest(n / 2);
      DoublePower(n / 2);
    }
  }

  lemma {:induction false} AndSelf(x: nat)
    ensures And(x, x) == x
  {
    if x > 0 {
      AndSelf(x / 2);
    }
  }

  lemma OrHalves(x: nat, y: nat)
    ensures Or(x, y) == (if x % 2 == 1 || y % 2 == 1 then 1 else 0) + 2 * Or(x / 2, y / 2)
  {
  }

  /** Low bits are put in below a number that ends in zeros. */
  lemma {:induction false} OrBelow(x: nat, y: nat, b: nat, k: nat)
    requires b < Pow2(k)
    ensures Or(x * Pow2(k), y * Pow2(k) + b) == Or(x, y) * Pow2(k) + b
  {
    hide Or;
    if k > 0 {
      var h := Pow2(k - 1);
      OrBelow(x, y, b / 2, k - 1);
      Doubles(x, h);
      Doubles(y, h);
      Doubles(Or(x, y), h);
      OrTwice(x * h, y * h + b / 2, b % 2);
    }
  }

  lemma OrTwice(u: nat, v: nat, c: nat)
    requires c < 2
    ensures Or(2 * u, 2 * v + c) == 2 * Or(u, v) + c
  {
    OrHalves(2 * u, 2 * v + c);
  }

  lemma Doubles(x: nat, h: nat)
    ensures x * (2 * h) == 2 * (x * h)
  {
  }

  /** Ones cover any number as long. */
  lemma {:induction false} OrOnes(x: nat, k: nat)
    requires x < Pow2(k)
    ensures Or(x, Pow2(k) - 1) == Pow2(k) - 1
  {
    if k > 0 {
      var h := Pow2(k - 1);
      OrOnes(x / 2, k - 1);
      OrHalves(x, 2 * h - 1);
    }
  }

  /** A power of two below 2^32 divides 2^32. */
  lemma {:induction false} PowerDivides(k: nat, m: nat)
    requires k <= m
    ensures Pow2(m) == Pow2(k) * Pow2(m - k)
    decreases m - k
  {
    if k < m {
      PowerDivides(k, m - 1);
      assert Pow2(k) * Pow2(m - k) == 2 * (Pow2(k) * Pow2(m - 1 - k));
    }
  }

  lemma {:induction false} PowerGrows(k: nat, m: nat)
    requires k <= m
    ensures Pow2(k) <= Pow2(m)
    decreases m - k
  {
    if k < m {
      PowerGrows(k, m - 1);
    }
  }

  lemma Pow2At32()
    ensures Pow2(32) == WRAP == 0x1_0000_0000 && Pow2(31) == 0x8000_0000 && Pow2(30) == 0x4000_0000
  {
    assert Pow2(8) == 0x100 && Pow2(16) == 0x1_0000 && Pow2(24) == 0x100_0000;
  }

  /** Wrapping at 2^32 does not disturb the remainder by a smaller power of two. */
  lemma WrapKeepsIndex(x: nat, k: nat)
    requires k <= 32
    ensures U32(x) % Pow2(k) == x % Pow2(k)
  {
    PowerDivides(k, 32);
    Pow2At32();
    WholeLaps(x, WRAP, Pow2(k), Pow2(32 - k));
  }

  lemma WholeLaps(x: nat, w: nat, s: nat, c: nat)
    requires s > 0 && w > 0 && w == s * c
    ensures x % w % s == x % s
  {
    var y, t := x % w, x / w;
    assert x == w * t + y;
    var q, r := y / s, y % s;
    assert y == s * q + r;
    Regroup(s, c, t);
    Distribute(s, c * t, q);
    DivUnique(x, s, c * t + q, r);
  }

  lemma Regroup(a: nat, b: nat, c: nat)
    ensures (a * b) * c == a * (b * c)
  {
  }

  lemma Distribute(a: nat, b: nat, c: nat)
    ensures a * (b + c) == a * b + a * c
  {
  }

  lemma IndexAdvances(x: nat, t: nat, size: nat)
    requires size > 0 && t <= size
    ensures x % size < size && (x + t) % size == Slot(x % size, t, size)
  {
    var q, o := x / size, x % size;
    assert x == size * q + o;
    if o + t < size {
      DivUnique(x + t, size, q, o + t);
    } else if o + t - size < size {
      assert size * (q + 1) == size * q + size;
      DivUnique(x + t, size, q + 1, o + t - size);
    }
  }

  /** A masked counter is a slot, and advances like one even where the counter wraps. */
  lemma MaskAdvances(x: nat, t: nat, k: nat)
    requires k <= 32 && t <= Pow2(k)
    ensures And(x, Pow2(k) - 1) < Pow2(k)
    ensures And(U32(x + t), Pow2(k) - 1) == Slot(And(x, Pow2(k) - 1), t, Pow2(k))
  {
    AndMask(x, k);
    AndMask(U32(x + t), k);
    WrapKeepsIndex(x + t, k);
    IndexAdvances(x, t, Pow2(k));
  }
}
