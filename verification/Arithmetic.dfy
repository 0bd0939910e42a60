/** Division with remainder by a positive divisor, in the few shapes the address arithmetic needs. */
module Arithmetic {

  lemma MulLe(x: nat, y: nat, n: nat)
    requires x <= y
    ensures x * n <= y * n
  {
  }

  lemma MulSub(x: int, y: int, n: nat)
    ensures x * n - y * n == (x - y) * n
  {
  }

  lemma AtLeastOne(k: int, n: nat)
    requires k * n < n
    ensures k <= 0
  {
    if k >= 1 {
      MulLe(1, k, n);
    }
  }

  /** The quotient and the remainder are the only pair of their kind. */
  lemma Unique(x: nat, n: nat, q: nat, d: nat)
    requires d < n && x == q * n + d
    ensures x / n == q && x % n == d
  {
    var q', d' := x / n, x % n;
    assert x == q' * n + d' by { Parts(x, n); }
    MulSub(q, q', n);
    MulSub(q', q, n);
    AtLeastOne(q - q', n);
    AtLeastOne(q' - q, n);
  }

  lemma Parts(x: nat, n: nat)
    requires n > 0
    ensures x == x / n * n + x % n && x % n < n
  {
  }

  lemma DivMonotone(a: nat, b: nat, n: nat)
    requires a <= b && n > 0
    ensures a / n <= b / n
  {
    Parts(a, n);
    Parts(b, n);
    MulSub(a / n, b / n, n);
    AtLeastOne(a / n - b / n, n);
  }

  /** Rounding down to a multiple of `m` first changes nothing when `n` is a multiple of `m`. */
  lemma RoundTwice(x: nat, m: nat, k: nat)
    requires m > 0 && k > 0
    ensures k * m > 0 && x / m * m / (k * m) == x / (k * m)
  {
    MulLe(1, k, m);
    var n := k * m;
    var q, r := x / n, x % n;
    Parts(x, n);
    Parts(r, m);
    Assoc(q, k, m);
    Distribute(q * k, r / m, m);
    Unique(x, m, q * k + r / m, r % m);
    assert x / m * m == q * n + r / m * m;
    Unique(x / m * m, n, q, r / m * m);
  }

  lemma Assoc(q: nat, k: nat, m: nat)
    ensures q * (k * m) == q * k * m
  {
  }

  lemma Distribute(a: nat, b: nat, m: nat)
    ensures (a + b) * m == a * m + b * m
  {
  }

  lemma MultipleMod(q: nat, n: nat)
    requires n > 0
    ensures q * n % n == 0 && q * n / n == q
  {
    Unique(q * n, n, q, 0);
  }

  lemma Below(k: nat, n: nat, s: nat, d: nat)
    requires k * s <= d < n * s
    ensures k < n
  {
    if n <= k {
      MulLe(n, k, s);
    }
  }

  lemma RoundTwiceMultiple(x: nat, m: nat, k: nat, n: nat)
    requires m > 0 && k > 0 && n == k * m
    ensures n > 0 && x / m * m / n * n == x / n * n && x / n * n % m == 0
  {
    RoundTwice(x, m, k);
    var q := x / n;
    Assoc(q, k, m);
    MultipleMod(q * k, m);
  }

  /** Position of `va` in a table of `n` entries of `s` bytes that starts at the multiple `q * (n * s)`. */
  lemma Slot(va: nat, q: nat, n: nat, s: nat, d: nat) returns (k: nat)
    requires s > 0 && n > 0 && d < n * s && va == q * (n * s) + d
    ensures k == d / s && k < n && k * s <= d < (k + 1) * s
    ensures va / s == q * n + k && va % s == d - k * s
  {
    k := d / s;
    Parts(d, s);
    Below(k, n, s, d);
    Assoc(q, n, s);
    Distribute(q * n, k, s);
    Distribute(k, 1, s);
    Unique(va, s, q * n + k, d % s);
  }

  lemma SlotBase(q: nat, n: nat, s: nat, k: nat)
    requires s > 0 && k < n
    ensures (q * n + k) % n == k && (q * (n * s) + k * s) % s == 0
  {
    Unique(q * n + k, n, q, k);
    Assoc(q, n, s);
    Distribute(q * n, k, s);
    MultipleMod(q * n + k, s);
  }

  lemma ModOfMultiple(va: nat, m: nat, k: nat)
    requires m > 0 && k > 0
    ensures k * m > 0 && va % (k * m) % m == va % m
  {
    MulLe(1, k, m);
    var n := k * m;
    var q, r := va / n, va % n;
    Parts(va, n);
    Parts(r, m);
    Assoc(q, k, m);
    Distribute(q * k, r / m, m);
    Unique(va, m, q * k + r / m, r % m);
  }

  lemma RoomInBlock(r: nat, m: nat, k: nat, j: nat)
    requires m > 0 && r < k * m && r % m + j < m
    ensures r + j < k * m
  {
    Parts(r, m);
    Below(r / m, k, m, r);
    MulLe(r / m + 1, k, m);
    Distribute(r / m, 1, m);
  }

  /** Moving inside one block of `m` moves nothing in a larger block of `k * m`. */
  lemma SameBlock(va: nat, j: nat, m: nat, k: nat, n: nat)
    requires m > 0 && k > 0 && n == k * m && va % m + j < m
    ensures n > 0 && (va + j) / n == va / n && (va + j) % n == va % n + j
  {
    ModOfMultiple(va, m, k);
    var q, r := va / n, va % n;
    Parts(va, n);
    RoomInBlock(r, m, k, j);
    Unique(va + j, n, q, r + j);
  }

  lemma AddBlocks(va: nat, c: nat, s: nat)
    requires s > 0
    ensures (va + c * s) / s == va / s + c && (va + c * s) % s == va % s
  {
    Parts(va, s);
    Distribute(va / s, c, s);
    Unique(va + c * s, s, va / s + c, va % s);
  }
}
