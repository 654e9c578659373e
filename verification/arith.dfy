/** Integer helpers: Rust's truncating division and remainder, and the
    greatest common divisor / least common multiple that `num::integer`
    provides. */
module Arith {

  function Abs(x: int): (r: nat)
    ensures r == x || r == -x
  {
    if x < 0 then -x else x
  }

  /** The larger of two values: at least both, and one of them. */
  function Max(a: int, b: int): (r: int)
    ensures r >= a && r >= b
    ensures r == a || r == b
  {
    if a >= b then a else b
  }

  function Sign(x: int): (r: int)
    ensures r * Abs(x) == x
    ensures -1 <= r <= 1
  {
    if x < 0 then -1 else if x == 0 then 0 else 1
  }

  /** Rust's `/` on signed integers: the quotient rounded toward zero. */
  function TruncDiv(a: int, b: int): (q: int)
    requires b != 0
    ensures Abs(q) == Abs(a) / Abs(b)
    ensures (a < 0) == (b < 0) ==> q >= 0
    ensures (a < 0) != (b < 0) ==> q <= 0
  {
    var m := NatDiv(Abs(a), Abs(b));
    if (a < 0) == (b < 0) then m else 0 - m
  }

  function NatDiv(x: nat, y: nat): (m: nat)
    requires y > 0
    ensures m == x / y
  {

    x / y
  }

  /** Rust's `%` on signed integers: the remainder takes the sign of the dividend. */
  function TruncRem(a: int, b: int): (r: int)
    requires b != 0
    ensures a == TruncDiv(a, b) * b + r
    ensures Abs(r) < Abs(b)
    ensures r == 0 || (r > 0 <==> a > 0)
  {
    var r := if a < 0 then -(Abs(a) % Abs(b)) else Abs(a) % Abs(b);
    TruncDivRem(a, b);
    r
  }

  lemma TruncDivRem(a: int, b: int)
    requires b != 0
    ensures a == TruncDiv(a, b) * b + (if a < 0 then -(Abs(a) % Abs(b)) else Abs(a) % Abs(b))
  {
    var q, m := Abs(a) / Abs(b), Abs(a) % Abs(b);
    assert Abs(a) == q * Abs(b) + m;
    if a < 0 && b < 0 {
      assert TruncDiv(a, b) * b == -(q * Abs(b));
    } else if a < 0 {
      assert TruncDiv(a, b) * b == -(q * Abs(b));
    } else if b < 0 {
      assert TruncDiv(a, b) * b == q * Abs(b);
    }
  }

  predicate Divides(d: nat, n: int)
  {
    d > 0 && n % d == 0
  }

  /** Euclidean division is unique: any quotient/remainder pair is the one Dafny computes. */
  lemma DivModUnique(n: int, d: int, q: int, r: int)
    requires d > 0 && 0 <= r < d && n == q * d + r
    ensures n / d == q && n % d == r
  {
    var e := q - n / d;
    assert e * d == n % d - r;
  }

  lemma MultipleDivides(d: nat, k: int)
    requires d > 0
    ensures Divides(d, d * k)
  {
    DivModUnique(d * k, d, k, 0);
  }

  lemma DividesWitness(d: nat, n: int)
    requires Divides(d, n)
    ensures n == d * (n / d)
  {
  }

  lemma DividesSum(d: nat, x: int, y: int, a: int, b: int)
    requires Divides(d, x) && Divides(d, y)
    ensures Divides(d, a * x + b * y)
  {
    var x', y' := x / d, y / d;
    DividesWitness(d, x);
    DividesWitness(d, y);
    assert a * x + b * y == d * (a * x' + b * y');
    MultipleDivides(d, a * x' + b * y');
  }

  lemma DividesTransitive(a: nat, b: nat, c: int)
    requires Divides(a, b) && Divides(b, c)
    ensures Divides(a, c)
  {
    DividesWitness(a, b);
    DividesWitness(b, c);
    assert c == a * ((b / a) * (c / b));
    MultipleDivides(a, (b / a) * (c / b));
  }

  lemma DividesSelf(a: nat)
    ensures a > 0 ==> Divides(a, a) && Divides(a, 0)
  {
    if a > 0 {
      MultipleDivides(a, 1);
      MultipleDivides(a, 0);
    }
  }

  /** Euclid's algorithm. */
  function Gcd(a: nat, b: nat): (g: nat)
    decreases b
    ensures a > 0 || b > 0 ==> Divides(g, a) && Divides(g, b)
    ensures a == 0 && b == 0 ==> g == 0
  {
    if b == 0 then
      DividesSelf(a);
      a
    else
      var g := Gcd(b, a % b);
      assert a == (a / b) * b + 1 * (a % b);
      DividesSum(g, b, a % b, a / b, 1);
      g
  }

  /** Every common divisor divides the greatest one. */
  lemma {:induction false} CommonDivisorDividesGcd(d: nat, a: nat, b: nat)
    requires Divides(d, a) && Divides(d, b)
    requires a > 0 || b > 0
    ensures Divides(d, Gcd(a, b))
    decreases b
  {
    if b > 0 {
      assert a % b == 1 * a + (-(a / b)) * b;
      DividesSum(d, a, b, 1, -(a / b));
      CommonDivisorDividesGcd(d, b, a % b);
    }
  }

  lemma ModScale(a: nat, b: nat, k: nat)
    requires b > 0 && k > 0
    ensures (a * k) % (b * k) == (a % b) * k
  {
    assert a * k == (a / b) * (b * k) + (a % b) * k;
    assert (a % b) * k < b * k;
    DivModUnique(a * k, b * k, a / b, (a % b) * k);
  }

  /** The gcd scales with its arguments. */
  lemma {:induction false} GcdScale(a: nat, b: nat, k: nat)
    ensures Gcd(a * k, b * k) == k * Gcd(a, b)
    decreases b
  {
    if k == 0 {
    } else if b == 0 {
    } else {
      ModScale(a, b, k);
      GcdScale(b, a % b, k);
    }
  }

  /** `num::integer::lcm`: zero when both are zero, otherwise `a * (b / gcd(a, b))`. */
  function Lcm(a: nat, b: nat): nat
  {
    if a == 0 && b == 0 then 0 else a * (b / Gcd(a, b))
  }

  /** The lcm of two positive numbers is a positive common multiple of both ... */
  lemma LcmIsCommonMultiple(a: nat, b: nat)
    requires a > 0 && b > 0
    ensures Lcm(a, b) > 0
    ensures Divides(a, Lcm(a, b)) && Divides(b, Lcm(a, b))
  {
    var g := Gcd(a, b);
    DividesWitness(g, a);
    DividesWitness(g, b);
    var a', b' := a / g, b / g;
    assert b' > 0;
    assert Lcm(a, b) == a * b';
    MultipleDivides(a, b');
    assert a * b' == b * a' by {
      calc {
        a * b';
        (g * a') * b';
        (g * b') * a';
        b * a';
      }
    }
    MultipleDivides(b, a');
  }

  /** Euclid's lemma: a divisor of `x * k` coprime to `x` divides `k`. */
  lemma CoprimeDividesFactor(x: nat, y: nat, k: nat)
    requires y > 0 && Gcd(x, y) == 1 && Divides(y, x * k)
    ensures Divides(y, k)
  {
    if k == 0 {
      MultipleDivides(y, 0);
    } else {
      GcdScale(x, y, k);
      MultipleDivides(y, k);
      assert Divides(y, y * k);
      CommonDivisorDividesGcd(y, x * k, y * k);
    }
  }

  /** Dividing two numbers by their gcd leaves coprime quotients. */
  lemma CoprimeQuotients(a: nat, b: nat)
    requires a > 0 && b > 0
    ensures Gcd(a / Gcd(a, b), b / Gcd(a, b)) == 1
  {
    var g := Gcd(a, b);
    DividesWitness(g, a);
    DividesWitness(g, b);
    var a', b' := a / g, b / g;
    GcdScale(a', b', g);
    assert a' * g == a && b' * g == b;
    CancelFactor(g, Gcd(a', b'), 1);
  }

  lemma MulAssoc(x: int, y: int, z: int)
    ensures x * (y * z) == (x * y) * z
  {
  }

  lemma CancelFactor(g: nat, x: int, y: int)
    requires g > 0 && g * x == g * y
    ensures x == y
  {
    assert g * (x - y) == g * x - g * y;
  }

  /** A common multiple `m == a * k == b * j` of `a == g * a'` and `b == g * b'`
      has `a' * k == b' * j`. */
  lemma CancelGcd(g: nat, a': nat, b': nat, k: nat, j: nat)
    requires g > 0 && (g * a') * k == (g * b') * j
    ensures a' * k == b' * j
  {
    assert g * (a' * k) == g * (b' * j);
  }

  /** ... and it divides every other common multiple, so it is the least one. */
  lemma LcmIsLeast(a: nat, b: nat, m: nat)
    requires a > 0 && b > 0
    requires Divides(a, m) && Divides(b, m)
    ensures Divides(Lcm(a, b), m)
  {
    var g := Gcd(a, b);
    DividesWitness(g, a);
    DividesWitness(g, b);
    var a', b' := a / g, b / g;
    CoprimeQuotients(a, b);
    DividesWitness(a, m);
    DividesWitness(b, m);
    var k: nat, j: nat := m / a, m / b;
    CancelGcd(g, a', b', k, j);
    MultipleDivides(b', j);
    CoprimeDividesFactor(a', b', k);
    DividesWitness(b', k);
    var i := k / b';
    assert Lcm(a, b) == a * b';
    MulAssoc(a, b', i);
    MultipleDivides(a * b', i);
  }
}
