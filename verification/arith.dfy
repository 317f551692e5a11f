/** `gcd` and `lcm` of models/view.go, on natural numbers. */
module Arith {

  /** Multiplication behind a name, so that divisibility witnesses are
      matched on this term rather than on every product in a proof. */
  function Mul(k: nat, d: nat): nat {
    k * d
  }

  /** `d` divides `n`. */
  ghost predicate Divides(d: nat, n: nat) {
    exists k: nat :: Mul(k, d) == n
  }

  function Min(a: nat, b: nat): nat {
    if a < b then a else b
  }

  function Max(a: nat, b: nat): nat {
    if a > b then a else b
  }

  /** Euclid's algorithm as the source writes it: stop when the smaller
      argument is zero, otherwise recurse on (larger mod smaller, smaller). */
  function Gcd(a: nat, b: nat): (g: nat)
    ensures Min(a, b) == 0 ==> g == Max(a, b)
    ensures g == 0 <==> a == 0 && b == 0
    decreases a + b
  {
    if Min(a, b) == 0 then Max(a, b)
    else Gcd(Max(a, b) % Min(a, b), Min(a, b))
  }

  lemma DividesSelf(n: nat)
    ensures Divides(n, n)
  {
    assert Mul(1, n) == n;
  }

  lemma DividesZero(d: nat)
    ensures Divides(d, 0)
  {
    assert Mul(0, d) == 0;
  }

  lemma DivMod(n: nat, m: nat)
    requires m > 0
    ensures Mul(n / m, m) + n % m == n
  {
  }

  /** If `g` divides `r` and `m`, it divides `q * m + r`. */
  lemma DividesCombination(g: nat, q: nat, m: nat, r: nat)
    requires Divides(g, r) && Divides(g, m)
    ensures Divides(g, Mul(q, m) + r)
  {
    var kr: nat :| Mul(kr, g) == r;
    var km: nat :| Mul(km, g) == m;
    assert Mul(q * km + kr, g) == Mul(q, m) + r by {
      assert (q * km + kr) * g == q * (km * g) + kr * g;
    }
  }

  /** If `d` divides `n` and `m`, with `q * m <= n`, it divides `n - q * m`. */
  lemma DividesDifference(d: nat, q: nat, m: nat, n: nat)
    requires Divides(d, n) && Divides(d, m) && Mul(q, m) <= n
    ensures Divides(d, n - Mul(q, m))
  {
    var kn: nat :| Mul(kn, d) == n;
    var km: nat :| Mul(km, d) == m;
    if d == 0 {
      DividesZero(d);
    } else {
      var k: int := kn - q * km;
      assert k * d == n - Mul(q, m) by {
        assert (kn - q * km) * d == kn * d - q * (km * d);
      }
      NonNegativeFactor(k, d);
      assert Mul(k, d) == n - Mul(q, m);
    }
  }

  lemma NonNegativeFactor(k: int, d: int)
    requires d > 0 && k * d >= 0
    ensures k >= 0
  {
  }

  /** The result divides both arguments. */
  lemma {:induction false} GcdDividesBoth(a: nat, b: nat)
    ensures Divides(Gcd(a, b), a) && Divides(Gcd(a, b), b)
    decreases a + b
  {
    if Min(a, b) == 0 {
      DividesSelf(Gcd(a, b));
      DividesZero(Gcd(a, b));
    } else {
      var M, m := Max(a, b), Min(a, b);
      assert Gcd(a, b) == Gcd(M % m, m);
      GcdDividesBoth(M % m, m);
      DividesCombination(Gcd(a, b), M / m, m, M % m);
      DivMod(M, m);
    }
  }

  /** Every common divisor divides the result: it is the greatest. */
  lemma {:induction false} GcdIsGreatest(a: nat, b: nat, d: nat)
    requires Divides(d, a) && Divides(d, b)
    ensures Divides(d, Gcd(a, b))
    decreases a + b
  {
    if Min(a, b) != 0 {
      var M, m := Max(a, b), Min(a, b);
      DivMod(M, m);
      DividesDifference(d, M / m, m, M);
      assert Gcd(a, b) == Gcd(M % m, m);
      GcdIsGreatest(M % m, m, d);
    }
  }

  /** Symmetry, and the two degenerate cases. */
  lemma GcdSymmetric(a: nat, b: nat)
    ensures Gcd(a, b) == Gcd(b, a)
    ensures Gcd(a, 0) == a && Gcd(0, b) == b
  {
  }

  /** Bezout coefficients: the result is an integer combination of the
      arguments. */
  lemma {:induction false} Bezout(a: nat, b: nat) returns (x: int, y: int)
    ensures x * a + y * b == Gcd(a, b)
    decreases a + b
  {
    if Min(a, b) == 0 {
      if a >= b { x, y := 1, 0; } else { x, y := 0, 1; }
    } else {
      var M, m := Max(a, b), Min(a, b);
      var q, r := M / m, M % m;
      assert Gcd(a, b) == Gcd(r, m);
      var x', y' := Bezout(r, m);
      DivMod(M, m);
      var cM, cm := x', y' - x' * q;
      BezoutStep(M, m, q, r, x', y', Gcd(a, b));
      if a >= b { x, y := cM, cm; } else { x, y := cm, cM; }
    }
  }

  lemma BezoutStep(M: int, m: int, q: int, r: int, x: int, y: int, g: int)
    requires q * m + r == M
    requires x * r + y * m == g
    ensures x * M + (y - x * q) * m == g
  {
    assert x * M == x * (q * m) + x * r;
    assert (y - x * q) * m == y * m - x * (q * m);
  }

  lemma GcdPositive(a: nat, b: nat)
    requires a > 0 || b > 0
    ensures Gcd(a, b) > 0
  {
  }

  /** One step of the source's `lcm` loop: `a * b / gcd(a, b)`. */
  function Lcm2(a: nat, b: nat): nat
    requires a > 0 || b > 0
  {
    GcdPositive(a, b);
    Quotient(Mul(a, b), Gcd(a, b))
  }

  /** Integer division of naturals. */
  function Quotient(n: nat, d: nat): nat
    requires d > 0
  {
    n / d
  }

  /** With `b == kb * g`, `a * b / g == a * kb`. */
  lemma ExactQuotient(a: nat, kb: nat, g: nat)
    requires g > 0
    ensures (a * (kb * g)) / g == a * kb
  {
    assert a * (kb * g) == (a * kb) * g;
    MultipleQuotient(a * kb, g);
  }

  lemma MultipleQuotient(n: nat, g: nat)
    requires g > 0
    ensures (n * g) / g == n
  {
    var q, r := (n * g) / g, (n * g) % g;
    assert q * g + r == n * g;
    assert (n - q) * g == r;
    SmallMultipleIsZero(n - q, g, r);
  }

  lemma SmallMultipleIsZero(k: int, g: int, r: int)
    requires g > 0 && 0 <= r < g && k * g == r
    ensures k == 0
  {
  }

  /** For positive arguments, `Lcm2` is a positive common multiple that
      divides every common multiple. */
  lemma Lcm2IsLeastCommonMultiple(a: nat, b: nat)
    requires a > 0 && b > 0
    ensures Lcm2(a, b) > 0
    ensures Divides(a, Lcm2(a, b)) && Divides(b, Lcm2(a, b))
    ensures forall m: nat :: Divides(a, m) && Divides(b, m) ==> Divides(Lcm2(a, b), m)
  {
    var g := Gcd(a, b);
    GcdPositive(a, b);
    GcdDividesBoth(a, b);
    var ka: nat :| Mul(ka, g) == a;
    var kb: nat :| Mul(kb, g) == b;
    ExactQuotient(a, kb, g);
    var l := Lcm2(a, b);
    assert l == a * kb;
    LcmWitnesses(a, b, g, ka, kb);
    assert Mul(kb, a) == l;
    assert Mul(ka, b) == l;
    forall m: nat | Divides(a, m) && Divides(b, m)
      ensures Divides(l, m)
    {
      LcmDividesCommonMultiple(a, b, m);
    }
  }

  lemma LcmWitnesses(a: nat, b: nat, g: nat, ka: nat, kb: nat)
    requires a > 0 && b > 0 && g > 0 && ka * g == a && kb * g == b
    ensures a * kb > 0
    ensures kb * a == a * kb && ka * b == a * kb
  {
    assert (ka * g) * kb == ka * (kb * g);
  }

  lemma LcmDividesCommonMultiple(a: nat, b: nat, m: nat)
    requires a > 0 && b > 0
    requires Divides(a, m) && Divides(b, m)
    ensures Divides(Lcm2(a, b), m)
  {
    var g := Gcd(a, b);
    GcdPositive(a, b);
    GcdDividesBoth(a, b);
    var kb: nat :| Mul(kb, g) == b;
    ExactQuotient(a, kb, g);
    var l := Lcm2(a, b);
    assert l == a * kb;
    var p: nat :| Mul(p, a) == m;
    var q: nat :| Mul(q, b) == m;
    var x, y := Bezout(a, b);
    var t := q * x + p * y;
    CommonMultipleStep(a, b, g, kb, m, p, q, x, y);
    assert m * g == (l * t) * g;
    CancelFactor(m, l * t, g);
    NonNegativeFactor(t, l);
    assert Mul(t, l) == m;
  }

  /** `m * g == (a * kb) * (q * x + p * y) * g` when `m == p * a == q * b`,
      `b == kb * g` and `x * a + y * b == g`. */
  lemma CommonMultipleStep(a: int, b: int, g: int, kb: int, m: int, p: int, q: int, x: int, y: int)
    requires b == kb * g && m == p * a && m == q * b && x * a + y * b == g
    ensures m * g == ((a * kb) * (q * x + p * y)) * g
  {
    var t := q * x + p * y;
    Distribute(m, x * a, y * b);
    Regroup(q, b, x, a);
    Regroup(p, a, y, b);
    assert b * a == a * b;
    Distribute(a * b, q * x, p * y);
    assert m * g == (a * b) * t;
    Regroup3(a, kb, g, t);
  }

  lemma Distribute(m: int, u: int, v: int)
    ensures m * (u + v) == m * u + m * v
  {
  }

  lemma Regroup(u: int, v: int, w: int, z: int)
    ensures (u * v) * (w * z) == (z * v) * (u * w)
  {
  }

  lemma Regroup3(a: int, k: int, g: int, t: int)
    ensures (a * (k * g)) * t == ((a * k) * t) * g
  {
  }

  lemma CancelFactor(x: int, y: int, g: int)
    requires g > 0 && x * g == y * g
    ensures x == y
  {
    assert (x - y) * g == 0;
  }

  lemma DividesTransitive(a: nat, b: nat, c: nat)
    requires Divides(a, b) && Divides(b, c)
    ensures Divides(a, c)
  {
    var k1: nat :| Mul(k1, a) == b;
    var k2: nat :| Mul(k2, b) == c;
    assert Mul(k2 * k1, a) == c by {
      assert k2 * (k1 * a) == (k2 * k1) * a;
    }
  }

  /** A step of the loop is zero exactly when one argument is. */
  lemma Lcm2Zero(a: nat, b: nat)
    requires a > 0 || b > 0
    ensures Lcm2(a, b) == 0 <==> a == 0 || b == 0
  {
    if a > 0 && b > 0 {
      Lcm2IsLeastCommonMultiple(a, b);
    } else {
      GcdPositive(a, b);
      assert a * b == 0;
    }
  }

  /** No two elements are zero: the source divides by `gcd(arr[i], ans)`,
      which is zero once a second zero meets an accumulator made zero by
      the first. */
  predicate AtMostOneZero(arr: seq<nat>) {
    forall i, j :: 0 <= i < j < |arr| ==> arr[i] > 0 || arr[j] > 0
  }

  predicate AllPositive(arr: seq<nat>) {
    forall i :: 0 <= i < |arr| ==> arr[i] > 0
  }

  /** The loop of `lcm` from accumulator `acc` over the remaining elements. */
  function LcmFrom(acc: nat, rest: seq<nat>): (r: nat)
    requires AtMostOneZero(rest)
    requires acc > 0 || AllPositive(rest)
    ensures r == 0 <==> acc == 0 || exists k :: 0 <= k < |rest| && rest[k] == 0
    decreases |rest|
  {
    if rest == [] then acc
    else
      Lcm2Zero(rest[0], acc);
      var next := Lcm2(rest[0], acc);
      assert AtMostOneZero(rest[1..]) by {
        forall i, j | 0 <= i < j < |rest[1..]| ensures rest[1..][i] > 0 || rest[1..][j] > 0 {
          assert rest[1..][i] == rest[i + 1] && rest[1..][j] == rest[j + 1];
        }
      }
      assert next > 0 || AllPositive(rest[1..]) by {
        if next == 0 {
          forall k | 0 <= k < |rest[1..]| ensures rest[1..][k] > 0 {
            assert rest[1..][k] == rest[k + 1];
          }
        }
      }
      var r := LcmFrom(next, rest[1..]);
      assert (exists k :: 0 <= k < |rest| && rest[k] == 0) <==>
        rest[0] == 0 || exists k :: 0 <= k < |rest[1..]| && rest[1..][k] == 0 by {
        if exists k :: 0 <= k < |rest| && rest[k] == 0 {
          var k :| 0 <= k < |rest| && rest[k] == 0;
          if k > 0 { assert rest[1..][k - 1] == 0; }
        }
      }
      r
  }

  /** `lcm`: 0 for an empty list, otherwise the loop started at the first
      element. */
  function Lcm(arr: seq<nat>): (r: nat)
    requires AtMostOneZero(arr)
    ensures arr == [] ==> r == 0
    ensures r == 0 <==> arr == [] || exists k :: 0 <= k < |arr| && arr[k] == 0
  {
    if |arr| == 0 then 0
    else
      assert AtMostOneZero(arr[1..]) by {
        forall i, j | 0 <= i < j < |arr[1..]| ensures arr[1..][i] > 0 || arr[1..][j] > 0 {
          assert arr[1..][i] == arr[i + 1] && arr[1..][j] == arr[j + 1];
        }
      }
      assert arr[0] > 0 || AllPositive(arr[1..]) by {
        if arr[0] == 0 {
          forall k | 0 <= k < |arr[1..]| ensures arr[1..][k] > 0 {
            assert arr[1..][k] == arr[k + 1];
          }
        }
      }
      var r := LcmFrom(arr[0], arr[1..]);
      assert (exists k :: 0 <= k < |arr| && arr[k] == 0) <==>
        arr[0] == 0 || exists k :: 0 <= k < |arr[1..]| && arr[1..][k] == 0 by {
        if exists k :: 0 <= k < |arr| && arr[k] == 0 {
          var k :| 0 <= k < |arr| && arr[k] == 0;
          if k > 0 { assert arr[1..][k - 1] == 0; }
        }
      }
      r
  }

  /** From a positive accumulator over positive elements the loop yields a
      multiple of the accumulator and of every element, and a divisor of
      every such common multiple. */
  lemma {:induction false} LcmFromIsLeastCommonMultiple(acc: nat, rest: seq<nat>)
    requires acc > 0 && AllPositive(rest)
    ensures Divides(acc, LcmFrom(acc, rest))
    ensures forall k :: 0 <= k < |rest| ==> Divides(rest[k], LcmFrom(acc, rest))
    ensures forall m: nat :: Divides(acc, m) && (forall k :: 0 <= k < |rest| ==> Divides(rest[k], m)) ==>
      Divides(LcmFrom(acc, rest), m)
    decreases |rest|
  {
    if rest == [] {
      DividesSelf(acc);
    } else {
      var next := Lcm2(rest[0], acc);
      var tail := rest[1..];
      Lcm2IsLeastCommonMultiple(rest[0], acc);
      assert AllPositive(tail);
      LcmFromIsLeastCommonMultiple(next, tail);
      var r := LcmFrom(next, tail);
      assert LcmFrom(acc, rest) == r;
      DividesTransitive(acc, next, r);
      forall k | 0 <= k < |rest| ensures Divides(rest[k], r) {
        if k == 0 {
          DividesTransitive(rest[0], next, r);
        } else {
          assert rest[k] == tail[k - 1];
        }
      }
      forall m: nat | Divides(acc, m) && (forall k :: 0 <= k < |rest| ==> Divides(rest[k], m))
        ensures Divides(r, m)
      {
        LcmFromStep(acc, rest, next, m);
      }
    }
  }

  lemma LcmFromStep(acc: nat, rest: seq<nat>, next: nat, m: nat)
    requires acc > 0 && |rest| > 0 && rest[0] > 0 && next == Lcm2(rest[0], acc)
    requires Divides(acc, m) && forall k :: 0 <= k < |rest| ==> Divides(rest[k], m)
    ensures Divides(next, m)
    ensures forall k :: 0 <= k < |rest[1..]| ==> Divides(rest[1..][k], m)
  {
    Lcm2IsLeastCommonMultiple(rest[0], acc);
    forall k | 0 <= k < |rest[1..]| ensures Divides(rest[1..][k], m) {
      assert rest[1..][k] == rest[k + 1];
    }
  }

  /** For positive elements, `lcm` is a positive common multiple of every
      element and divides every common multiple: the least one. */
  lemma LcmIsLeastCommonMultiple(arr: seq<nat>)
    requires |arr| > 0 && AllPositive(arr)
    ensures Lcm(arr) > 0
    ensures forall k :: 0 <= k < |arr| ==> Divides(arr[k], Lcm(arr))
    ensures forall m: nat :: (forall k :: 0 <= k < |arr| ==> Divides(arr[k], m)) ==> Divides(Lcm(arr), m)
  {
    assert AllPositive(arr[1..]);
    LcmFromIsLeastCommonMultiple(arr[0], arr[1..]);
    forall k | 0 <= k < |arr| ensures Divides(arr[k], Lcm(arr)) {
      if k > 0 { assert arr[k] == arr[1..][k - 1]; }
    }
    forall m: nat | (forall k :: 0 <= k < |arr| ==> Divides(arr[k], m))
      ensures Divides(Lcm(arr), m)
    {
      forall k | 0 <= k < |arr[1..]| ensures Divides(arr[1..][k], m) {
        assert arr[1..][k] == arr[k + 1];
      }
    }
  }

  /** One element after the accumulator: one more `Lcm2` step. */
  lemma LcmFromOne(acc: nat, z: nat)
    requires acc > 0 && z > 0
    ensures LcmFrom(acc, [z]) == Lcm2(z, acc)
  {
    assert [z][1..] == [];
  }

  /** Three positive elements are folded left to right, pair by pair. */
  lemma LcmOfThree(arr: seq<nat>)
    requires |arr| == 3 && arr[0] > 0 && arr[1] > 0 && arr[2] > 0
    ensures Lcm(arr) == Lcm2(arr[2], Lcm2(arr[1], arr[0]))
  {
    assert AllPositive(arr);
    assert arr[1..][1..] == [arr[2]];
    Lcm2Zero(arr[1], arr[0]);
    LcmFromOne(Lcm2(arr[1], arr[0]), arr[2]);
  }

  /** The source's unit-test values: `lcm([1, 2, 3]) == 6` ... */
  lemma LcmOfOneTwoThree()
    ensures Lcm([1, 2, 3]) == 6
  {
    assert Lcm2(2, 1) == 2;
    Lcm2OfThreeAndTwo();
    LcmOfThree([1, 2, 3]);
  }

  /** ... and `lcm([2, 3, 4]) == 12`. */
  lemma LcmOfTwoThreeFour()
    ensures Lcm([2, 3, 4]) == 12
  {
    Lcm2OfThreeAndTwo();
    Lcm2OfFourAndSix();
    LcmOfThree([2, 3, 4]);
  }

  lemma Lcm2OfThreeAndTwo()
    ensures Lcm2(3, 2) == 6
  {
    assert Gcd(3, 2) == Gcd(1, 2);
  }

  lemma Lcm2OfFourAndSix()
    ensures Lcm2(4, 6) == 12
  {
    assert Gcd(4, 6) == Gcd(2, 4);
    assert Gcd(2, 4) == Gcd(0, 2);
  }
}
