// Exclusive or on natural numbers, bit by bit.
module Xors {
  import opened Bytes

  function Xor(a: nat, b: nat): nat
    decreases a + b
  {
    if a == 0 && b == 0 then 0 else (if a % 2 == b % 2 then 0 else 1) + 2 * Xor(a / 2, b / 2)
  }

  lemma {:induction false} XorZero(a: nat)
    ensures Xor(a, 0) == a && Xor(0, a) == a
  {
    if a > 0 {
      XorZero(a / 2);
    }
  }

  lemma {:induction false} XorSelf(a: nat)
    ensures Xor(a, a) == 0
  {
    if a > 0 {
      XorSelf(a / 2);
    }
  }

  lemma {:induction false} XorComm(a: nat, b: nat)
    ensures Xor(a, b) == Xor(b, a)
    decreases a + b
  {
    if a + b > 0 {
      XorComm(a / 2, b / 2);
    }
  }

  lemma {:induction false} XorAssoc(a: nat, b: nat, c: nat)
    ensures Xor(Xor(a, b), c) == Xor(a, Xor(b, c))
    decreases a + b + c
  {
    if a + b + c > 0 {
      var l, r := Xor(a, b), Xor(b, c);
      XorHalf(a, b);
      XorHalf(b, c);
      XorAssoc(a / 2, b / 2, c / 2);
      ParityAssoc(a, b, c, l, r);
      XorOfHalves(l, c, a, r);
    }
  }

  lemma ParityAssoc(a: nat, b: nat, c: nat, l: nat, r: nat)
    requires l % 2 == if a % 2 == b % 2 then 0 else 1
    requires r % 2 == if b % 2 == c % 2 then 0 else 1
    ensures (l % 2 == c % 2) == (a % 2 == r % 2)
  {}

  lemma XorOfHalves(l: nat, c: nat, a: nat, r: nat)
    requires Xor(l / 2, c / 2) == Xor(a / 2, r / 2)
    requires (l % 2 == c % 2) == (a % 2 == r % 2)
    ensures Xor(l, c) == Xor(a, r)
  {
    hide Xor;
    XorHalf(l, c);
    XorHalf(a, r);
  }

  lemma XorHalf(a: nat, b: nat)
    ensures Xor(a, b) / 2 == Xor(a / 2, b / 2)
    ensures Xor(a, b) % 2 == if a % 2 == b % 2 then 0 else 1
  {}

  lemma {:induction false} XorZeroOnly(a: nat, b: nat)
    requires Xor(a, b) == 0
    ensures a == b
    decreases a + b
  {
    if a + b > 0 {
      XorHalf(a, b);
      XorZeroOnly(a / 2, b / 2);
    }
  }

  lemma {:induction false} XorBound(a: nat, b: nat, n: nat)
    requires a < Pow2(n) && b < Pow2(n)
    ensures Xor(a, b) < Pow2(n)
    decreases n
  {
    if n > 0 {
      XorBound(a / 2, b / 2, n - 1);
    }
  }

  // Numbers without a common bit are added.
  lemma {:induction false} XorDisjoint(h: nat, l: nat, n: nat)
    requires l < Pow2(n)
    ensures Xor(Pow2(n) * h, l) == Pow2(n) * h + l
  {
    if n == 0 {
      XorZero(h);
    } else {
      var p := Pow2(n - 1) * h;
      assert Pow2(n) * h == 2 * p;
      XorDisjoint(h, l / 2, n - 1);
      Doubled(p, l);
      XorHalf(2 * p, l);
    }
  }

  lemma Doubled(p: nat, l: nat)
    ensures 2 * p / 2 == p && (2 * p) % 2 == 0
    ensures p + l / 2 == (2 * p + l) / 2 && (2 * p + l) % 2 == l % 2
  {}

  // Xor with the same number on both sides cancels out.
  lemma XorCancel(a: nat, b: nat, c: nat)
    ensures Xor(Xor(a, c), Xor(b, c)) == Xor(a, b)
  {
    hide Xor;
    XorAssoc(a, c, Xor(b, c));
    XorComm(b, c);
    XorAssoc(c, c, b);
    XorSelf(c);
    XorZero(b);
  }

  lemma {:induction false} XorScaled(a: nat, b: nat, n: nat)
    ensures Xor(Pow2(n) * a, Pow2(n) * b) == Pow2(n) * Xor(a, b)
  {
    if n > 0 {
      XorScaled(a, b, n - 1);
      XorDoubled(Pow2(n - 1) * a, Pow2(n - 1) * b);
      Double(Pow2(n - 1), a);
      Double(Pow2(n - 1), b);
      Double(Pow2(n - 1), Xor(a, b));
    }
  }

  lemma Double(p: nat, a: nat)
    ensures 2 * (p * a) == (2 * p) * a
  {}

  lemma XorDoubled(p: nat, q: nat)
    ensures Xor(2 * p, 2 * q) == 2 * Xor(p, q)
  {
    XorHalf(2 * p, 2 * q);
    assert (2 * p) / 2 == p && (2 * q) / 2 == q;
  }

  // Exclusive or with a power of two flips one bit.
  lemma XorPow2(x: nat, h: nat, l: nat, p: nat, n: nat)
    requires p == Pow2(n) && x == p * h + l && l < p
    ensures Xor(x, p) == if h % 2 == 1 then x - p else x + p
  {
    hide Xor;
    XorDisjoint(h, l, n);
    XorAssoc(p * h, l, p);
    XorComm(l, p);
    XorAssoc(p * h, p, l);
    XorScaled(h, 1, n);
    XorOne(h);
    XorDisjoint(Xor(h, 1), l, n);
    Distribute(p, h);
  }

  lemma Distribute(p: nat, q: nat)
    ensures p * (q + 1) == p * q + p
    ensures p * (q - 1) == p * q - p
  {}

  lemma XorOne(h: nat)
    ensures Xor(h, 1) == if h % 2 == 1 then h - 1 else h + 1
  {
    XorZero(h / 2);
  }
}
