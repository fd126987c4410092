/** Bitwise "and" on natural numbers, and what a mask of adjacent bits selects. */
module Bits {
  import opened Powers

  function And(x: nat, y: nat): nat {
    if x == 0 || y == 0 then 0 else 2 * And(x / 2, y / 2) + (x % 2) * (y % 2)
  }

  lemma AndEven(x: nat, m: nat)
    ensures And(x, 2 * m) == 2 * And(x / 2, m)
  {
    assert (2 * m) / 2 == m && (2 * m) % 2 == 0;
  }

  lemma AndOdd(x: nat, m: nat)
    ensures And(x, 2 * m + 1) == 2 * And(x / 2, m) + x % 2
  {
    assert (2 * m + 1) / 2 == m && (2 * m + 1) % 2 == 1;
  }

  lemma {:induction false} AndLow(x: nat, w: nat)
    ensures And(x, Pow2(w) - 1) == Field(x, w, 0)
    decreases w
  {
    hide Field, And;
    if w == 0 {
      LowEnd(x);
    } else {
      AndLow(x / 2, w - 1);
      AndOdd(x, Pow2(w - 1) - 1);
      LowStep(x, w);
    }
  }

  lemma LowEnd(x: nat)
    ensures Field(x, 0, 0) == 0 == And(x, 0)
  {}

  lemma LowStep(x: nat, w: nat)
    requires w > 0
    ensures Field(x, w, 0) == 2 * Field(x / 2, w - 1, 0) + x % 2
  {
    Halve(x, Pow2(w - 1));
    assert x / 1 == x && x / 2 / 1 == x / 2;
  }

  lemma Halve(x: nat, p: nat)
    requires p > 0
    ensures x % (2 * p) == 2 * (x / 2 % p) + x % 2
    ensures x / 2 / p == x / (2 * p)
  {
    var q, r := x / 2 / p, x / 2 % p;
    assert x / 2 == p * q + r;
    assert x == (2 * p) * q + (2 * r + x % 2);
    Unique(x, 2 * p, q, 2 * r + x % 2);
  }

  lemma Unique(x: nat, d: nat, q: nat, r: nat)
    requires d > 0 && x == d * q + r && r < d
    ensures x / d == q && x % d == r
  {
    var a, b := x / d, x % d;
    assert x == d * a + b && 0 <= b < d;
    assert d * (q - a) == b - r;
    if q > a { Larger(d, q - a); }
    if q < a { Larger(d, a - q); }
  }

  lemma Larger(d: nat, k: int)
    requires k >= 1
    ensures d * k >= d
  {}

  /** w ones above k zeroes. */
  function Mask(w: nat, k: nat): nat {
    Scale(Pow2(w) - 1, k)
  }

  function Scale(f: nat, k: nat): nat {
    if k == 0 then f else 2 * Scale(f, k - 1)
  }

  /** The w bits of x from bit k on. */
  function Field(x: nat, w: nat, k: nat): nat {
    x / Pow2(k) % Pow2(w)
  }

  lemma FieldHalve(x: nat, w: nat, k: nat)
    requires k > 0
    ensures Field(x, w, k) == Field(x / 2, w, k - 1)
  {
    Halve(x, Pow2(k - 1));
  }

  /** A mask of adjacent bits selects a field. */
  lemma {:induction false} AndField(x: nat, w: nat, k: nat)
    ensures And(x, Mask(w, k)) == Scale(Field(x, w, k), k)
    decreases k
  {
    hide And, Field;
    if k == 0 {
      AndLow(x, w);
    } else {
      AndField(x / 2, w, k - 1);
      AndEven(x, Mask(w, k - 1));
      FieldHalve(x, w, k);
    }
  }

  lemma Scaled(f: nat, k: nat)
    ensures Scale(f, k) == f * Pow2(k)
  {}

  /** The same with the powers given, so that they can be numbers. */
  lemma AndMask(x: nat, w: nat, k: nat, pw: nat, pk: nat)
    requires Pow2(w) == pw && Pow2(k) == pk
    ensures And(x, (pw - 1) * pk) == (x / pk % pw) * pk
  {
    hide And, Pow2;
    AndField(x, w, k);
    Scaled(pw - 1, k);
    Scaled(x / pk % pw, k);
  }
}
