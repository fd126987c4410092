/** lib/drand48.c: a 48-bit linear congruential generator on three 16-bit limbs. */
module Drand48 {

  type limb = x: int | 0 <= x < 0x1_0000

  const C := 0xB

  function Value(x0: int, x1: int, x2: int): int {
    x0 + 0x1_0000 * x1 + 0x1_0000_0000 * x2
  }

  /** The recurrence X' = a X + c mod 2^48. */
  function Step(x: int): int {
    (0x5_DEEC_E66D * x + 0xB) % 0x1_0000_0000_0000
  }

  function Iterate(x: int, n: nat): int {
    if n == 0 then x else Step(Iterate(x, n - 1))
  }

  function Low(x: int): limb { x % 0x1_0000 }
  function High(x: int): limb { x / 0x1_0000 % 0x1_0000 }

  /** CARRY and ADDEQU. */
  function Carry(x: int, y: int): int { if x + y > 0xFFFF then 1 else 0 }

  lemma Halves(x: int)
    requires 0 <= x < 0x1_0000_0000
    ensures x == Low(x) + 0x1_0000 * High(x)
  {}

  lemma AddEq(x: int, y: int)
    requires 0 <= x <= 0xFFFF && 0 <= y <= 0xFFFF
    ensures x + y == Low(x + y) + 0x1_0000 * Carry(x, y)
  {}

  /** Three limbs are the value modulo 2^48, whatever is lost from the top. */
  lemma Assembled(total: int, y0: limb, y1: limb, top: int)
    requires total == y0 + 0x1_0000 * y1 + 0x1_0000_0000 * top
    ensures Value(y0, y1, Low(top)) == total % 0x1_0000_0000_0000
  {
    var k := top / 0x1_0000;
    assert top == 0x1_0000 * k + Low(top);
    assert total == 0x1_0000_0000_0000 * k + Value(y0, y1, Low(top));
  }

  class Generator {
    var x0: limb
    var x1: limb
    var x2: limb

    ghost function State(): int
      reads this
    {
      Value(x0, x1, x2)
    }

    constructor ()
      ensures State() == 0x1234_ABCD_330E
    {
      x0, x1, x2 := 0x330E, 0xABCD, 0x1234;
    }

    /** next, limb by limb. The sum for x[2] is cut to 32 bits and then to 16. */
    method Next()
      modifies this
      ensures State() == Step(old(State()))
    {
      hide Low, High, Carry, Step, Value;
      var a: int, b: int, c: int := x0, x1, x2;
      var m00, m01, m10, rest := 0xE66D * a, 0xE66D * b, 0xDEEC * a, 0xE66D * c + 0xDEEC * b + 5 * a;
      var p0: int, p1: int := Low(m00), High(m00);
      var carry0 := Carry(p0, C);
      var y0 := Low(p0 + C);
      var carry1 := Carry(p1, carry0);
      var p1c: int := Low(p1 + carry0);
      var q0: int, q1: int := Low(m01), High(m01);
      var carry2 := Carry(p1c, q0);
      var p1q: int := Low(p1c + q0);
      var r0: int, r1: int := Low(m10), High(m10);
      var top := carry2 + carry1 + Carry(p1q, r0) + q1 + r1 + rest;
      Sums(m00, m01, m10, rest, p1, p1c, p1q, top);
      NextIs(x0, x1, x2, y0, Low(p1q + r0), top);
      LowCut(top);
      x2 := Low(top % 0x1_0000_0000);
      x1 := Low(p1q + r0);
      x0 := y0;
    }
  }

  /** The carries make up for what the limbs cut off. */
  lemma Sums(m00: int, m01: int, m10: int, rest: int, p1: int, p1c: int, p1q: int, top: int)
    requires 0 <= m00 < 0x1_0000_0000 && 0 <= m01 < 0x1_0000_0000 && 0 <= m10 < 0x1_0000_0000
    requires p1 == High(m00) && p1c == Low(p1 + Carry(Low(m00), C)) && p1q == Low(p1c + Low(m01))
    requires top == Carry(p1c, Low(m01)) + Carry(p1, Carry(Low(m00), C)) + Carry(p1q, Low(m10)) + High(m01) + High(m10) + rest
    ensures m00 + C + 0x1_0000 * (m01 + m10) + 0x1_0000_0000 * rest
         == Low(Low(m00) + C) + 0x1_0000 * Low(p1q + Low(m10)) + 0x1_0000_0000 * top
  {
    hide Low, High, Carry;
    Halves(m00);
    Halves(m01);
    Halves(m10);
    CarryIs(Low(m00), C);
    AddEq(Low(m00), C);
    AddEq(p1, Carry(Low(m00), C));
    AddEq(p1c, Low(m01));
    AddEq(p1q, Low(m10));
  }

  lemma NextIs(x0: limb, x1: limb, x2: limb, y0: limb, y1: limb, top: int)
    requires 0xE66D * x0 + C + 0x1_0000 * (0xE66D * x1 + 0xDEEC * x0) + 0x1_0000_0000 * (0xE66D * x2 + 0xDEEC * x1 + 5 * x0)
          == y0 + 0x1_0000 * y1 + 0x1_0000_0000 * top
    ensures Value(y0, y1, Low(top)) == Step(Value(x0, x1, x2))
  {
    hide Low, Value, Step;
    var total := y0 + 0x1_0000 * y1 + 0x1_0000_0000 * top;
    Assembled(total, y0, y1, top);
    Product(x0, x1, x2);
    StepIs(Value(x0, x1, x2), total, 0xDEEC * x2 + 5 * x1 + 0x1_0000 * (5 * x2));
  }

  lemma CarryIs(x: int, y: int)
    ensures 0 <= Carry(x, y) <= 1
  {}

  lemma LowCut(x: int)
    ensures Low(x % 0x1_0000_0000) == Low(x)
  {
    var y := x % 0x1_0000_0000;
    Multiple(y, 0x1_0000 * (x / 0x1_0000_0000));
  }

  lemma Multiple(y: int, m: int)
    ensures (y + 0x1_0000 * m) % 0x1_0000 == y % 0x1_0000
  {}

  /** The full product, by limbs. */
  lemma Product(x0: int, x1: int, x2: int)
    ensures 0x5_DEEC_E66D * Value(x0, x1, x2) + 0xB ==
              0xE66D * x0 + C + 0x1_0000 * (0xE66D * x1 + 0xDEEC * x0) + 0x1_0000_0000 * (0xE66D * x2 + 0xDEEC * x1 + 5 * x0)
              + 0x1_0000_0000_0000 * (0xDEEC * x2 + 5 * x1 + 0x1_0000 * (5 * x2))
  {}

  lemma StepIs(x: int, total: int, k: int)
    requires 0x5_DEEC_E66D * x + 0xB == total + 0x1_0000_0000_0000 * k
    ensures Step(x) == total % 0x1_0000_0000_0000
  {
    Overflow(total, k);
  }

  lemma Overflow(total: int, k: int)
    ensures (total + 0x1_0000_0000_0000 * k) % 0x1_0000_0000_0000 == total % 0x1_0000_0000_0000
  {}

  /** After n calls the state is the n-th iterate, a 48-bit number throughout. */
  method Run(n: nat) returns (g: Generator)
    ensures g.State() == Iterate(0x1234_ABCD_330E, n)
  {
    g := new Generator();
    var i := 0;
    while i < n
      invariant 0 <= i <= n && g.State() == Iterate(0x1234_ABCD_330E, i) && fresh(g)
    {
      g.Next();
      i := i + 1;
    }
  }
}
