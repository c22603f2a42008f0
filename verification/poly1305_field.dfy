/** One step of the polynomial evaluation of Poly1305: (h + c) * r modulo 2^130 - 5, with delayed carries. */
module Poly1305Field {
  import opened Arith
  import opened Limbs

  /** 2^130 - 5. */
  function P130(): (p: nat)
    ensures p > 0
  {
    0x3_ffffffff_ffffffff_ffffffff_fffffffb
  }

  lemma PrimeIs()
    ensures 4 * Pw(4) == P130() + 5
  {
  }

  /** The number with the given digits to the base 2^32, each of any size. */
  function V(a0: int, a1: int, a2: int, a3: int, a4: int): int {
    a0 + Prod(a1, Pw(1)) + Prod(a2, Pw(2)) + Prod(a3, Pw(3)) + Prod(a4, Pw(4))
  }

  lemma VScale(s: int, a0: int, a1: int, a2: int, a3: int, a4: int)
    ensures s * V(a0, a1, a2, a3, a4) == V(s * a0, s * a1, s * a2, s * a3, s * a4)
  {
  }

  lemma VAdd(a0: int, a1: int, a2: int, a3: int, a4: int, b0: int, b1: int, b2: int, b3: int, b4: int)
    ensures V(a0, a1, a2, a3, a4) + V(b0, b1, b2, b3, b4) == V(a0 + b0, a1 + b1, a2 + b2, a3 + b3, a4 + b4)
  {
  }

  /** Moving a carry from one digit to the next. */
  lemma Carry0(l: int, g: int, a1: int, a2: int, a3: int, a4: int)
    ensures V(l + BASE * g, a1, a2, a3, a4) == V(l, a1 + g, a2, a3, a4)
  {
  }

  lemma Carry1(a0: int, l: int, g: int, a2: int, a3: int, a4: int)
    ensures V(a0, l + BASE * g, a2, a3, a4) == V(a0, l, a2 + g, a3, a4)
  {
  }

  lemma Carry2(a0: int, a1: int, l: int, g: int, a3: int, a4: int)
    ensures V(a0, a1, l + BASE * g, a3, a4) == V(a0, a1, l, a3 + g, a4)
  {
  }

  lemma Carry3(a0: int, a1: int, a2: int, l: int, g: int, a4: int)
    ensures V(a0, a1, a2, l + BASE * g, a4) == V(a0, a1, a2, l, a4 + g)
  {
  }

  /** Four times the fifth weight is worth five. */
  lemma Fold(a0: int, a1: int, a2: int, a3: int, t: int, q: int)
    ensures Cong(V(a0, a1, a2, a3, t + 4 * q), V(a0 + 5 * q, a1, a2, a3, t), P130())
  {
  }

  /** Multiplying by the base shifts the digits, and what leaves at the top comes back at the bottom. */
  lemma Shift(a0: int, a1: int, a2: int, t: int, q: int)
    ensures Cong(Pw(1) * V(a0, a1, a2, t + 4 * q, 0), V(5 * q, a0, a1, a2, t), P130())
  {
    Shifted(a0, a1, a2, t + 4 * q);
    hide V, Pw;
    Fold(0, a0, a1, a2, t, q);
  }

  lemma Shifted(a0: int, a1: int, a2: int, a3: int)
    ensures Pw(1) * V(a0, a1, a2, a3, 0) == V(0, a0, a1, a2, a3)
  {
  }

  /** The rows of the product: what each power of the base times r is congruent to. */
  lemma Rows(t: int, q0: int, q1: int, q2: int, q3: int)
    ensures var r0, r1, r2, r3 := t + 4 * q0, 4 * q1, 4 * q2, 4 * q3; var r := V(r0, r1, r2, r3, 0);
            && Cong(Pw(1) * r, V(5 * q3, r0, r1, r2, 0), P130())
            && Cong(Pw(2) * r, V(5 * q2, 5 * q3, r0, r1, 0), P130())
            && Cong(Pw(3) * r, V(5 * q1, 5 * q2, 5 * q3, r0, 0), P130())
            && Cong(Pw(4) * r, V(5 * q0, 5 * q1, 5 * q2, 5 * q3, t), P130())
  {
    hide *;
    var r0, r1, r2, r3 := t + 4 * q0, 4 * q1, 4 * q2, 4 * q3;
    var r := V(r0, r1, r2, r3, 0);
    Shift(r0, r1, r2, 0, q3);
    Shift(5 * q3, r0, r1, 0, q2);
    Shift(5 * q2, 5 * q3, r0, 0, q1);
    Shift(5 * q1, 5 * q2, 5 * q3, t, q0);
    assert 0 + 4 * q3 == r3 && 0 + 4 * q2 == r2 && 0 + 4 * q1 == r1;
    OnePower(1, r, V(5 * q3, r0, r1, r2, 0), V(5 * q2, 5 * q3, r0, r1, 0));
    OnePower(2, r, V(5 * q2, 5 * q3, r0, r1, 0), V(5 * q1, 5 * q2, 5 * q3, r0, 0));
    OnePower(3, r, V(5 * q1, 5 * q2, 5 * q3, r0, 0), V(5 * q0, 5 * q1, 5 * q2, 5 * q3, t));
  }

  lemma OnePower(i: nat, r: int, a: int, b: int)
    requires Cong(Pw(i) * r, a, P130()) && Cong(Pw(1) * a, b, P130())
    ensures Cong(Pw(i + 1) * r, b, P130())
  {
    hide *;
    PwAdd(1, i);
    MulAssoc(Pw(1), Pw(i), r);
    CongRefl(Pw(1), P130());
    CongMul(Pw(1), Pw(1), Pw(i) * r, a, P130());
    CongTrans(Pw(i + 1) * r, Pw(1) * a, b, P130());
  }

  /** A number times r, digit by digit. */
  lemma DigitTimes(s0: int, s1: int, s2: int, s3: int, s4: int, r: int)
    ensures V(s0, s1, s2, s3, s4) * r == s0 * r + s1 * (Pw(1) * r) + s2 * (Pw(2) * r) + s3 * (Pw(3) * r) + s4 * (Pw(4) * r)
  {
  }

  lemma ScaledCong(s: int, a: int, b: int, c: int, d: int)
    requires Cong(a, b, P130()) && Cong(c, d, P130())
    ensures Cong(c + s * a, d + s * b, P130())
  {
    hide *;
    CongRefl(s, P130());
    CongMul(s, s, a, b, P130());
    CongAdd(c, d, s * a, s * b, P130());
  }

  /** The rows in terms of the multipliers that the source prepares. */
  ghost predicate Prepared(r0: int, r1: int, r2: int, r3: int, rr0: int, rr1: int, rr2: int, rr3: int, rr4: int) {
    var r := V(r0, r1, r2, r3, 0);
    && Cong(Pw(1) * r, V(rr3, r0, r1, r2, 0), P130()) && Cong(Pw(2) * r, V(rr2, rr3, r0, r1, 0), P130())
    && Cong(Pw(3) * r, V(rr1, rr2, rr3, r0, 0), P130()) && Cong(Pw(4) * r, V(rr0, rr1, rr2, rr3, rr4), P130())
  }

  lemma Prepare(r0: nat, r1: nat, r2: nat, r3: nat)
    requires r1 % 4 == 0 && r2 % 4 == 0 && r3 % 4 == 0
    ensures Prepared(r0, r1, r2, r3, (r0 / 4) * 5, r1 / 4 + r1, r2 / 4 + r2, r3 / 4 + r3, r0 % 4)
  {
    Rows(r0 % 4, r0 / 4, r1 / 4, r2 / 4, r3 / 4);
    hide V, Pw, P130, Cong;
  }

  /** The five sums of products that the source computes are the product, modulo 2^130 - 5. */
  lemma Product(s0: int, s1: int, s2: int, s3: int, s4: int,
                r0: int, r1: int, r2: int, r3: int, rr0: int, rr1: int, rr2: int, rr3: int, rr4: int)
    requires Prepared(r0, r1, r2, r3, rr0, rr1, rr2, rr3, rr4)
    ensures Cong(V(s0, s1, s2, s3, s4) * V(r0, r1, r2, r3, 0),
                 V(s0 * r0 + s1 * rr3 + s2 * rr2 + s3 * rr1 + s4 * rr0,
                   s0 * r1 + s1 * r0 + s2 * rr3 + s3 * rr2 + s4 * rr1,
                   s0 * r2 + s1 * r1 + s2 * r0 + s3 * rr3 + s4 * rr2,
                   s0 * r3 + s1 * r2 + s2 * r1 + s3 * r0 + s4 * rr3,
                   s4 * rr4), P130())
  {
    hide *;
    var r := V(r0, r1, r2, r3, 0);
    DigitTimes(s0, s1, s2, s3, s4, r);
    var a1, a2 := V(rr3, r0, r1, r2, 0), V(rr2, rr3, r0, r1, 0);
    var a3, a4 := V(rr1, rr2, rr3, r0, 0), V(rr0, rr1, rr2, rr3, rr4);
    SumOfRows(s0, s1, s2, s3, s4, r, Pw(1) * r, Pw(2) * r, Pw(3) * r, Pw(4) * r, a1, a2, a3, a4) by {
      RowsOf(r0, r1, r2, r3, rr0, rr1, rr2, rr3, rr4);
    }
    VScale(s0, r0, r1, r2, r3, 0);
    VScale(s1, rr3, r0, r1, r2, 0);
    VScale(s2, rr2, rr3, r0, r1, 0);
    VScale(s3, rr1, rr2, rr3, r0, 0);
    VScale(s4, rr0, rr1, rr2, rr3, rr4);
    FiveRows(s0 * r0, s0 * r1, s0 * r2, s0 * r3, s0 * 0, s1 * rr3, s1 * r0, s1 * r1, s1 * r2, s1 * 0,
             s2 * rr2, s2 * rr3, s2 * r0, s2 * r1, s2 * 0, s3 * rr1, s3 * rr2, s3 * rr3, s3 * r0, s3 * 0,
             s4 * rr0, s4 * rr1, s4 * rr2, s4 * rr3, s4 * rr4);
  }

  lemma RowsOf(r0: int, r1: int, r2: int, r3: int, rr0: int, rr1: int, rr2: int, rr3: int, rr4: int)
    requires Prepared(r0, r1, r2, r3, rr0, rr1, rr2, rr3, rr4)
    ensures var r := V(r0, r1, r2, r3, 0);
            && Cong(Pw(1) * r, V(rr3, r0, r1, r2, 0), P130()) && Cong(Pw(2) * r, V(rr2, rr3, r0, r1, 0), P130())
            && Cong(Pw(3) * r, V(rr1, rr2, rr3, r0, 0), P130()) && Cong(Pw(4) * r, V(rr0, rr1, rr2, rr3, rr4), P130())
  {
  }

  lemma SumOfRows(s0: int, s1: int, s2: int, s3: int, s4: int, r: int, x1: int, x2: int, x3: int, x4: int,
                  a1: int, a2: int, a3: int, a4: int)
    requires Cong(x1, a1, P130()) && Cong(x2, a2, P130()) && Cong(x3, a3, P130()) && Cong(x4, a4, P130())
    ensures Cong(s0 * r + s1 * x1 + s2 * x2 + s3 * x3 + s4 * x4, s0 * r + s1 * a1 + s2 * a2 + s3 * a3 + s4 * a4, P130())
  {
    hide *;
    CongRefl(s0 * r, P130());
    ScaledCong(s1, x1, a1, s0 * r, s0 * r);
    ScaledCong(s2, x2, a2, s0 * r + s1 * x1, s0 * r + s1 * a1);
    ScaledCong(s3, x3, a3, s0 * r + s1 * x1 + s2 * x2, s0 * r + s1 * a1 + s2 * a2);
    ScaledCong(s4, x4, a4, s0 * r + s1 * x1 + s2 * x2 + s3 * x3, s0 * r + s1 * a1 + s2 * a2 + s3 * a3);
  }

  lemma FiveRows(a0: int, a1: int, a2: int, a3: int, a4: int, b0: int, b1: int, b2: int, b3: int, b4: int,
                 c0: int, c1: int, c2: int, c3: int, c4: int, d0: int, d1: int, d2: int, d3: int, d4: int,
                 e0: int, e1: int, e2: int, e3: int, e4: int)
    ensures V(a0, a1, a2, a3, a4) + V(b0, b1, b2, b3, b4) + V(c0, c1, c2, c3, c4) + V(d0, d1, d2, d3, d4) + V(e0, e1, e2, e3, e4)
         == V(a0 + b0 + c0 + d0 + e0, a1 + b1 + c1 + d1 + e1, a2 + b2 + c2 + d2 + e2, a3 + b3 + c3 + d3 + e3, a4 + b4 + c4 + d4 + e4)
  {
  }

  /** The partial reduction: high halves move up one digit, all but two bits of the top come back at the bottom, and a
      last round of carries leaves four words and a small fifth. */
  lemma Reduce(x0: nat, x1: nat, x2: nat, x3: nat, x4: nat, u0: nat, u1: nat, u2: nat, u3: nat, u5: nat)
    requires u5 == x4 + x3 / BASE && u0 == (u5 / 4) * 5 + x0 % BASE
    requires u1 == u0 / BASE + x1 % BASE + x0 / BASE && u2 == u1 / BASE + x2 % BASE + x1 / BASE
    requires u3 == u2 / BASE + x3 % BASE + x2 / BASE
    ensures Cong(V(x0, x1, x2, x3, x4), V(u0 % BASE, u1 % BASE, u2 % BASE, u3 % BASE, u3 / BASE + u5 % 4), P130())
  {
    hide *;
    var l0, l1, l2, l3 := Low(x0), Low(x1), Low(x2), Low(x3);
    var g0, g1, g2, g3 := High(x0), High(x1), High(x2), High(x3);
    LowHigh(x0, x1, x2, x3);
    LowHigh(u0, u1, u2, u3);
    FirstCarries(x0, x1, x2, x3, x4, l0, l1, l2, l3, g0, g1, g2, g3, u5);
    Quarter(u5);
    Fold(l0, l1 + g0, l2 + g1, l3 + g2, u5 % 4, u5 / 4);
    SecondCarries(u0, u1, u2, u3, Low(u0), Low(u1), Low(u2), Low(u3), High(u0), High(u1), High(u2), High(u3),
                  l1 + g0, l2 + g1, l3 + g2, u5 % 4);
  }

  function Low(x: nat): nat {
    x % BASE
  }

  function High(x: nat): nat {
    x / BASE
  }

  lemma LowHigh(x0: nat, x1: nat, x2: nat, x3: nat)
    ensures Low(x0) == x0 % BASE && Low(x1) == x1 % BASE && Low(x2) == x2 % BASE && Low(x3) == x3 % BASE
    ensures High(x0) == x0 / BASE && High(x1) == x1 / BASE && High(x2) == x2 / BASE && High(x3) == x3 / BASE
    ensures x0 == Low(x0) + BASE * High(x0) && x1 == Low(x1) + BASE * High(x1)
    ensures x2 == Low(x2) + BASE * High(x2) && x3 == Low(x3) + BASE * High(x3)
  {
    Halves(x0);
    Halves(x1);
    Halves(x2);
    Halves(x3);
  }

  lemma Quarter(u: nat)
    ensures u == u % 4 + 4 * (u / 4)
  {
  }

  /** The high halves of the products move up a place. */
  lemma FirstCarries(x0: nat, x1: nat, x2: nat, x3: nat, x4: nat, l0: nat, l1: nat, l2: nat, l3: nat,
                     g0: nat, g1: nat, g2: nat, g3: nat, u5: nat)
    requires x0 == l0 + BASE * g0 && x1 == l1 + BASE * g1 && x2 == l2 + BASE * g2 && x3 == l3 + BASE * g3 && u5 == x4 + g3
    ensures V(x0, x1, x2, x3, x4) == V(l0, l1 + g0, l2 + g1, l3 + g2, u5)
  {
    hide *;
    Carry3(x0, x1, x2, l3, g3, x4);
    Carry2(x0, x1, l2, g2, l3, u5);
    Carry1(x0, l1, g1, l2, l3 + g2, u5);
    Carry0(l0, g0, l1, l2 + g1, l3 + g2, u5);
  }

  /** The sums pass their high halves on. */
  lemma SecondCarries(u0: nat, u1: nat, u2: nat, u3: nat, l0: nat, l1: nat, l2: nat, l3: nat,
                      g0: nat, g1: nat, g2: nat, g3: nat, y1: nat, y2: nat, y3: nat, y4: nat)
    requires u0 == l0 + BASE * g0 && u1 == l1 + BASE * g1 && u2 == l2 + BASE * g2 && u3 == l3 + BASE * g3
    requires u1 == g0 + y1 && u2 == g1 + y2 && u3 == g2 + y3
    ensures V(u0, y1, y2, y3, y4) == V(l0, l1, l2, l3, g3 + y4)
  {
    hide *;
    Carry0(l0, g0, y1, y2, y3, y4);
    Carry1(l0, l1, g1, y2, y3, y4);
    Carry2(l0, l1, l2, g2, y3, y4);
    Carry3(l0, l1, l2, l3, g3, y4);
  }

  lemma Halves(x: nat)
    ensures x == x % BASE + BASE * (x / BASE)
  {
  }
}
