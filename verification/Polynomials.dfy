/**
 Polynomials over GF(2): a sequence of coefficients, lowest power first, in which zeros at the
 end do not matter.
 */
module Polynomials {

  type Poly = seq<bool>

  function Coef(p: Poly, i: nat): bool {
    i < |p| && p[i]
  }

  ghost predicate Same(p: Poly, q: Poly) {
    forall i: nat :: Coef(p, i) == Coef(q, i)
  }

  function Add(p: Poly, q: Poly): Poly {
    seq(if |p| < |q| then |q| else |p|, i requires i >= 0 => Coef(p, i) != Coef(q, i))
  }

  /** p times x to the n. */
  function Shift(p: Poly, n: nat): Poly {
    seq(n, i => false) + p
  }

  /** Schoolbook multiplication. */
  function Mul(p: Poly, q: Poly): Poly {
    if p == [] then [] else Add(if p[0] then q else [], Shift(Mul(p[1..], q), 1))
  }

  lemma AddCoef(p: Poly, q: Poly, i: nat)
    ensures Coef(Add(p, q), i) == (Coef(p, i) != Coef(q, i))
  {
  }

  lemma ShiftCoef(p: Poly, n: nat, i: nat)
    ensures Coef(Shift(p, n), i) == (i >= n && Coef(p, i - n))
  {
  }

  lemma MulCoef(p: Poly, q: Poly, i: nat)
    ensures p == [] ==> !Coef(Mul(p, q), i)
    ensures p != [] ==> Coef(Mul(p, q), i) == ((p[0] && Coef(q, i)) != (i > 0 && Coef(Mul(p[1..], q), i - 1)))
  {
    if p != [] {
      AddCoef(if p[0] then q else [], Shift(Mul(p[1..], q), 1), i);
      ShiftCoef(Mul(p[1..], q), 1, i);
    }
  }

  lemma RestCoef(p: Poly, i: nat)
    requires p != []
    ensures Coef(p[1..], i) == Coef(p, i + 1)
  {
  }

  /** Multiplication distributes over addition. */
  lemma {:induction false} MulAdd(a: Poly, b: Poly, q: Poly, i: nat)
    ensures Coef(Mul(Add(a, b), q), i) == (Coef(Mul(a, q), i) != Coef(Mul(b, q), i))
    decreases |a| + |b|
  {
    var c := Add(a, b);
    MulCoef(a, q, i);
    MulCoef(b, q, i);
    MulCoef(c, q, i);
    if c != [] && i > 0 {
      AddRest(a, b);
      MulAdd(Rest(a), Rest(b), q, i - 1);
      MulCoef([], q, i - 1);
    }
    hide Mul;
  }

  function Rest(p: Poly): Poly {
    if p == [] then [] else p[1..]
  }

  lemma AddRest(a: Poly, b: Poly)
    ensures Rest(Add(a, b)) == Add(Rest(a), Rest(b))
  {
  }

  lemma {:induction false} MulZero(p: Poly, q: Poly, i: nat)
    requires forall j: nat :: !Coef(p, j)
    ensures !Coef(Mul(p, q), i)
    decreases |p|
  {
    MulCoef(p, q, i);
    if p != [] {
      assert !Coef(p, 0);
      forall j: nat ensures !Coef(p[1..], j) {
        RestCoef(p, j);
      }
      if i > 0 {
        MulZero(p[1..], q, i - 1);
      }
    }
  }

  /** The degree of a product with a polynomial of degree `d`. */
  lemma {:induction false} MulTop(p: Poly, g: Poly, d: nat, j: nat)
    requires Coef(g, d) && forall i: nat | i > d :: !Coef(g, i)
    requires Coef(p, j) && forall i: nat | i > j :: !Coef(p, i)
    ensures Coef(Mul(p, g), j + d)
    decreases |p|
  {
    MulCoef(p, g, j + d);
    forall i: nat ensures Coef(p[1..], i) == Coef(p, i + 1) {
      RestCoef(p, i);
    }
    if j == 0 {
      if d > 0 {
        MulZero(p[1..], g, d - 1);
      }
    } else {
      MulTop(p[1..], g, d, j - 1);
    }
  }

  lemma {:induction false} HighestCoef(p: Poly, n: nat) returns (j: nat)
    requires (exists i: nat | i < n :: Coef(p, i)) && forall i: nat | i >= n :: !Coef(p, i)
    ensures Coef(p, j) && forall i: nat | i > j :: !Coef(p, i)
  {
    if Coef(p, n - 1) {
      return n - 1;
    }
    j := HighestCoef(p, n - 1);
  }

  /** `r` is what is left when `m` is divided by `g` with quotient `q`. */
  ghost predicate Division(m: Poly, g: Poly, q: Poly, r: Poly) {
    Same(m, Add(Mul(q, g), r))
  }

  /** There is only one remainder below the degree of the divisor. */
  lemma RemainderIsUnique(m: Poly, g: Poly, d: nat, q: Poly, r: Poly, q': Poly, r': Poly)
    requires Coef(g, d) && forall i: nat | i > d :: !Coef(g, i)
    requires Division(m, g, q, r) && Division(m, g, q', r') && |r| == |r'| == d
    ensures r == r'
  {
    var e := Add(q, q');
    forall i: nat ensures Coef(Mul(e, g), i) == (Coef(r, i) != Coef(r', i)) {
      MulAdd(q, q', g, i);
      AddCoef(Mul(q, g), r, i);
      AddCoef(Mul(q', g), r', i);
      assert Coef(Add(Mul(q, g), r), i) == Coef(m, i) == Coef(Add(Mul(q', g), r'), i);
    }
    if i: nat :| Coef(e, i) {
      var j := HighestCoef(e, |e|);
      MulTop(e, g, d, j);
      assert false;
    }
    forall i | 0 <= i < d ensures r[i] == r'[i] {
      MulZero(e, g, i);
      assert Coef(r, i) == Coef(r', i);
    }
  }
}
