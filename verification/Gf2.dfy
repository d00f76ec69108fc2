/** Polynomials over GF(2), written as their coefficients with the highest power first. */
module Gf2 {

  type Poly = seq<bool>

  function Zeros(n: nat): (z: Poly)
    ensures |z| == n
    ensures forall i :: 0 <= i < n ==> !z[i]
  {
    seq(n, _ => false)
  }

  /** Addition, which over GF(2) is also subtraction. */
  function Xor(a: Poly, b: Poly): (c: Poly)
    requires |a| == |b|
    ensures |c| == |a|
    ensures forall i :: 0 <= i < |c| ==> c[i] == (a[i] != b[i])
  {
    seq(|a|, i requires 0 <= i < |a| => a[i] != b[i])
  }

  function Scale(c: bool, g: Poly): (p: Poly)
    ensures |p| == |g|
  {
    if c then g else Zeros(|g|)
  }

  /** Schoolbook product of `q` and `g`, kept at its full width. */
  function Mul(q: Poly, g: Poly): (p: Poly)
    requires |g| > 0
    ensures |p| == |q| + |g| - 1
  {
    if q == [] then Zeros(|g| - 1)
    else
      var n := |q| - 1;
      Xor(Mul(q[..n], g) + [false], Zeros(n) + Scale(q[n], g))
  }

  /** `m` divided by `g` has quotient `q` and remainder `r`: m = q * g + r with deg r < deg g. */
  ghost predicate IsDivision(m: Poly, g: Poly, q: Poly, r: Poly) {
    && |g| > 0
    && |r| == |g| - 1
    && |m| == |q| + |r|
    && m == Xor(Mul(q, g), Zeros(|q|) + r)
  }

  /** The last term of a product only reaches coefficients from its own position on. */
  lemma MulPrefix(q: Poly, g: Poly, i: nat)
    requires |g| > 0 && i < |q|
    ensures var n := |q| - 1;
      i < n ==> Mul(q, g)[i] == Mul(q[..n], g)[i]
    ensures var n := |q| - 1;
      i == n ==> Mul(q, g)[i] == ((Mul(q[..n], g) + [false])[n] != (q[n] && g[0]))
  {
    var n := |q| - 1;
    assert (Mul(q[..n], g) + [false])[i] == if i < |Mul(q[..n], g)| then Mul(q[..n], g)[i] else false;
    assert (Zeros(n) + Scale(q[n], g))[i] == (i == n && q[n] && g[0]);
  }

  /** The products agree on every coefficient that a factor of this length determines. */
  ghost predicate SameHigh(q: Poly, p: Poly, g: Poly) {
    |g| > 0 && |q| == |p| && forall i :: 0 <= i < |q| ==> Mul(q, g)[i] == Mul(p, g)[i]
  }

  lemma SameHighPrefix(q: Poly, p: Poly, g: Poly)
    requires SameHigh(q, p, g) && q != []
    ensures SameHigh(q[..|q| - 1], p[..|p| - 1], g)
  {
    var n := |q| - 1;
    forall i | 0 <= i < n
      ensures Mul(q[..n], g)[i] == Mul(p[..n], g)[i]
    {
      MulPrefix(q, g, i);
      MulPrefix(p, g, i);
    }
  }

  lemma SameLast(q: Poly, p: Poly, g: Poly)
    requires SameHigh(q, p, g) && g[0] && q != [] && q[..|q| - 1] == p[..|p| - 1]
    ensures q[|q| - 1] == p[|p| - 1]
  {
    MulPrefix(q, g, |q| - 1);
    MulPrefix(p, g, |p| - 1);
  }

  lemma LastTerm(p: Poly)
    requires p != []
    ensures p == p[..|p| - 1] + [p[|p| - 1]]
  {
  }

  /** When `g` has leading coefficient one, the high coefficients of a product determine the factor. */
  lemma {:induction false} FactorIsDetermined(q: Poly, p: Poly, g: Poly)
    requires SameHigh(q, p, g) && g[0]
    ensures q == p
    decreases |q|
  {
    hide Mul;
    if q == [] {
    } else {
      var n := |q| - 1;
      SameHighPrefix(q, p, g);
      FactorIsDetermined(q[..n], p[..n], g);
      SameLast(q, p, g);
      LastTerm(q);
      LastTerm(p);
    }
  }

  /** Division by a monic polynomial has one result. */
  lemma DivisionIsUnique(m: Poly, g: Poly, q: Poly, r: Poly, q': Poly, r': Poly)
    requires |g| > 0 && g[0]
    requires IsDivision(m, g, q, r) && IsDivision(m, g, q', r')
    ensures q == q' && r == r'
  {
    var n := |q|;
    forall i | 0 <= i < n
      ensures Mul(q, g)[i] == Mul(q', g)[i]
    {
      assert m[i] == (Mul(q, g)[i] != (Zeros(n) + r)[i]);
      assert m[i] == (Mul(q', g)[i] != (Zeros(n) + r')[i]);
    }
    FactorIsDetermined(q, q', g);
    forall i | 0 <= i < |r|
      ensures r[i] == r'[i]
    {
      assert m[n + i] == (Mul(q, g)[n + i] != (Zeros(n) + r)[n + i]);
      assert m[n + i] == (Mul(q, g)[n + i] != (Zeros(n) + r')[n + i]);
    }
  }

  lemma AppendZero(m: Poly, k: nat)
    requires k > 0
    ensures m + Zeros(k) == m + Zeros(k - 1) + [false]
  {
  }

  lemma XorTail(p: Poly, n: nat, s: Poly)
    requires |p| == n + |s| && s != []
    ensures Xor(p, Zeros(n) + s)[|p| - 1] == (p[|p| - 1] != s[|s| - 1])
    ensures s == Zeros(|s|) ==> Xor(p, Zeros(n) + s) == p
  {
  }

  /** When `g` ends in a one, a product is even only for an even factor. */
  lemma LastCoefficient(q: Poly, g: Poly, m: Poly)
    requires |g| > 0 && g[|g| - 1] && q != []
    requires Mul(q, g) == m + [false]
    ensures Mul(q[..|q| - 1], g) == m
  {
    var n := |q| - 1;
    var p := Mul(q[..n], g);
    var s := Scale(q[n], g);
    XorTail(p + [false], n, s);
    assert (p + [false])[|p|] == false == (m + [false])[|p|];
    assert s[|s| - 1] == q[n];
    DropLast(p, m);
  }

  lemma DropLast(p: Poly, m: Poly)
    ensures p + [false] == m + [false] ==> p == m
  {
    if p + [false] == m + [false] {
      assert p == (p + [false])[..|p|] && m == (m + [false])[..|m|];
    }
  }

  /** When `g` ends in a one, a product ending in `k` zeros comes from a factor ending in `k` zeros. */
  lemma {:induction false} TrailingZeros(q: Poly, g: Poly, m: Poly, k: nat)
    requires |g| > 0 && g[|g| - 1]
    requires k <= |q|
    requires Mul(q, g) == m + Zeros(k)
    ensures m == Mul(q[..|q| - k], g)
    decreases k
  {
    if k == 0 {
      assert m + Zeros(0) == m && q[..|q|] == q;
    } else {
      var n := |q| - 1;
      AppendZero(m, k);
      LastCoefficient(q, g, m + Zeros(k - 1));
      TrailingZeros(q[..n], g, m, k - 1);
      assert q[..n][..n - (k - 1)] == q[..|q| - k];
    }
  }

  /** How many coefficients of `p` are one. */
  function Weight(p: Poly): nat {
    if p == [] then 0 else (if p[0] then 1 else 0) + Weight(p[1..])
  }
}
