/** Sum and product of polynomials held as term lists.

    `Read` builds the list by prepending each line, so a file written in
    descending degree order becomes a list in ascending degree order; `Add`
    merges two such lists; `Multiply` folds `Add` over the partial products
    `MultiplyTerm` gives for each term of its first argument. */
module Polynomial {
  import opened Terms

  /** Builds the list from the parsed lines of the input, each line
      becoming a new front node. */
  method Read(lines: seq<Term>) returns (poly: Poly)
    ensures |poly| == |lines|
    ensures forall i :: 0 <= i < |poly| ==> poly[i] == lines[|lines| - 1 - i]
    ensures Descending(lines) ==> Ascending(poly)
  {
    poly := [];
    var n := 0;
    while n < |lines|
      invariant n <= |lines|
      invariant |poly| == n
      invariant forall i :: 0 <= i < n ==> poly[i] == lines[n - 1 - i]
    {
      poly := [Term(lines[n].coeff, lines[n].degree)] + poly;
      n := n + 1;
    }
  }

  /** The sum of two term lists, merged by degree. A term whose degree is
      smaller than the other list's head is copied; equal degrees have their
      coefficients summed, and the term is dropped when that sum is zero. */
  function Add(p: Poly, q: Poly): (r: Poly)
    ensures |r| <= |p| + |q|
    decreases |p| + |q|
  {
    if p == [] && q == [] then []
    else if p == [] then [Term(q[0].coeff, q[0].degree)] + Add([], q[1..])
    else if q == [] then [Term(p[0].coeff, p[0].degree)] + Add(p[1..], [])
    else if p[0].degree > q[0].degree then [Term(q[0].coeff, q[0].degree)] + Add(p, q[1..])
    else if p[0].degree < q[0].degree then [Term(p[0].coeff, p[0].degree)] + Add(p[1..], q)
    else if p[0].coeff + q[0].coeff == 0 then Add(p[1..], q[1..])
    else [Term(p[0].coeff + q[0].coeff, p[0].degree)] + Add(p[1..], q[1..])
  }

  /** Adding the empty polynomial on the left copies the right term for term. */
  lemma {:induction false} AddEmptyLeft(p: Poly)
    ensures Add([], p) == p
  {
    if p != [] {
      AddEmptyLeft(p[1..]);
      assert p == [p[0]] + p[1..];
    }
  }

  /** Adding the empty polynomial on the right copies the left term for term. */
  lemma {:induction false} AddEmptyRight(p: Poly)
    ensures Add(p, []) == p
  {
    if p != [] {
      AddEmptyRight(p[1..]);
      assert p == [p[0]] + p[1..];
    }
  }

  /** The meaning of `Add`: the sum gives every degree the sum of the
      coefficients the two inputs give it. */
  lemma {:induction false} AddCoeff(p: Poly, q: Poly, d: int)
    ensures CoeffAt(Add(p, q), d) == CoeffAt(p, d) + CoeffAt(q, d)
    decreases |p| + |q|
  {
    if p == [] && q == [] {
    } else if p == [] {
      AddCoeff([], q[1..], d);
    } else if q == [] {
      AddCoeff(p[1..], [], d);
    } else if p[0].degree > q[0].degree {
      AddCoeff(p, q[1..], d);
    } else if p[0].degree < q[0].degree {
      AddCoeff(p[1..], q, d);
    } else {
      AddCoeff(p[1..], q[1..], d);
    }
  }

  /** Every degree of the sum is a degree of one of the inputs, so a bound
      below all input degrees bounds the sum's degrees too. */
  lemma {:induction false} AddAbove(p: Poly, q: Poly, d: int)
    requires AllAbove(p, d) && AllAbove(q, d)
    ensures AllAbove(Add(p, q), d)
    decreases |p| + |q|
  {
    if p != [] {
      TailAbove(p, d);
    }
    if q != [] {
      TailAbove(q, d);
    }
    if p == [] && q == [] {
    } else if p == [] {
      AddAbove([], q[1..], d);
    } else if q == [] {
      AddAbove(p[1..], [], d);
    } else if p[0].degree > q[0].degree {
      AddAbove(p, q[1..], d);
    } else if p[0].degree < q[0].degree {
      AddAbove(p[1..], q, d);
    } else {
      AddAbove(p[1..], q[1..], d);
    }
  }

  lemma TailAbove(p: Poly, d: int)
    requires p != [] && AllAbove(p, d)
    ensures AllAbove(p[1..], d)
  {
    forall i | 0 <= i < |p[1..]| ensures p[1..][i].degree > d {
      assert p[1..][i] == p[i + 1];
    }
  }

  lemma TailNoZeros(p: Poly)
    requires p != [] && NoZeros(p)
    ensures NoZeros(p[1..])
  {
    forall i | 0 <= i < |p[1..]| ensures p[1..][i].coeff != 0 {
      assert p[1..][i] == p[i + 1];
    }
  }

  /** Two lists ascending in degree add up to a list ascending in degree. */
  lemma {:induction false} AddAscending(p: Poly, q: Poly)
    requires Ascending(p) && Ascending(q)
    ensures Ascending(Add(p, q))
    decreases |p| + |q|
  {
    if p == [] && q == [] {
    } else if p == [] {
      AscendingCons(q);
      AddEmptyLeft(q[1..]);
      AscendingCons(Add([], q));
    } else if q == [] {
      AscendingCons(p);
      AddEmptyRight(p[1..]);
      AscendingCons(Add(p, []));
    } else {
      AscendingCons(p);
      AscendingCons(q);
      var r := Add(p, q);
      if p[0].degree > q[0].degree {
        AddAscending(p, q[1..]);
        assert AllAbove(p, q[0].degree);
        AddAbove(p, q[1..], q[0].degree);
        AscendingCons(r);
      } else if p[0].degree < q[0].degree {
        AddAscending(p[1..], q);
        assert AllAbove(q, p[0].degree);
        AddAbove(p[1..], q, p[0].degree);
        AscendingCons(r);
      } else {
        AddAscending(p[1..], q[1..]);
        AddAbove(p[1..], q[1..], p[0].degree);
        if p[0].coeff + q[0].coeff != 0 {
          AscendingCons(r);
        }
      }
    }
  }

  /** Equal degrees never emit a zero term, so a sum of zero-free lists is
      zero-free. */
  lemma {:induction false} AddNoZeros(p: Poly, q: Poly)
    requires NoZeros(p) && NoZeros(q)
    ensures NoZeros(Add(p, q))
    decreases |p| + |q|
  {
    if p != [] {
      TailNoZeros(p);
    }
    if q != [] {
      TailNoZeros(q);
    }
    if p == [] && q == [] {
    } else if p == [] {
      AddNoZeros([], q[1..]);
    } else if q == [] {
      AddNoZeros(p[1..], []);
    } else if p[0].degree > q[0].degree {
      AddNoZeros(p, q[1..]);
    } else if p[0].degree < q[0].degree {
      AddNoZeros(p[1..], q);
    } else {
      AddNoZeros(p[1..], q[1..]);
    }
  }

  /** The sum of canonical lists is canonical. */
  lemma AddCanonical(p: Poly, q: Poly)
    requires Canonical(p) && Canonical(q)
    ensures Canonical(Add(p, q))
  {
    AddAscending(p, q);
    AddNoZeros(p, q);
  }

  /** On canonical inputs the order of the arguments does not matter. */
  lemma AddCommutes(p: Poly, q: Poly)
    requires Canonical(p) && Canonical(q)
    ensures Add(p, q) == Add(q, p)
  {
    AddCanonical(p, q);
    AddCanonical(q, p);
    forall d ensures CoeffAt(Add(p, q), d) == CoeffAt(Add(q, p), d) {
      AddCoeff(p, q, d);
      AddCoeff(q, p, d);
    }
    CanonicalUnique(Add(p, q), Add(q, p));
  }

  /** Every term of `p` multiplied by the monomial `c * x^k`. */
  function MultiplyTerm(c: int, k: int, p: Poly): (r: Poly)
    ensures |r| == |p|
  {
    if p == [] then []
    else [Term(c * p[0].coeff, k + p[0].degree)] + MultiplyTerm(c, k, p[1..])
  }

  /** The i-th term of `MultiplyTerm(c, k, p)` is `(c * coeff, k + degree)`
      of the i-th term of `p`. */
  lemma {:induction false} MultiplyTermAt(c: int, k: int, p: Poly, i: int)
    requires 0 <= i < |p|
    ensures MultiplyTerm(c, k, p)[i] == Term(c * p[i].coeff, k + p[i].degree)
  {
    if i > 0 {
      MultiplyTermAt(c, k, p[1..], i - 1);
    }
  }

  /** Shifting every degree by `k` keeps their strict ascending order. */
  lemma MultiplyTermAscending(c: int, k: int, p: Poly)
    requires Ascending(p)
    ensures Ascending(MultiplyTerm(c, k, p))
  {
    var r := MultiplyTerm(c, k, p);
    forall i, j | 0 <= i < j < |r| ensures r[i].degree < r[j].degree {
      MultiplyTermAt(c, k, p, i);
      MultiplyTermAt(c, k, p, j);
    }
  }

  /** A nonzero monomial times a zero-free list is zero-free. */
  lemma MultiplyTermNoZeros(c: int, k: int, p: Poly)
    requires c != 0 && NoZeros(p)
    ensures NoZeros(MultiplyTerm(c, k, p))
  {
    var r := MultiplyTerm(c, k, p);
    forall i | 0 <= i < |r| ensures r[i].coeff != 0 {
      MultiplyTermAt(c, k, p, i);
      assert p[i].coeff != 0;
    }
  }

  /** The meaning of `MultiplyTerm`: the coefficient of `x^d` in the result
      is `c` times the coefficient of `x^(d - k)` in `p`. */
  lemma {:induction false} MultiplyTermCoeff(c: int, k: int, p: Poly, d: int)
    ensures CoeffAt(MultiplyTerm(c, k, p), d) == c * CoeffAt(p, d - k)
  {
    if p != [] {
      MultiplyTermCoeff(c, k, p[1..], d);
      var r := MultiplyTerm(c, k, p);
      assert r[1..] == MultiplyTerm(c, k, p[1..]);
      var head := if p[0].degree == d - k then p[0].coeff else 0;
      var rest := CoeffAt(p[1..], d - k);
      assert CoeffAt(p, d - k) == head + rest;
      assert CoeffAt(r, d) == (if r[0].degree == d then r[0].coeff else 0) + CoeffAt(r[1..], d);
      assert (if r[0].degree == d then r[0].coeff else 0) == c * head;
      Distribute(c, head, rest);
    }
  }

  lemma Distribute(c: int, a: int, b: int)
    ensures c * (a + b) == c * a + c * b
  {
  }

  /** The running product after the terms of `s` have been processed in
      list order: `Add` folded over one partial product per term. */
  function Products(s: Poly, q: Poly): Poly
  {
    if s == [] then []
    else
      var t := s[|s| - 1];
      Add(Products(s[..|s| - 1], q), MultiplyTerm(t.coeff, t.degree, q))
  }

  /** The product's coefficient of `x^d` as a convolution: for each term
      `c * x^k` of `s`, `c` times the coefficient of `x^(d - k)` in `q`. */
  function ConvCoeff(s: Poly, q: Poly, d: int): int
  {
    if s == [] then 0
    else
      var t := s[|s| - 1];
      ConvCoeff(s[..|s| - 1], q, d) + t.coeff * CoeffAt(q, d - t.degree)
  }

  /** The meaning of the product: its coefficients are the convolution. */
  lemma {:induction false} ProductsCoeff(s: Poly, q: Poly, d: int)
    ensures CoeffAt(Products(s, q), d) == ConvCoeff(s, q, d)
  {
    if s != [] {
      var t := s[|s| - 1];
      var init := s[..|s| - 1];
      ProductsCoeff(init, q, d);
      ProductsStep(s, q, d);
      ConvStep(s, q, d);
      MultiplyTermCoeff(t.coeff, t.degree, q, d);
    }
  }

  lemma ConvStep(s: Poly, q: Poly, d: int)
    requires s != []
    ensures var t := s[|s| - 1];
      ConvCoeff(s, q, d) == ConvCoeff(s[..|s| - 1], q, d) + t.coeff * CoeffAt(q, d - t.degree)
  {
  }

  /** One step of the fold: the last partial product adds its coefficients. */
  lemma ProductsStep(s: Poly, q: Poly, d: int)
    requires s != []
    ensures var t := s[|s| - 1];
      CoeffAt(Products(s, q), d)
      == CoeffAt(Products(s[..|s| - 1], q), d) + CoeffAt(MultiplyTerm(t.coeff, t.degree, q), d)
  {
    var t := s[|s| - 1];
    AddCoeff(Products(s[..|s| - 1], q), MultiplyTerm(t.coeff, t.degree, q), d);
  }

  /** Multiplying by the empty polynomial gives the empty polynomial. */
  lemma {:induction false} ProductsRightEmpty(s: Poly)
    ensures Products(s, []) == []
  {
    if s != [] {
      ProductsRightEmpty(s[..|s| - 1]);
    }
  }

  /** The product keeps the second factor's ascending order. */
  lemma {:induction false} ProductsAscending(s: Poly, q: Poly)
    requires Ascending(q)
    ensures Ascending(Products(s, q))
  {
    if s != [] {
      var t := s[|s| - 1];
      ProductsAscending(s[..|s| - 1], q);
      MultiplyTermAscending(t.coeff, t.degree, q);
      AddAscending(Products(s[..|s| - 1], q), MultiplyTerm(t.coeff, t.degree, q));
    }
  }

  /** The product of zero-free lists is zero-free. */
  lemma {:induction false} ProductsNoZeros(s: Poly, q: Poly)
    requires NoZeros(s) && NoZeros(q)
    ensures NoZeros(Products(s, q))
  {
    if s != [] {
      var t := s[|s| - 1];
      assert t.coeff != 0;
      var init := s[..|s| - 1];
      assert NoZeros(init) by {
        forall i | 0 <= i < |init| ensures init[i].coeff != 0 {
          assert init[i] == s[i];
        }
      }
      ProductsNoZeros(s[..|s| - 1], q);
      MultiplyTermNoZeros(t.coeff, t.degree, q);
      AddNoZeros(Products(s[..|s| - 1], q), MultiplyTerm(t.coeff, t.degree, q));
    }
  }

  /** Appending a term at the back adds its coefficient at its degree. */
  lemma {:induction false} CoeffAtAppend(s: Poly, t: Term, e: int)
    ensures CoeffAt(s + [t], e) == CoeffAt(s, e) + (if t.degree == e then t.coeff else 0)
  {
    if s != [] {
      assert (s + [t])[1..] == s[1..] + [t];
      CoeffAtAppend(s[1..], t, e);
    }
  }

  /** Appending a term to the second factor adds that term's share of the
      convolution. */
  lemma {:induction false} ConvAppendRight(s: Poly, p: Poly, t: Term, d: int)
    ensures ConvCoeff(s, p + [t], d) == ConvCoeff(s, p, d) + t.coeff * CoeffAt(s, d - t.degree)
  {
    if s != [] {
      var u := s[|s| - 1];
      var init := s[..|s| - 1];
      assert s == init + [u];
      ConvAppendRight(init, p, t, d);
      CoeffAtAppend(p, t, d - u.degree);
      CoeffAtAppend(init, u, d - t.degree);
      var a := CoeffAt(p, d - u.degree);
      var b := if t.degree == d - u.degree then t.coeff else 0;
      var c := CoeffAt(init, d - t.degree);
      var e := if u.degree == d - t.degree then u.coeff else 0;
      assert CoeffAt(p + [t], d - u.degree) == a + b;
      assert CoeffAt(s, d - t.degree) == c + e;
      assert u.coeff * b == t.coeff * e;
      Distribute(u.coeff, a, b);
      Distribute(t.coeff, c, e);
    }
  }

  /** The convolution is symmetric in its two factors. */
  lemma {:induction false} ConvSymmetric(p: Poly, q: Poly, d: int)
    ensures ConvCoeff(p, q, d) == ConvCoeff(q, p, d)
  {
    if p != [] {
      var t := p[|p| - 1];
      var init := p[..|p| - 1];
      assert p == init + [t];
      ConvSymmetric(init, q, d);
      ConvAppendRight(q, init, t, d);
    } else {
      ConvRightEmpty(q, d);
    }
  }

  lemma {:induction false} ConvRightEmpty(s: Poly, d: int)
    ensures ConvCoeff(s, [], d) == 0
  {
    if s != [] {
      ConvRightEmpty(s[..|s| - 1], d);
    }
  }

  /** On canonical factors the product does not depend on which factor the
      loop walks: both orders give the same list. */
  lemma ProductsCommute(p: Poly, q: Poly)
    requires Canonical(p) && Canonical(q)
    ensures Products(p, q) == Products(q, p)
  {
    ProductsAscending(p, q);
    ProductsAscending(q, p);
    ProductsNoZeros(p, q);
    ProductsNoZeros(q, p);
    forall d ensures CoeffAt(Products(p, q), d) == CoeffAt(Products(q, p), d) {
      ProductsCoeff(p, q, d);
      ProductsCoeff(q, p, d);
      ConvSymmetric(p, q, d);
    }
    CanonicalUnique(Products(p, q), Products(q, p));
  }

  /** The product of two lists: the running product starts empty and each
      term of `p`, front to back, adds its partial product to it. */
  method Multiply(p: Poly, q: Poly) returns (product: Poly)
    ensures p == [] || q == [] ==> product == []
    ensures product == Products(p, q)
    ensures forall d :: CoeffAt(product, d) == ConvCoeff(p, q, d)
    ensures Ascending(q) ==> Ascending(product)
    ensures NoZeros(p) && NoZeros(q) ==> NoZeros(product)
  {
    if p == [] || q == [] {
      product := [];
      if q == [] {
        ProductsRightEmpty(p);
      }
    } else {
      product := [];
      var ptr := p;
      while ptr != []
        invariant |ptr| <= |p| && ptr == p[|p| - |ptr|..]
        invariant product == Products(p[..|p| - |ptr|], q)
      {
        ghost var done := |p| - |ptr|;
        assert p[..done + 1][..done] == p[..done];
        assert p[..done + 1][done] == ptr[0];
        product := Add(product, MultiplyTerm(ptr[0].coeff, ptr[0].degree, q));
        ptr := ptr[1..];
      }
      assert p[..|p|] == p;
    }
    forall d ensures CoeffAt(product, d) == ConvCoeff(p, q, d) {
      ProductsCoeff(p, q, d);
    }
    if Ascending(q) {
      ProductsAscending(p, q);
    }
    if NoZeros(p) && NoZeros(q) {
      ProductsNoZeros(p, q);
    }
  }
}
