/** Terms of a polynomial and the meaning of a term list.

    A polynomial is a list of terms `coeff * x^degree`; the front of the list
    is its first element. Float coefficients are modelled exactly, as `int`. */
module Terms {

  datatype Term = Term(coeff: int, degree: int)

  /** A polynomial as the term list the linked nodes hold, front node first. */
  type Poly = seq<Term>

  /** The coefficient the list gives to `x^d`: the sum of the coefficients of
      all its terms of degree `d` (0 when there is none). */
  function CoeffAt(p: Poly, d: int): int
  {
    if p == [] then 0
    else (if p[0].degree == d then p[0].coeff else 0) + CoeffAt(p[1..], d)
  }

  /** Every term of `p` has a degree above `d`. */
  predicate AllAbove(p: Poly, d: int)
  {
    forall i :: 0 <= i < |p| ==> p[i].degree > d
  }

  /** Degrees strictly ascend from the front of the list to its back. */
  predicate Ascending(p: Poly)
  {
    forall i, j :: 0 <= i < j < |p| ==> p[i].degree < p[j].degree
  }

  /** Degrees strictly descend from the front of the list to its back. */
  predicate Descending(p: Poly)
  {
    forall i, j :: 0 <= i < j < |p| ==> p[i].degree > p[j].degree
  }

  /** No term has a zero coefficient. */
  predicate NoZeros(p: Poly)
  {
    forall i :: 0 <= i < |p| ==> p[i].coeff != 0
  }

  /** The canonical representation: ascending degrees, no zero terms. */
  predicate Canonical(p: Poly)
  {
    Ascending(p) && NoZeros(p)
  }

  /** An ascending list is its head followed by an ascending list above the head. */
  lemma AscendingCons(p: Poly)
    requires p != []
    ensures Ascending(p) <==> AllAbove(p[1..], p[0].degree) && Ascending(p[1..])
  {
    if AllAbove(p[1..], p[0].degree) && Ascending(p[1..]) {
      forall i, j | 0 <= i < j < |p| ensures p[i].degree < p[j].degree {
        if i > 0 {
          assert p[i].degree == p[1..][i - 1].degree;
        }
        assert p[j].degree == p[1..][j - 1].degree;
      }
    }
  }

  /** A list whose degrees all lie above `d` gives no coefficient at or below `d`. */
  lemma {:induction false} CoeffAtBelow(p: Poly, d: int, e: int)
    requires AllAbove(p, d) && e <= d
    ensures CoeffAt(p, e) == 0
  {
    if p != [] {
      assert AllAbove(p[1..], d) by {
        forall i | 0 <= i < |p[1..]| ensures p[1..][i].degree > d {
          assert p[1..][i] == p[i + 1];
        }
      }
      CoeffAtBelow(p[1..], d, e);
    }
  }

  /** In a canonical list the head's coefficient is exactly the one the whole
      list gives to the head's degree. */
  lemma CoeffAtHead(p: Poly)
    requires Ascending(p) && p != []
    ensures CoeffAt(p, p[0].degree) == p[0].coeff
  {
    AscendingCons(p);
    CoeffAtBelow(p[1..], p[0].degree, p[0].degree);
  }

  /** A canonical polynomial is determined by its meaning: two canonical
      lists that give every degree the same coefficient are the same list. */
  lemma {:induction false} CanonicalUnique(p: Poly, q: Poly)
    requires Canonical(p) && Canonical(q)
    requires forall d :: CoeffAt(p, d) == CoeffAt(q, d)
    ensures p == q
  {
    if p == [] && q == [] {
    } else if p == [] {
      CoeffAtHead(q);
      assert false;
    } else if q == [] {
      CoeffAtHead(p);
      assert false;
    } else {
      AscendingCons(p);
      AscendingCons(q);
      if p[0].degree < q[0].degree {
        CoeffAtHead(p);
        CoeffAtBelow(q[1..], q[0].degree, p[0].degree);
        assert false;
      } else if q[0].degree < p[0].degree {
        CoeffAtHead(q);
        CoeffAtBelow(p[1..], p[0].degree, q[0].degree);
        assert false;
      } else {
        CoeffAtHead(p);
        CoeffAtHead(q);
        assert p[0] == q[0];
        forall d ensures CoeffAt(p[1..], d) == CoeffAt(q[1..], d) {
          assert CoeffAt(p, d) == CoeffAt(q, d);
        }
        assert NoZeros(p[1..]) by {
          forall i | 0 <= i < |p[1..]| ensures p[1..][i].coeff != 0 {
            assert p[1..][i] == p[i + 1];
          }
        }
        assert NoZeros(q[1..]) by {
          forall i | 0 <= i < |q[1..]| ensures q[1..][i].coeff != 0 {
            assert q[1..][i] == q[i + 1];
          }
        }
        CanonicalUnique(p[1..], q[1..]);
        assert p == [p[0]] + p[1..];
        assert q == [q[0]] + q[1..];
      }
    }
  }
}
