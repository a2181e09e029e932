# Polynomial term-list algebra

A model of the polynomial exercise in `Polynomial/Polyninomial.java`. A
polynomial is a singly linked list of terms `coeff * x^degree`. `read` builds
the list by prepending one node per input line; the input lists degrees in
descending order, so the list in memory runs in ascending degree. `add`
merges two such lists by degree, summing coefficients of equal degree and
dropping a term whose sum is zero. `multiplyTerm` scales a list by a
monomial. `multiply` walks its first argument and folds `add` over the
partial products.

The model holds a list as `seq<Term>`, front node first (`Terms.Poly`). Its
meaning is `Terms.CoeffAt(p, d)`, the sum of the coefficients of the terms of
degree `d`, which is defined for any list, sorted or not. A list is
*canonical* when its degrees strictly ascend and no coefficient is zero;
`Terms.CanonicalUnique` shows that a canonical list is determined by its
meaning, which is what lets equalities such as `Add(p, q) == Add(q, p)` be
proved from coefficient equalities.

- `terms.dfy` (module `Terms`): the term datatype, `CoeffAt`, the ordering
  and zero-freedom predicates, and the uniqueness of canonical lists.
- `polynomial.dfy` (module `Polynomial`): `Read`, `Add`, `MultiplyTerm`,
  `Multiply`, the fold `Products` that `Multiply`'s loop computes, the
  reference convolution `ConvCoeff`, and the lemmas relating them.

`Add` and `MultiplyTerm` are recursive functions, as in the source, which
builds their results only by recursion and constructor calls. `Multiply` and
`Read` are methods with the source's loops: `Multiply`'s invariant ties the
running product to `Products` of the part of the first argument already
walked.

## Model

| member | source | states |
|---|---|---|
| `Polynomial.Read` | Polynomial/Polyninomial.java:40-49 | prepending every line yields the lines in reverse order; lines in descending degree give a list in ascending degree |
| `Polynomial.Add` | Polynomial/Polyninomial.java:64-78 | the sum is never longer than the two inputs together |
| `Polynomial.AddEmptyLeft` | Polynomial/Polyninomial.java:65-68 | adding to the empty list copies the other list term for term (and the empty plus the empty is empty) |
| `Polynomial.AddEmptyRight` | Polynomial/Polyninomial.java:69-70 | adding the empty list on the right copies the left list term for term |
| `Polynomial.AddCoeff` | Polynomial/Polyninomial.java:52-78 | the sum gives every degree the sum of the coefficients the inputs give it, for any inputs |
| `Polynomial.AddAbove` | Polynomial/Polyninomial.java:71-74 | every degree in the sum is bounded below by a bound on both inputs' degrees |
| `Polynomial.AddAscending` | Polynomial/Polyninomial.java:71-77 | two lists strictly ascending in degree add up to a list strictly ascending in degree |
| `Polynomial.AddNoZeros` | Polynomial/Polyninomial.java:75-77 | equal degrees whose coefficients cancel emit nothing, so zero-free inputs give a zero-free sum |
| `Polynomial.AddCanonical` | Polynomial/Polyninomial.java:64-78 | the sum of canonical lists is canonical |
| `Polynomial.AddCommutes` | Polynomial/Polyninomial.java:64-78 | on canonical inputs `add(p, q)` and `add(q, p)` are the same list |
| `Terms.CanonicalUnique` | Polynomial/Polyninomial.java:52-60 | two canonical lists with the same coefficient at every degree are equal, so "the sum" has one canonical form |
| `Polynomial.MultiplyTerm` | Polynomial/Polyninomial.java:109-113 | one output term per input term |
| `Polynomial.MultiplyTermAt` | Polynomial/Polyninomial.java:109-113 | the i-th output term is `(c * coeff_i, k + degree_i)` of the i-th input term |
| `Polynomial.MultiplyTermAscending` | Polynomial/Polyninomial.java:109-113 | shifting every degree by `k` keeps strict ascending order |
| `Polynomial.MultiplyTermCoeff` | Polynomial/Polyninomial.java:109-113 | the coefficient at degree `d` is `c` times the input's coefficient at `d - k` |
| `Polynomial.MultiplyTermNoZeros` | Polynomial/Polyninomial.java:109-113 | a nonzero monomial times a zero-free list is zero-free |
| `Polynomial.ProductsCoeff` | Polynomial/Polyninomial.java:94-106 | the folded product's coefficient at each degree is the convolution of the two factors |
| `Polynomial.ProductsRightEmpty` | Polynomial/Polyninomial.java:91-106 | folding over an empty second factor gives the empty list, agreeing with the early return |
| `Polynomial.ProductsAscending` | Polynomial/Polyninomial.java:94-106 | the folded product keeps the second factor's ascending degree order |
| `Polynomial.ProductsNoZeros` | Polynomial/Polyninomial.java:94-106 | zero-free factors give a zero-free product |
| `Polynomial.ConvSymmetric` | Polynomial/Polyninomial.java:90-107 | the convolution is the same with the factors swapped |
| `Polynomial.ProductsCommute` | Polynomial/Polyninomial.java:90-107 | on canonical factors the loop gives the same list whichever factor it walks |
| `Polynomial.Multiply` | Polynomial/Polyninomial.java:90-107 | empty if either factor is empty; otherwise the fold of `add` over one partial product per term of the first factor, in list order; its coefficients are the convolution; sorted and zero-free when the factors are |

## Left out

- Coefficients are Java `float`; the model uses exact `int`. Float rounding, and the exact `== 0` float comparison at line 75 applied to rounded sums, are not modelled.
- Degrees are Java `int`; `degree + poly.term.degree` at line 112 can wrap around at 32 bits. The model uses unbounded integers, so degree overflow is not modelled.
- Polynomial.Add: does not state the "all new nodes" guarantee of lines 52-55; a value model has no node identity or aliasing to state it about.
- Polynomial.Read: takes the already-parsed `(coeff, degree)` lines as a parameter; the `Scanner` stream, line splitting and the `IOException`/parse failures are I/O and not modelled.
- The `System.out.println` debug line inside `multiply` (line 103) is a side effect with no effect on the result.
- `evaluate` (lines 124-134) computes with `Math.pow` on `float`/`double`; floating-point evaluation is not modelled.
- `toString` (lines 142-153) relies on `Term.toString`, which is not part of this model.
- The `Node` and `Term` classes are not part of this model; their shape `(coeff, degree, next)` is taken from the constructor calls at lines 45 and 68.
- The minimum-spanning-tree classes and the other exercises of the repository are not part of this model.
