/** Dictionaries from field path to coefficient, and the sums they stand for: what both linear
    forms of the compiler are made of (situc/expr.py, situc/invariant.py). */
module Terms {
  import opened Bits

  /** A Python dictionary from field path to coefficient, in insertion order. */
  type Terms = seq<(string, int)>

  /** `terms.get(path, 0)` */
  function Get(terms: Terms, path: string): int {
    if terms == [] then 0
    else if terms[0].0 == path then terms[0].1
    else Get(terms[1..], path)
  }

  /** `terms[path] = by`: in place, or at the end. */
  function Put(terms: Terms, path: string, coeff: int): Terms {
    if terms == [] then [(path, coeff)]
    else if terms[0].0 == path then [(path, coeff)] + terms[1..]
    else [terms[0]] + Put(terms[1..], path, coeff)
  }

  /** `del terms[path]` */
  function Delete(terms: Terms, path: string): Terms {
    if terms == [] then []
    else if terms[0].0 == path then terms[1..]
    else [terms[0]] + Delete(terms[1..], path)
  }

  /** `{path: n * by for path, n in terms.items()}` */
  function Scale(terms: Terms, coeff: int): Terms {
    if terms == [] then [] else [(terms[0].0, terms[0].1 * coeff)] + Scale(terms[1..], coeff)
  }

  /** `for path, n in other.items(): terms[path] = terms.get(path, 0) + by * n` */
  function Merge(terms: Terms, other: Terms, coeff: int): Terms
    decreases other
  {
    if other == [] then terms
    else Merge(Put(terms, other[0].0, Get(terms, other[0].0) + coeff * other[0].1), other[1..], coeff)
  }

  function Keys(terms: Terms): set<string> {
    if terms == [] then {} else {terms[0].0} + Keys(terms[1..])
  }

  predicate Distinct(terms: Terms) {
    terms == [] || (terms[0].0 !in Keys(terms[1..]) && Distinct(terms[1..]))
  }

  /** What a field holds; 0 for a path the message does not have. */
  function At(fields: map<string, int>, path: string): int {
    if path in fields then fields[path] else 0
  }

  /** What the terms add up to in one message. */
  function Sum(terms: Terms, fields: map<string, int>): int {
    if terms == [] then 0 else terms[0].1 * At(fields, terms[0].0) + Sum(terms[1..], fields)
  }

  // ----- keys

  lemma {:induction false} ScaleKeys(terms: Terms, coeff: int)
    ensures Keys(Scale(terms, coeff)) == Keys(terms)
    ensures Distinct(terms) ==> Distinct(Scale(terms, coeff))
  {
    if terms != [] { ScaleKeys(terms[1..], coeff); }
  }

  lemma {:induction false} PutKeys(terms: Terms, path: string, coeff: int)
    ensures Keys(Put(terms, path, coeff)) == Keys(terms) + {path}
    ensures Distinct(terms) ==> Distinct(Put(terms, path, coeff))
  {
    if terms != [] {
      assert ([(path, coeff)] + terms[1..])[1..] == terms[1..];
      PutKeys(terms[1..], path, coeff);
    }
  }

  lemma {:induction false} MergeKeys(terms: Terms, other: Terms, coeff: int)
    ensures Keys(Merge(terms, other, coeff)) == Keys(terms) + Keys(other)
    ensures Distinct(terms) ==> Distinct(Merge(terms, other, coeff))
    decreases other
  {
    if other != [] {
      var n := Get(terms, other[0].0) + coeff * other[0].1;
      PutKeys(terms, other[0].0, n);
      MergeKeys(Put(terms, other[0].0, n), other[1..], coeff);
    }
  }

  lemma {:induction false} DeleteKeys(terms: Terms, path: string)
    requires Distinct(terms)
    ensures Keys(Delete(terms, path)) == Keys(terms) - {path}
    ensures Distinct(Delete(terms, path))
  {
    if terms != [] { DeleteKeys(terms[1..], path); }
  }

  lemma MergeOne(terms: Terms, path: string, n: int, coeff: int)
    ensures Merge(terms, [(path, n)], coeff) == Put(terms, path, Get(terms, path) + coeff * n)
  {
    assert [(path, n)][1..] == [];
  }

  // ----- what the dictionary operations do to the sum

  lemma {:induction false} SumScale(terms: Terms, coeff: int, fields: map<string, int>)
    ensures Sum(Scale(terms, coeff), fields) == coeff * Sum(terms, fields)
  {
    if terms != [] {
      SumScale(terms[1..], coeff, fields);
      var n, f, rest := terms[0].1, At(fields, terms[0].0), Sum(terms[1..], fields);
      MulAssociates(coeff, n, f);
      MulDistributes(n * f, rest, coeff);
    }
  }

  lemma {:induction false} SumPut(terms: Terms, path: string, coeff: int, fields: map<string, int>)
    ensures Sum(Put(terms, path, coeff), fields) == Sum(terms, fields) + (coeff - Get(terms, path)) * At(fields, path)
  {
    if terms != [] {
      if terms[0].0 == path {
        assert ([(path, coeff)] + terms[1..])[1..] == terms[1..];
        MulDistributes(coeff, terms[0].1, At(fields, path));
      } else {
        SumPut(terms[1..], path, coeff, fields);
      }
    }
  }

  lemma {:induction false} SumDelete(terms: Terms, path: string, fields: map<string, int>)
    ensures Sum(Delete(terms, path), fields) == Sum(terms, fields) - Get(terms, path) * At(fields, path)
  {
    if terms != [] { SumDelete(terms[1..], path, fields); }
  }

  lemma {:induction false} SumMerge(terms: Terms, other: Terms, coeff: int, fields: map<string, int>)
    ensures Sum(Merge(terms, other, coeff), fields) == Sum(terms, fields) + coeff * Sum(other, fields)
    decreases other
  {
    if other != [] {
      var had, n, f, rest := Get(terms, other[0].0), other[0].1, At(fields, other[0].0), Sum(other[1..], fields);
      SumPut(terms, other[0].0, had + coeff * n, fields);
      SumMerge(Put(terms, other[0].0, had + coeff * n), other[1..], coeff, fields);
      MulAssociates(coeff, n, f);
      MulDistributes(n * f, rest, coeff);
    }
  }
}
