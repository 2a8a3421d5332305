/** Facts about sequences used by the record store and the scope registry. */
module Seqs {

  /** No element occurs twice. */
  predicate Distinct<T(==)>(s: seq<T>) {
    forall i, j :: 0 <= i < j < |s| ==> s[i] != s[j]
  }

  /** The elements of a sequence, as a set. */
  function Elements<T>(s: seq<T>): set<T> {
    set x | x in s
  }

  /** A sequence without duplicates has as many elements as its set of elements. */
  lemma {:induction false} DistinctCardinality<T>(s: seq<T>)
    requires Distinct(s)
    ensures |Elements(s)| == |s|
  {
    if s != [] {
      var tail := s[1..];
      assert Distinct(tail) by {
        forall i, j | 0 <= i < j < |tail| ensures tail[i] != tail[j] {
          assert tail[i] == s[i + 1] && tail[j] == s[j + 1];
        }
      }
      DistinctCardinality(tail);
      var rest := Elements(tail);
      assert s[0] !in rest;
      assert Elements(s) == rest + {s[0]} by {
        assert s == [s[0]] + tail;
      }
      assert |rest + {s[0]}| == |rest| + 1;
    }
  }

  /** `s` with every occurrence of `x` taken out, the others kept in order. */
  function Without<T(==)>(s: seq<T>, x: T): (r: seq<T>)
    ensures forall y :: y in r ==> y in s && y != x
    ensures forall y :: y in s && y != x ==> y in r
    ensures x !in s ==> r == s
    ensures Distinct(s) ==> Distinct(r)
  {
    if s == [] then []
    else
      var rest := Without(s[1..], x);
      assert Distinct(s) ==> Distinct(s[1..]) && s[0] !in s[1..] by {
        if Distinct(s) {
          forall i, j | 0 <= i < j < |s[1..]| ensures s[1..][i] != s[1..][j] {
            assert s[1..][i] == s[i + 1] && s[1..][j] == s[j + 1];
          }
        }
      }
      if s[0] == x then rest
      else
        assert x !in s ==> s == [s[0]] + s[1..];
        [s[0]] + rest
  }

  /** The elements of `s` that satisfy `p`, in their order in `s`, each as often as in `s`. */
  function Filter<T(==)>(s: seq<T>, p: T -> bool): (r: seq<T>)
    ensures forall y :: y in r ==> y in s && p(y)
    ensures forall y :: y in s && p(y) ==> y in r
    ensures forall y :: y in s ==> multiset(r)[y] == if p(y) then multiset(s)[y] else 0
    ensures Distinct(s) ==> Distinct(r)
    ensures |r| <= |s|
  {
    if s == [] then []
    else
      var rest := Filter(s[1..], p);
      var r := if p(s[0]) then [s[0]] + rest else rest;
      FilterStep(s, p, rest, r);
      r
  }

  /** Filtering `s` is filtering its tail and keeping its head when it satisfies `p`. */
  lemma FilterStep<T>(s: seq<T>, p: T -> bool, rest: seq<T>, r: seq<T>)
    requires s != []
    requires r == if p(s[0]) then [s[0]] + rest else rest
    requires forall y :: y in rest ==> y in s[1..] && p(y)
    requires forall y :: y in s[1..] && p(y) ==> y in rest
    requires forall y :: y in s[1..] ==> multiset(rest)[y] == if p(y) then multiset(s[1..])[y] else 0
    requires Distinct(s[1..]) ==> Distinct(rest)
    requires |rest| <= |s[1..]|
    ensures forall y :: y in r ==> y in s && p(y)
    ensures forall y :: y in s && p(y) ==> y in r
    ensures forall y :: y in s ==> multiset(r)[y] == if p(y) then multiset(s)[y] else 0
    ensures Distinct(s) ==> Distinct(r)
    ensures |r| <= |s|
  {
    assert s == [s[0]] + s[1..];
    assert multiset(s) == multiset{s[0]} + multiset(s[1..]);
    assert multiset([s[0]] + rest) == multiset{s[0]} + multiset(rest);
    if Distinct(s) {
      forall i, j | 0 <= i < j < |s[1..]| ensures s[1..][i] != s[1..][j] {
        assert s[1..][i] == s[i + 1] && s[1..][j] == s[j + 1];
      }
      assert s[0] !in rest;
    }
  }

  /** Filtering keeps order: filtering a concatenation filters each part and concatenates the results. */
  lemma {:induction false} FilterAppend<T>(a: seq<T>, b: seq<T>, p: T -> bool)
    ensures Filter(a + b, p) == Filter(a, p) + Filter(b, p)
  {
    if a == [] {
      assert a + b == b;
    } else {
      var x, t := a[0], a[1..];
      FilterAppend(t, b, p);
      FilterAppendStep(x, t, b, p);
      assert a == [x] + t && a + b == [x] + t + b;
    }
  }

  /** The inductive step of FilterAppend: one more element in front. */
  lemma FilterAppendStep<T>(x: T, t: seq<T>, b: seq<T>, p: T -> bool)
    requires Filter(t + b, p) == Filter(t, p) + Filter(b, p)
    ensures Filter([x] + t + b, p) == Filter([x] + t, p) + Filter(b, p)
  {
    var head := if p(x) then [x] else [];
    var tb := t + b;
    assert [x] + t + b == [x] + tb;
    FilterCons(x, tb, p);
    FilterCons(x, t, p);
    ConcatAssociative(head, Filter(t, p), Filter(b, p));
  }

  lemma ConcatAssociative<T>(a: seq<T>, b: seq<T>, c: seq<T>)
    ensures a + (b + c) == (a + b) + c
  {
  }

  /** Filtering a sequence with a known first element. */
  lemma FilterCons<T>(x: T, t: seq<T>, p: T -> bool)
    ensures Filter([x] + t, p) == (if p(x) then [x] else []) + Filter(t, p)
  {
    assert ([x] + t)[0] == x && ([x] + t)[1..] == t;
  }

  /** Filtering one element keeps it exactly when it satisfies the test. */
  lemma FilterSingle<T>(x: T, p: T -> bool)
    ensures Filter([x], p) == if p(x) then [x] else []
  {
    assert [x][1..] == [];
  }
}
