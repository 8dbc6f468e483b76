/** Filtering and counting, the two halves of "the index-th element a query returns". */
module Sequences {

  /** The elements a query returns, in order. */
  function Filter<T>(s: seq<T>, p: T -> bool): seq<T> {
    if s == [] then [] else (if p(s[0]) then [s[0]] else []) + Filter(s[1..], p)
  }

  /** How many elements a query returns. */
  function Count<T>(s: seq<T>, p: T -> bool): nat {
    if s == [] then 0 else (if p(s[0]) then 1 else 0) + Count(s[1..], p)
  }

  lemma Associative<T>(a: seq<T>, b: seq<T>, c: seq<T>)
    ensures (a + b) + c == a + (b + c)
  {
  }

  lemma {:induction false} FilterAppend<T>(a: seq<T>, b: seq<T>, p: T -> bool)
    ensures Filter(a + b, p) == Filter(a, p) + Filter(b, p)
  {
    if a == [] {
      assert a + b == b;
    } else {
      assert (a + b)[1..] == a[1..] + b;
      FilterAppend(a[1..], b, p);
      Associative(if p(a[0]) then [a[0]] else [], Filter(a[1..], p), Filter(b, p));
    }
  }

  lemma {:induction false} CountAppend<T>(a: seq<T>, b: seq<T>, p: T -> bool)
    ensures Count(a + b, p) == Count(a, p) + Count(b, p)
  {
    if a == [] {
      assert a + b == b;
    } else {
      assert (a + b)[1..] == a[1..] + b;
      CountAppend(a[1..], b, p);
    }
  }

  lemma CountNext<T>(s: seq<T>, i: nat, p: T -> bool)
    requires i < |s|
    ensures Count(s[..i + 1], p) == Count(s[..i], p) + if p(s[i]) then 1 else 0
  {
    assert s[..i + 1] == s[..i] + [s[i]];
    CountAppend(s[..i], [s[i]], p);
    assert [s[i]][1..] == [];
  }

  lemma {:induction false} FilterLength<T>(s: seq<T>, p: T -> bool)
    ensures |Filter(s, p)| == Count(s, p)
  {
    if s != [] {
      FilterLength(s[1..], p);
    }
  }

  /** The index of `x` in a query's results is the number of earlier elements the query returns. */
  lemma FilterPicks<T>(before: seq<T>, x: T, after: seq<T>, p: T -> bool)
    requires p(x)
    ensures Count(before, p) < |Filter(before + [x] + after, p)|
    ensures Filter(before + [x] + after, p)[Count(before, p)] == x
  {
    assert before + [x] + after == before + ([x] + after);
    FilterAppend(before, [x] + after, p);
    FilterLength(before, p);
    assert ([x] + after)[1..] == after;
    assert Filter([x] + after, p) == [x] + Filter(after, p);
  }

  lemma {:induction false} FilterMember<T>(s: seq<T>, p: T -> bool, x: T)
    ensures x in Filter(s, p) <==> x in s && p(x)
  {
    if s != [] {
      FilterMember(s[1..], p, x);
      assert s == [s[0]] + s[1..];
    }
  }

  lemma {:induction false} CountPositive<T>(s: seq<T>, p: T -> bool, i: nat)
    requires i < |s| && p(s[i])
    ensures Count(s, p) >= 1
  {
    if i > 0 {
      CountPositive(s[1..], p, i - 1);
    }
  }

  lemma {:induction false} CountZero<T>(s: seq<T>, p: T -> bool)
    requires forall x :: x in s ==> !p(x)
    ensures Count(s, p) == 0
  {
    if s != [] {
      CountZero(s[1..], p);
    }
  }

  /** With a single result, any two elements that pass are the same place. */
  lemma {:induction false} CountOne<T>(s: seq<T>, p: T -> bool, i: nat, j: nat)
    requires Count(s, p) == 1
    requires i < |s| && j < |s| && p(s[i]) && p(s[j])
    ensures i == j
  {
    if i == 0 && j > 0 {
      CountPositive(s[1..], p, j - 1);
    } else if j == 0 && i > 0 {
      CountPositive(s[1..], p, i - 1);
    } else if i > 0 && j > 0 {
      if p(s[0]) {
        CountPositive(s[1..], p, i - 1);
      }
      CountOne(s[1..], p, i - 1, j - 1);
    }
  }

  /** Counting under two predicates that agree on every element. */
  lemma {:induction false} CountAgree<T>(s: seq<T>, p: T -> bool, q: T -> bool)
    requires forall x :: x in s ==> p(x) == q(x)
    ensures Count(s, p) == Count(s, q)
  {
    if s != [] {
      CountAgree(s[1..], p, q);
    }
  }

  /** A weaker test counts more, and strictly more exactly when it passes something extra. */
  lemma {:induction false} CountWeaker<T>(s: seq<T>, strong: T -> bool, weak: T -> bool)
    requires forall x :: x in s && strong(x) ==> weak(x)
    ensures Count(s, strong) <= Count(s, weak)
    ensures Count(s, strong) < Count(s, weak) <==> exists x :: x in s && weak(x) && !strong(x)
  {
    if s != [] {
      CountWeaker(s[1..], strong, weak);
      assert s == [s[0]] + s[1..];
    }
  }
}
