/** Python list comprehensions with a condition, `[x for x in s if keep(x)]`. */
module Seqs {

  /** The length `zip` and slicing to a count give: the smaller of two. */
  function Min(a: nat, b: nat): nat
  {
    if a <= b then a else b
  }

  function Filter<T>(s: seq<T>, keep: T -> bool): (r: seq<T>)
    ensures |r| <= |s|
  {
    if s == [] then [] else Filter(s[..|s| - 1], keep) + (if keep(s[|s| - 1]) then [s[|s| - 1]] else [])
  }

  /** Filtering keeps exactly the elements that pass, in their original order. */
  lemma {:induction false} FilterAppend<T>(a: seq<T>, b: seq<T>, keep: T -> bool)
    ensures Filter(a + b, keep) == Filter(a, keep) + Filter(b, keep)
    decreases |b|
  {
    if b == [] {
      assert a + b == a;
    } else {
      var ab := a + b;
      assert ab[..|ab| - 1] == a + b[..|b| - 1];
      FilterAppend(a, b[..|b| - 1], keep);
    }
  }

  lemma {:induction false} FilterMembers<T>(s: seq<T>, keep: T -> bool)
    ensures forall x :: x in Filter(s, keep) <==> x in s && keep(x)
  {
    if s != [] {
      FilterMembers(s[..|s| - 1], keep);
      assert s == s[..|s| - 1] + [s[|s| - 1]];
    }
  }

  /** Filters that agree position by position on two lists of one length keep as many elements. */
  lemma {:induction false} FilterSameLength<T, U>(a: seq<T>, keepA: T -> bool, b: seq<U>, keepB: U -> bool)
    requires |a| == |b|
    requires forall i :: 0 <= i < |a| ==> keepA(a[i]) == keepB(b[i])
    ensures |Filter(a, keepA)| == |Filter(b, keepB)|
  {
    if a != [] {
      var initA := a[..|a| - 1];
      var initB := b[..|b| - 1];
      assert forall i :: 0 <= i < |initA| ==> initA[i] == a[i] && initB[i] == b[i];
      FilterSameLength(initA, keepA, initB, keepB);
    }
  }

  /**
   * Where each kept element sits in `s`: strictly increasing positions, so
   * filtering keeps the relative order of what it keeps, and skips only
   * elements that fail `keep`.
   */
  function FilterPositions<T>(s: seq<T>, keep: T -> bool): (idx: seq<nat>)
    ensures |idx| == |Filter(s, keep)|
    ensures forall k :: 0 <= k < |idx| ==> idx[k] < |s| && s[idx[k]] == Filter(s, keep)[k]
    ensures forall k, m :: 0 <= k < m < |idx| ==> idx[k] < idx[m]
    ensures forall j :: 0 <= j < |s| && j !in idx ==> !keep(s[j])
  {
    if s == [] then []
    else
      var init := FilterPositions(s[..|s| - 1], keep);
      assert Filter(s, keep) == Filter(s[..|s| - 1], keep) + (if keep(s[|s| - 1]) then [s[|s| - 1]] else []);
      assert forall k :: 0 <= k < |init| ==> s[init[k]] == s[..|s| - 1][init[k]];
      if keep(s[|s| - 1]) then init + [|s| - 1] else init
  }

  lemma {:induction false} FilterNone<T>(s: seq<T>, keep: T -> bool)
    requires forall i :: 0 <= i < |s| ==> !keep(s[i])
    ensures Filter(s, keep) == []
  {
    if s != [] {
      FilterNone(s[..|s| - 1], keep);
    }
  }

  lemma FilterThree<T>(a: seq<T>, b: seq<T>, c: seq<T>, keep: T -> bool)
    ensures Filter(a + b + c, keep) == Filter(a, keep) + Filter(b, keep) + Filter(c, keep)
  {
    FilterAppend(a + b, c, keep);
    FilterAppend(a, b, keep);
  }

  lemma FilterSingle<T>(x: T, keep: T -> bool)
    ensures Filter([x], keep) == if keep(x) then [x] else []
  {
    assert [x][..0] == [];
  }

  /** Putting an element that fails `keep` anywhere leaves the filtered list as it was. */
  lemma FilterDropSkipped<T>(a: seq<T>, b: seq<T>, x: T, keep: T -> bool)
    requires !keep(x)
    ensures Filter(a + [x] + b, keep) == Filter(a + b, keep)
  {
    calc {
      Filter(a + [x] + b, keep);
      { FilterThree(a, [x], b, keep); }
      Filter(a, keep) + Filter([x], keep) + Filter(b, keep);
      { FilterSingle(x, keep); }
      Filter(a, keep) + [] + Filter(b, keep);
      { assert Filter(a, keep) + [] == Filter(a, keep); }
      Filter(a, keep) + Filter(b, keep);
      { FilterAppend(a, b, keep); }
      Filter(a + b, keep);
    }
  }

  /** Putting a kept element before only elements that fail `keep` appends it to the filtered list. */
  lemma FilterAddLast<T>(a: seq<T>, b: seq<T>, x: T, keep: T -> bool)
    requires keep(x)
    requires forall i :: 0 <= i < |b| ==> !keep(b[i])
    ensures Filter(a + [x] + b, keep) == Filter(a + b, keep) + [x]
  {
    FilterNone(b, keep);
    calc {
      Filter(a + [x] + b, keep);
      { FilterThree(a, [x], b, keep); }
      Filter(a, keep) + Filter([x], keep) + Filter(b, keep);
      { FilterSingle(x, keep); }
      Filter(a, keep) + [x] + [];
      { assert Filter(a, keep) + [x] + [] == (Filter(a, keep) + []) + [x]; }
      (Filter(a, keep) + Filter(b, keep)) + [x];
      { FilterAppend(a, b, keep); }
      Filter(a + b, keep) + [x];
    }
  }

  /** Python's `[f(x) for x in s]`. */
  function Apply<T, U>(s: seq<T>, f: T -> U): (r: seq<U>)
    ensures |r| == |s| && forall i :: 0 <= i < |s| ==> r[i] == f(s[i])
  {
    if s == [] then [] else Apply(s[..|s| - 1], f) + [f(s[|s| - 1])]
  }

  lemma ApplyAppend<T, U>(a: seq<T>, b: seq<T>, f: T -> U)
    ensures Apply(a + b, f) == Apply(a, f) + Apply(b, f)
  {
  }

  /** Taking one occurrence of `x` out of a list leaves one `x` fewer. */
  lemma RemoveOne<T>(front: seq<T>, x: T, back: seq<T>)
    ensures multiset(front + back) == multiset(front + [x] + back) - multiset{x}
  {
    calc {
      multiset(front + [x] + back) - multiset{x};
      multiset(front) + multiset{x} + multiset(back) - multiset{x};
      multiset(front) + multiset(back);
      multiset(front + back);
    }
  }

  lemma ApplyAround<T, U>(front: seq<T>, x: T, back: seq<T>, f: T -> U)
    ensures multiset(Apply(front + [x] + back, f)) == multiset(Apply(front + back, f)) + multiset{f(x)}
  {
    ApplyAppend(front + [x], back, f);
    ApplyAppend(front, [x], f);
    ApplyAppend(front, back, f);
    assert Apply([x], f) == [f(x)];
  }

  /** Mapping over two lists with the same elements gives two lists with the same elements. */
  lemma {:induction false} ApplyPermutation<T, U>(p: seq<T>, q: seq<T>, f: T -> U)
    requires multiset(p) == multiset(q)
    ensures multiset(Apply(p, f)) == multiset(Apply(q, f))
    decreases |p|
  {
    if p != [] {
      var init, x := p[..|p| - 1], p[|p| - 1];
      assert x in multiset(q);
      var j :| 0 <= j < |q| && q[j] == x;
      var front, back := q[..j], q[j + 1..];
      assert q == front + [x] + back;
      assert p == init + [x] + [];
      assert init + [] == init;
      RemoveOne(init, x, []);
      RemoveOne(front, x, back);
      ApplyPermutation(init, front + back, f);
      ApplyAround(init, x, [], f);
      ApplyAround(front, x, back, f);
    }
  }
}
