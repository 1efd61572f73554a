/**
 * Python's ordering of strings (code point by code point, a proper prefix
 * first) and of pairs of strings (lexicographic), and `sorted` applied to a
 * set of pairs.
 */
module Order {

  /** `a < b` on Python strings. */
  predicate StrLess(a: string, b: string)
  {
    if |a| == 0 then |b| > 0
    else if |b| == 0 then false
    else if a[0] != b[0] then a[0] < b[0]
    else StrLess(a[1..], b[1..])
  }

  lemma {:induction false} StrLessIrreflexive(a: string)
    ensures !StrLess(a, a)
  {
    if |a| > 0 {
      StrLessIrreflexive(a[1..]);
    }
  }

  lemma {:induction false} StrLessTransitive(a: string, b: string, c: string)
    requires StrLess(a, b) && StrLess(b, c)
    ensures StrLess(a, c)
  {
    if |a| > 0 && a[0] == b[0] && b[0] == c[0] {
      StrLessTransitive(a[1..], b[1..], c[1..]);
    }
  }

  lemma {:induction false} StrLessTotal(a: string, b: string)
    ensures a == b || StrLess(a, b) || StrLess(b, a)
  {
    if |a| > 0 && |b| > 0 && a[0] == b[0] {
      StrLessTotal(a[1..], b[1..]);
      if a[1..] == b[1..] {
        assert a == [a[0]] + a[1..] && b == [b[0]] + b[1..];
      }
    }
  }

  lemma StrLessAsymmetric(a: string, b: string)
    requires StrLess(a, b)
    ensures !StrLess(b, a)
  {
    if StrLess(b, a) {
      StrLessTransitive(a, b, a);
      StrLessIrreflexive(a);
    }
  }

  type Pair = (string, string)

  /** `x < y` on Python 2-tuples of strings. */
  predicate PairLess(x: Pair, y: Pair)
  {
    StrLess(x.0, y.0) || (x.0 == y.0 && StrLess(x.1, y.1))
  }

  lemma PairLessFacts()
    ensures forall x: Pair :: !PairLess(x, x)
    ensures forall x: Pair, y: Pair :: PairLess(x, y) ==> !PairLess(y, x)
    ensures forall x: Pair, y: Pair :: x == y || PairLess(x, y) || PairLess(y, x)
    ensures forall x: Pair, y: Pair, z: Pair :: PairLess(x, y) && PairLess(y, z) ==> PairLess(x, z)
  {
    forall x: Pair ensures !PairLess(x, x) {
      StrLessIrreflexive(x.0);
      StrLessIrreflexive(x.1);
    }
    forall x: Pair, y: Pair | PairLess(x, y) ensures !PairLess(y, x) {
      if StrLess(x.0, y.0) {
        StrLessAsymmetric(x.0, y.0);
        StrLessIrreflexive(x.0);
      } else {
        StrLessAsymmetric(x.1, y.1);
        StrLessIrreflexive(x.0);
      }
    }
    forall x: Pair, y: Pair ensures x == y || PairLess(x, y) || PairLess(y, x) {
      StrLessTotal(x.0, y.0);
      StrLessTotal(x.1, y.1);
    }
    forall x: Pair, y: Pair, z: Pair | PairLess(x, y) && PairLess(y, z) ensures PairLess(x, z) {
      if StrLess(x.0, y.0) && StrLess(y.0, z.0) {
        StrLessTransitive(x.0, y.0, z.0);
      } else if StrLess(x.1, y.1) && StrLess(y.1, z.1) && x.0 == y.0 == z.0 {
        StrLessTransitive(x.1, y.1, z.1);
      }
    }
  }

  /** Strictly increasing, hence free of duplicates. */
  predicate StrictlySorted(r: seq<Pair>)
  {
    forall i, j :: 0 <= i < j < |r| ==> PairLess(r[i], r[j])
  }

  predicate IsLeast(m: Pair, s: set<Pair>)
  {
    m in s && forall y :: y in s && y != m ==> PairLess(m, y)
  }

  lemma {:induction false} LeastExists(s: set<Pair>)
    requires s != {}
    ensures exists m :: IsLeast(m, s)
    decreases |s|
  {
    PairLessFacts();
    var x :| x in s;
    if s != {x} {
      LeastExists(s - {x});
      var m :| IsLeast(m, s - {x});
      if PairLess(x, m) {
        assert IsLeast(x, s);
      } else {
        assert IsLeast(m, s);
      }
    } else {
      assert IsLeast(x, s);
    }
  }

  /**
   * `sorted(s)` for a set of pairs: the elements of `s`, each once, in
   * increasing order.
   */
  function SortedPairs(s: set<Pair>): (r: seq<Pair>)
    ensures forall p :: p in r <==> p in s
    ensures StrictlySorted(r)
    ensures |r| == |s|
    decreases |s|
  {
    if s == {} then []
    else
      LeastExists(s);
      LeastUnique(s);
      var m :| IsLeast(m, s);
      var rest := SortedPairs(s - {m});
      SortedCons(m, s, rest);
      [m] + rest
  }

  lemma SortedCons(m: Pair, s: set<Pair>, rest: seq<Pair>)
    requires IsLeast(m, s)
    requires forall p :: p in rest <==> p in s - {m}
    requires StrictlySorted(rest)
    ensures StrictlySorted([m] + rest)
  {
    var r := [m] + rest;
    forall i, j | 0 <= i < j < |r| ensures PairLess(r[i], r[j]) {
      if i == 0 {
        assert r[j] == rest[j - 1] && r[j] in rest;
      } else {
        assert r[i] == rest[i - 1] && r[j] == rest[j - 1];
      }
    }
  }

  lemma LeastUnique(s: set<Pair>)
    ensures forall a, b :: IsLeast(a, s) && IsLeast(b, s) ==> a == b
  {
    forall a, b | IsLeast(a, s) && IsLeast(b, s) ensures a == b {
      if a != b {
        PairLessAsymmetric(a, b);
      }
    }
  }

  lemma PairLessAsymmetric(x: Pair, y: Pair)
    requires PairLess(x, y)
    ensures !PairLess(y, x)
  {
    if StrLess(x.0, y.0) {
      StrLessAsymmetric(x.0, y.0);
      StrLessIrreflexive(x.0);
    } else {
      StrLessAsymmetric(x.1, y.1);
      StrLessIrreflexive(x.0);
    }
  }
}
