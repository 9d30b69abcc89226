/** Finite sums, finite counts and finite sets of naturals, as the mesh proofs need them. */
module Sums {

  /** f(0) + ... + f(n-1) */
  ghost function Sum(n: nat, f: nat -> int): int {
    if n == 0 then 0 else Sum(n - 1, f) + f(n - 1)
  }

  /** Sums depend only on the values below the bound. */
  lemma {:induction false} SumEq(n: nat, f: nat -> int, g: nat -> int)
    requires forall k: nat :: k < n ==> f(k) == g(k)
    ensures Sum(n, f) == Sum(n, g)
  {
    if n == 0 {
    } else {
      SumEq(n - 1, f, g);
    }
  }

  lemma {:induction false} SumAdd(n: nat, f: nat -> int, g: nat -> int, h: nat -> int)
    requires forall k: nat :: k < n ==> h(k) == f(k) + g(k)
    ensures Sum(n, h) == Sum(n, f) + Sum(n, g)
  {
    if n == 0 {
    } else {
      SumAdd(n - 1, f, g, h);
    }
  }

  lemma {:induction false} SumScale(n: nat, c: int, f: nat -> int, h: nat -> int)
    requires forall k: nat :: k < n ==> h(k) == c * f(k)
    ensures Sum(n, h) == c * Sum(n, f)
  {
    if n == 0 {
    } else {
      SumScale(n - 1, c, f, h);
    }
  }

  lemma {:induction false} SumZero(n: nat, f: nat -> int)
    requires forall k: nat :: k < n ==> f(k) == 0
    ensures Sum(n, f) == 0
  {
    if n == 0 {
    } else {
      SumZero(n - 1, f);
    }
  }

  /** A sum that differs from another in one summand only. */
  lemma {:induction false} SumChangeOne(n: nat, a: nat, f: nat -> int, g: nat -> int)
    requires a < n
    requires forall k: nat :: k < n && k != a ==> f(k) == g(k)
    ensures Sum(n, g) == Sum(n, f) + g(a) - f(a)
  {
    if a == n - 1 {
      SumEq(n - 1, f, g);
    } else {
      SumChangeOne(n - 1, a, f, g);
    }
  }

  /** Sum over the rows of an m-by-n table. */
  ghost function Table(m: nat, n: nat, f: (nat, nat) -> int): int {
    Sum(m, (i: nat) => Sum(n, (j: nat) => f(i, j)))
  }

  lemma TableAdd(m: nat, n: nat, f: (nat, nat) -> int, g: (nat, nat) -> int, h: (nat, nat) -> int)
    requires forall i: nat, j: nat :: i < m && j < n ==> h(i, j) == f(i, j) + g(i, j)
    ensures Table(m, n, h) == Table(m, n, f) + Table(m, n, g)
  {
    var rf := (i: nat) => Sum(n, (j: nat) => f(i, j));
    var rg := (i: nat) => Sum(n, (j: nat) => g(i, j));
    var rh := (i: nat) => Sum(n, (j: nat) => h(i, j));
    forall i: nat | i < m
      ensures rh(i) == rf(i) + rg(i)
    {
      SumAdd(n, (j: nat) => f(i, j), (j: nat) => g(i, j), (j: nat) => h(i, j));
    }
    SumAdd(m, rf, rg, rh);
  }

  /** Adding the last column. */
  lemma TableLastColumn(m: nat, n: nat, f: (nat, nat) -> int)
    ensures Table(m, n + 1, f) == Table(m, n, f) + Sum(m, (i: nat) => f(i, n))
  {
    var wide := (i: nat) => Sum(n + 1, (j: nat) => f(i, j));
    var narrow := (i: nat) => Sum(n, (j: nat) => f(i, j));
    SumAdd(m, narrow, (i: nat) => f(i, n), wide);
  }

  /** Summing by rows and by columns is the same. */
  lemma {:induction false} Exchange(m: nat, n: nat, f: (nat, nat) -> int)
    ensures Table(m, n, f) == Table(n, m, (j: nat, i: nat) => f(i, j))
  {
    var g := (j: nat, i: nat) => f(i, j);
    if n == 0 {
      SumZero(m, (i: nat) => Sum(n, (j: nat) => f(i, j)));
    } else {
      Exchange(m, n - 1, f);
      TableLastColumn(m, n - 1, f);
      SumEq(m, (i: nat) => f(i, n - 1), (i: nat) => g(n - 1, i));
    }
  }

  /** Sum over unordered pairs i < j below n. */
  ghost function PairSum(n: nat, f: (nat, nat) -> int): int {
    Sum(n, (j: nat) => Sum(j, (i: nat) => f(i, j)))
  }

  /** A symmetric table with an empty diagonal counts every unordered pair twice. */
  lemma {:induction false} SymmetricTable(n: nat, f: (nat, nat) -> int)
    requires forall i: nat, j: nat :: i < n && j < n ==> f(i, j) == f(j, i)
    requires forall i: nat :: i < n ==> f(i, i) == 0
    ensures Table(n, n, f) == 2 * PairSum(n, f)
  {
    if n == 0 {
    } else {
      SymmetricTable(n - 1, f);
      TableLastColumn(n - 1, n - 1, f);
      SumEq(n - 1, (i: nat) => f(i, n - 1), (j: nat) => f(n - 1, j));
      assert Table(n, n, f) == Table(n - 1, n, f) + Sum(n, (j: nat) => f(n - 1, j));
    }
  }

  ghost function Indicator(b: bool): int {
    if b then 1 else 0
  }

  /** Counting a set of naturals below n is summing its indicator. */
  lemma {:induction false} CountAsSum(n: nat, s: set<nat>)
    requires forall k :: k in s ==> k < n
    ensures |s| == Sum(n, (k: nat) => Indicator(k in s))
  {
    if n == 0 {
      assert s == {};
    } else {
      var rest := s - {n - 1};
      CountAsSum(n - 1, rest);
      SumEq(n - 1, (k: nat) => Indicator(k in rest), (k: nat) => Indicator(k in s));
      if n - 1 in s {
        assert s == rest + {n - 1};
      } else {
        assert s == rest;
      }
    }
  }

  /** A set of naturals below n has at most n members, and n only if it has them all. */
  lemma {:induction false} BoundedSetSize(n: nat, s: set<nat>)
    requires forall k :: k in s ==> k < n
    ensures |s| <= n
    ensures |s| == n <==> (forall k: nat :: k < n ==> k in s)
  {
    if n == 0 {
      assert s == {};
    } else {
      BoundedSetSize(n - 1, s - {n - 1});
      if forall k: nat :: k < n ==> k in s {
        assert s == (s - {n - 1}) + {n - 1};
      } else if |s| == n {
        assert |s - {n - 1}| == n - 1;
      }
    }
  }

  lemma SubsetSize<T>(a: set<T>, b: set<T>)
    requires a <= b
    ensures |a| <= |b|
    ensures |a| == |b| ==> a == b
  {
    assert b == a + (b - a);
  }

  /** An image under a map that is injective on a set has the size of that set. */
  lemma {:induction false} InjectiveImageSize<T, U>(s: set<T>, f: T -> U, image: set<U>)
    requires image == set x | x in s :: f(x)
    requires forall x, y :: x in s && y in s && f(x) == f(y) ==> x == y
    ensures |image| == |s|
    decreases |s|
  {
    if s == {} {
    } else {
      var x :| x in s;
      var rest := s - {x};
      var restImage := set y | y in rest :: f(y);
      InjectiveImageSize(rest, f, restImage);
      assert f(x) !in restImage;
      assert image == restImage + {f(x)};
      assert s == rest + {x};
    }
  }
}
