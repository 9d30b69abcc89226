/**
 Double counting in the mesh: the paths of at most two hops, summed over all pairs, are the links
 plus, for every node, the pairs of its neighbours.
 */
module MeshCounting {
  import opened Sums
  import opened Mesh

  ghost function Neighbours(n: nat, e: Links, i: nat): set<nat> {
    set k: nat | k < n && Adj(e, i, k)
  }

  ghost function Degree(n: nat, e: Links, i: nat): nat {
    |Neighbours(n, e, i)|
  }

  /** The number of pairs among d things. */
  ghost function Choose2(d: int): int {
    d * (d - 1) / 2
  }

  lemma HalfOfDouble(q: int)
    ensures 2 * (2 * q / 2) == 2 * q
  {
  }

  lemma TwiceChoose2(d: int)
    ensures 2 * Choose2(d) == d * (d - 1)
  {
    var h := d / 2;
    var q := if d == 2 * h then h * (d - 1) else h * d;
    assert d * (d - 1) == 2 * q by {
      assert d == 2 * h || d - 1 == 2 * h;
    }
    HalfOfDouble(q);
  }

  lemma Choose2Step(d: int)
    ensures Choose2(d + 1) == Choose2(d) + d
  {
    TwiceChoose2(d);
    TwiceChoose2(d + 1);
    assert (d + 1) * d == d * (d - 1) + 2 * d;
  }

  ghost function Near(e: Links, i: nat, j: nat): int {
    Indicator(Adj(e, i, j))
  }

  ghost function Opens(e: Links, i: nat, j: nat): int {
    Indicator((i, j) in e)
  }

  /** The paths of the pair i, j; zero on the diagonal. */
  ghost function PairPaths(n: nat, e: Links, i: nat, j: nat): int {
    if i == j then 0 else Paths(n, e, i, j)
  }

  /** What inner node k adds to the two-hop paths of the pair i, j. */
  ghost function Via(e: Links, i: nat, j: nat, k: nat): int {
    if i == j then 0 else Near(e, i, k) * Near(e, k, j)
  }

  ghost function TwoHop(n: nat, e: Links, i: nat, j: nat): int {
    Sum(n, (k: nat) => Via(e, i, j, k))
  }

  /** The sum of paths over unordered pairs. */
  ghost function PathTotal(n: nat, e: Links): int {
    PairSum(n, (i: nat, j: nat) => PairPaths(n, e, i, j))
  }

  ghost function ForkTotal(n: nat, e: Links): int {
    Sum(n, (k: nat) => Choose2(Degree(n, e, k)))
  }

  lemma DegreeAsSum(n: nat, e: Links, k: nat)
    ensures Degree(n, e, k) == Sum(n, (j: nat) => Near(e, k, j))
  {
    var s := Neighbours(n, e, k);
    CountAsSum(n, s);
    SumEq(n, (j: nat) => Indicator(j in s), (j: nat) => Near(e, k, j));
  }

  lemma TwoHopCounts(n: nat, e: Links, i: nat, j: nat)
    requires Simple(n, e) && i != j
    ensures TwoHop(n, e, i, j) == |Common(n, e, i, j)|
  {
    var s := Common(n, e, i, j);
    CountAsSum(n, s);
    SumEq(n, (k: nat) => Indicator(k in s), (k: nat) => Via(e, i, j, k));
  }

  /** From i, the two-hop paths over k lead to every neighbour of k but i itself. */
  lemma ViaRow(n: nat, e: Links, i: nat, k: nat)
    requires i < n
    ensures Sum(n, (j: nat) => Via(e, i, j, k)) == Near(e, i, k) * (Degree(n, e, k) - 1)
  {
    var near := (j: nat) => Near(e, k, j);
    var others := (j: nat) => if j == i then 0 else Near(e, k, j);
    DegreeAsSum(n, e, k);
    SumChangeOne(n, i, near, others);
    SumScale(n, Near(e, i, k), others, (j: nat) => Via(e, i, j, k));
    assert Near(e, i, k) == Near(e, k, i);
    assert Near(e, i, k) * Near(e, k, i) == Near(e, i, k);
    var d: int, b := Degree(n, e, k), Near(e, i, k);
    assert b * (d - b) == b * d - b * b == b * (d - 1);
  }

  ghost function Weighted(n: nat, e: Links, i: nat, k: nat): int {
    Near(e, i, k) * (Degree(n, e, k) - 1)
  }

  lemma TwoHopRow(n: nat, e: Links, i: nat)
    requires i < n
    ensures Sum(n, (j: nat) => TwoHop(n, e, i, j)) == Sum(n, (k: nat) => Weighted(n, e, i, k))
  {
    var f := (j: nat, k: nat) => Via(e, i, j, k);
    var g := (k: nat, j: nat) => f(j, k);
    Exchange(n, n, f);
    var rows := (j: nat) => Sum(n, (k: nat) => f(j, k));
    forall j: nat | j < n
      ensures TwoHop(n, e, i, j) == rows(j)
    {
      SumEq(n, (k: nat) => Via(e, i, j, k), (k: nat) => f(j, k));
    }
    SumEq(n, (j: nat) => TwoHop(n, e, i, j), rows);
    var columns := (k: nat) => Sum(n, (j: nat) => g(k, j));
    forall k: nat | k < n
      ensures columns(k) == Weighted(n, e, i, k)
    {
      ViaRow(n, e, i, k);
      SumEq(n, (j: nat) => Via(e, i, j, k), (j: nat) => g(k, j));
    }
    SumEq(n, columns, (k: nat) => Weighted(n, e, i, k));
  }

  lemma WeightedColumn(n: nat, e: Links, k: nat)
    ensures Sum(n, (i: nat) => Weighted(n, e, i, k)) == 2 * Choose2(Degree(n, e, k))
  {
    var d: int := Degree(n, e, k);
    DegreeAsSum(n, e, k);
    SumEq(n, (j: nat) => Near(e, k, j), (j: nat) => Near(e, j, k));
    SumScale(n, d - 1, (j: nat) => Near(e, j, k), (i: nat) => Weighted(n, e, i, k));
    TwiceChoose2(d);
  }

  /** Over all ordered pairs the two-hop paths are twice the pairs of neighbours. */
  lemma TwoHopTotal(n: nat, e: Links)
    ensures Table(n, n, (i: nat, j: nat) => TwoHop(n, e, i, j)) == 2 * ForkTotal(n, e)
  {
    var f := (i: nat, j: nat) => TwoHop(n, e, i, j);
    var w := (i: nat, k: nat) => Weighted(n, e, i, k);
    var byRow := (i: nat) => Sum(n, (j: nat) => f(i, j));
    var weightedRow := (i: nat) => Sum(n, (k: nat) => w(i, k));
    forall i: nat | i < n
      ensures byRow(i) == weightedRow(i)
    {
      TwoHopRow(n, e, i);
      SumEq(n, (j: nat) => f(i, j), (j: nat) => TwoHop(n, e, i, j));
      SumEq(n, (k: nat) => w(i, k), (k: nat) => Weighted(n, e, i, k));
    }
    SumEq(n, byRow, weightedRow);
    Exchange(n, n, w);
    var t := (k: nat, i: nat) => w(i, k);
    var byColumn := (k: nat) => Sum(n, (i: nat) => t(k, i));
    forall k: nat | k < n
      ensures byColumn(k) == 2 * Choose2(Degree(n, e, k))
    {
      WeightedColumn(n, e, k);
      SumEq(n, (i: nat) => t(k, i), (i: nat) => Weighted(n, e, i, k));
    }
    SumScale(n, 2, (k: nat) => Choose2(Degree(n, e, k)), byColumn);
  }

  ghost function LinksBelow(e: Links, m: nat): Links {
    set l | l in e && l.0 < m
  }

  lemma LinksOfRow(n: nat, e: Links, m: nat)
    requires Simple(n, e)
    ensures |LinksBelow(e, m + 1)| == |LinksBelow(e, m)| + |OutNodes(n, e, m)|
  {
    var out := OutNodes(n, e, m);
    var row: Links := set j | j in out :: (m, j);
    InjectiveImageSize(out, (j: nat) => (m, j), row);
    assert LinksBelow(e, m + 1) == LinksBelow(e, m) + row;
    assert LinksBelow(e, m) !! row;
  }

  lemma {:induction false} LinksAsTable(m: nat, n: nat, e: Links)
    requires Simple(n, e)
    ensures |LinksBelow(e, m)| == Table(m, n, (i: nat, j: nat) => Opens(e, i, j))
  {
    if m == 0 {
      assert LinksBelow(e, 0) == {};
    } else {
      var f := (i: nat, j: nat) => Opens(e, i, j);
      LinksAsTable(m - 1, n, e);
      LinksOfRow(n, e, m - 1);
      var out := OutNodes(n, e, m - 1);
      CountAsSum(n, out);
      SumEq(n, (j: nat) => Indicator(j in out), (j: nat) => f(m - 1, j));
    }
  }

  /** Every link is a neighbour relation of both its ends. */
  lemma Handshake(n: nat, e: Links)
    requires Simple(n, e)
    ensures Table(n, n, (i: nat, j: nat) => Near(e, i, j)) == 2 * |e|
  {
    var out := (i: nat, j: nat) => Opens(e, i, j);
    var inc := (j: nat, i: nat) => out(i, j);
    LinksAsTable(n, n, e);
    assert LinksBelow(e, n) == e;
    Exchange(n, n, out);
    TableAdd(n, n, out, inc, (i: nat, j: nat) => Near(e, i, j));
  }

  /** The double counting law, for every mesh. */
  lemma PathTotalLaw(n: nat, e: Links)
    requires Simple(n, e)
    ensures PathTotal(n, e) == |e| + ForkTotal(n, e)
  {
    var f := (i: nat, j: nat) => PairPaths(n, e, i, j);
    var near := (i: nat, j: nat) => Near(e, i, j);
    var two := (i: nat, j: nat) => TwoHop(n, e, i, j);
    forall i: nat, j: nat | i < n && j < n
      ensures f(i, j) == f(j, i) && f(i, j) == near(i, j) + two(i, j)
    {
      PathsSymmetric(n, e, i, j);
      if i == j {
        SumZero(n, (k: nat) => Via(e, i, j, k));
      } else {
        TwoHopCounts(n, e, i, j);
      }
    }
    SymmetricTable(n, f);
    TableAdd(n, n, near, two, f);
    Handshake(n, e);
    TwoHopTotal(n, e);
  }

  lemma NewNeighbours(e: Links, a: nat, b: nat, k: nat, x: nat)
    ensures Adj(e + {(a, b)}, k, x) <==> Adj(e, k, x) || (k == a && x == b) || (k == b && x == a)
  {
  }

  lemma DegreeGrowth(n: nat, e: Links, a: nat, b: nat, k: nat)
    requires Free(n, e, a, b)
    ensures Degree(n, e + {(a, b)}, k) == Degree(n, e, k) + Indicator(k == a || k == b)
  {
    var before, after := Neighbours(n, e, k), Neighbours(n, e + {(a, b)}, k);
    var gained := if k == a then {b} else if k == b then {a} else {};
    forall x: nat
      ensures x in after <==> x in before || x in gained
    {
      NewNeighbours(e, a, b, k, x);
    }
    assert after == before + gained;
    assert before !! gained;
  }

  lemma ForkGrowth(n: nat, e: Links, a: nat, b: nat)
    requires Free(n, e, a, b)
    ensures ForkTotal(n, e + {(a, b)}) == ForkTotal(n, e) + Degree(n, e, a) + Degree(n, e, b)
  {
    var f := (k: nat) => Choose2(Degree(n, e, k));
    var g := (k: nat) => Choose2(Degree(n, e + {(a, b)}, k));
    var h := (k: nat) => if k == a then g(k) else f(k);
    forall k: nat
      ensures g(k) == f(k) + if k == a || k == b then Degree(n, e, k) else 0
    {
      DegreeGrowth(n, e, a, b, k);
      Choose2Step(Degree(n, e, k));
    }
    SumChangeOne(n, a, f, h);
    SumChangeOne(n, b, h, g);
  }

  /** Linking a free pair adds one direct path and one two-hop path per neighbour of either end. */
  lemma PathTotalGrowth(n: nat, e: Links, a: nat, b: nat)
    requires Simple(n, e) && Free(n, e, a, b)
    ensures PathTotal(n, e + {(a, b)}) == PathTotal(n, e) + 1 + Degree(n, e, a) + Degree(n, e, b)
  {
    PathTotalLaw(n, e);
    PathTotalLaw(n, e + {(a, b)});
    ForkGrowth(n, e, a, b);
  }

  lemma TimesChoose2(t: nat, n: nat)
    requires n > 0
    ensures t * Choose2(n) == t * Choose2(n - 1) + t * (n - 1)
  {
    Choose2Step(n - 1);
    var c, d := Choose2(n - 1), n - 1;
    assert t * (c + d) == t * c + t * d;
  }

  lemma {:induction false} PairSumAtLeast(n: nat, t: nat, f: (nat, nat) -> int)
    requires forall i: nat, j: nat :: i < j < n ==> f(i, j) >= t
    ensures PairSum(n, f) >= t * Choose2(n)
  {
    if n == 0 {
    } else {
      PairSumAtLeast(n - 1, t, f);
      SumAtLeast(n - 1, t, (i: nat) => f(i, n - 1));
      TimesChoose2(t, n);
    }
  }

  lemma {:induction false} SumAtLeast(n: nat, t: nat, f: nat -> int)
    requires forall k: nat :: k < n ==> f(k) >= t
    ensures Sum(n, f) >= t * n
  {
    if n == 0 {
    } else {
      SumAtLeast(n - 1, t, f);
    }
  }

  /** The price of t paths per pair, paid in links and in pairs of neighbours. */
  lemma LinkBudget(n: nat, e: Links, t: nat)
    requires Simple(n, e) && AllPairsHave(n, e, t)
    ensures |e| + ForkTotal(n, e) >= t * Choose2(n)
  {
    PathTotalLaw(n, e);
    var f := (i: nat, j: nat) => PairPaths(n, e, i, j);
    forall i: nat, j: nat | i < j < n
      ensures f(i, j) >= t
    {
      assert Paths(n, e, i, j) >= t;
    }
    PairSumAtLeast(n, t, f);
  }
}
