/**
 The quorum mesh as a graph: the links of a connection matrix, the paths of at most two hops
 between two nodes, and what adding links does to them.
 */
module Mesh {
  import opened Sums

  /** (i, j) is a link that node i opens to node j. */
  type Links = set<(nat, nat)>

  /** How many paths of at most two hops every pair needs. */
  function MinConnections(n: nat): nat {
    if n <= 10 then 4 else 2
  }

  /** Once open, a link carries traffic both ways. */
  ghost predicate Adj(e: Links, i: nat, j: nat) {
    (i, j) in e || (j, i) in e
  }

  /** Links join two different nodes below n and are never doubled back. */
  ghost predicate Simple(n: nat, e: Links) {
    forall i, j :: (i, j) in e ==> i < n && j < n && i != j && (j, i) !in e
  }

  /** The inner nodes of the two-hop paths between i and j. */
  ghost function Common(n: nat, e: Links, i: nat, j: nat): set<nat> {
    set k: nat | k < n && k != i && k != j && Adj(e, i, k) && Adj(e, k, j)
  }

  /** The number of paths of at most two hops between i and j. */
  ghost function Paths(n: nat, e: Links, i: nat, j: nat): nat {
    (if Adj(e, i, j) then 1 else 0) + |Common(n, e, i, j)|
  }

  ghost predicate AllPairsHave(n: nat, e: Links, t: nat) {
    forall i: nat, j: nat :: i < j < n ==> Paths(n, e, i, j) >= t
  }

  ghost predicate IsMinPaths(n: nat, e: Links, m: nat) {
    && AllPairsHave(n, e, m)
    && exists i: nat, j: nat :: i < j < n && Paths(n, e, i, j) == m
  }

  /** The pairs with at most m paths. */
  ghost function Deficient(n: nat, e: Links, m: nat): set<(nat, nat)> {
    set i: nat, j: nat | i < n && j < n && i < j && Paths(n, e, i, j) <= m :: (i, j)
  }

  ghost function OutNodes(n: nat, e: Links, i: nat): set<nat> {
    set j: nat | j < n && (i, j) in e
  }

  ghost function InNodes(n: nat, e: Links, j: nat): set<nat> {
    set i: nat | i < n && (i, j) in e
  }

  /** A pair that the generator may still link. */
  ghost predicate Free(n: nat, e: Links, i: nat, j: nat) {
    i < n && j < n && i != j && !Adj(e, i, j)
  }

  ghost function FreePairs(n: nat, e: Links): set<(nat, nat)> {
    set i: nat, j: nat | i < n && j < n && Free(n, e, i, j) :: (i, j)
  }

  ghost predicate NoneFree(n: nat, e: Links) {
    forall i: nat, j: nat :: !Free(n, e, i, j)
  }

  lemma PathsSymmetric(n: nat, e: Links, i: nat, j: nat)
    ensures Paths(n, e, i, j) == Paths(n, e, j, i)
  {
    assert Common(n, e, i, j) == Common(n, e, j, i);
  }

  /** No mesh, however dense, gives a pair more than n - 1 paths. */
  lemma PathsBound(n: nat, e: Links, i: nat, j: nat)
    requires i < n && j < n && i != j
    ensures Paths(n, e, i, j) <= n - 1
  {
    var c := Common(n, e, i, j);
    BoundedSetSize(n, c + {i, j});
    assert |c + {i, j}| == |c + {i}| + 1 == |c| + 2;
  }

  /** A mesh with nothing left to link reaches that bound on every pair. */
  lemma CompletePaths(n: nat, e: Links, i: nat, j: nat)
    requires NoneFree(n, e)
    requires i < n && j < n && i != j
    ensures Paths(n, e, i, j) == n - 1
  {
    var c := Common(n, e, i, j);
    assert !Free(n, e, i, j);
    forall k: nat | k < n
      ensures k in c + {i, j}
    {
      assert !Free(n, e, i, k) && !Free(n, e, k, j);
    }
    BoundedSetSize(n, c + {i, j});
    assert |c + {i, j}| == |c + {i}| + 1 == |c| + 2;
  }

  /** More links never cost a pair a path. */
  lemma PathsMonotone(n: nat, e: Links, e': Links, i: nat, j: nat)
    requires e <= e'
    ensures Paths(n, e, i, j) <= Paths(n, e', i, j)
  {
    assert Common(n, e, i, j) <= Common(n, e', i, j);
    SubsetSize(Common(n, e, i, j), Common(n, e', i, j));
  }

  /** So the number of pairs with at most m paths never grows. */
  lemma DeficientAntitone(n: nat, e: Links, e': Links, m: nat)
    requires e <= e'
    ensures |Deficient(n, e', m)| <= |Deficient(n, e, m)|
  {
    forall p | p in Deficient(n, e', m)
      ensures p in Deficient(n, e, m)
    {
      PathsMonotone(n, e, e', p.0, p.1);
    }
    SubsetSize(Deficient(n, e', m), Deficient(n, e, m));
  }

  /** The least number of paths over all pairs; there is a pair as soon as there are two nodes. */
  ghost function MinPaths(n: nat, e: Links): (m: nat)
    requires n >= 2
    ensures IsMinPaths(n, e, m)
  {
    MinPathsExists(n, e, Paths(n, e, 0, 1), 0, 1);
    var m: nat :| IsMinPaths(n, e, m);
    m
  }

  lemma {:induction false} MinPathsExists(n: nat, e: Links, m: nat, i: nat, j: nat)
    requires i < j < n && Paths(n, e, i, j) == m
    ensures exists m': nat :: IsMinPaths(n, e, m')
    decreases m
  {
    if AllPairsHave(n, e, m) {
      assert IsMinPaths(n, e, m);
    } else {
      var a: nat, b: nat :| a < b < n && Paths(n, e, a, b) < m;
      MinPathsExists(n, e, Paths(n, e, a, b), a, b);
    }
  }

  lemma MinPathsUnique(n: nat, e: Links, m: nat)
    requires n >= 2 && IsMinPaths(n, e, m)
    ensures m == MinPaths(n, e)
  {
  }

  lemma MinPathsMonotone(n: nat, e: Links, e': Links)
    requires n >= 2 && e <= e'
    ensures MinPaths(n, e) <= MinPaths(n, e')
  {
    var i: nat, j: nat :| i < j < n && Paths(n, e', i, j) == MinPaths(n, e');
    PathsMonotone(n, e, e', i, j);
  }

  /** With no link at all the minimum is zero, which is where the generator starts. */
  lemma MinPathsEmpty(n: nat)
    requires n >= 2
    ensures MinPaths(n, {}) == 0
  {
    assert Common(n, {}, 0, 1) == {};
    assert Paths(n, {}, 0, 1) == 0;
  }

  /** The mesh that links every pair once. */
  ghost function CompleteLinks(n: nat): Links {
    set i: nat, j: nat | i < n && j < n && i < j :: (i, j)
  }

  /** A target of t paths per pair can be met by some mesh exactly when t <= n - 1. */
  lemma TargetReachable(n: nat, t: nat)
    requires n >= 2
    ensures (exists e: Links :: Simple(n, e) && AllPairsHave(n, e, t)) <==> t <= n - 1
  {
    if t <= n - 1 {
      var e := CompleteLinks(n);
      forall i: nat, j: nat | i < j < n
        ensures Paths(n, e, i, j) >= t
      {
        CompletePaths(n, e, i, j);
      }
      assert Simple(n, e) && AllPairsHave(n, e, t);
    }
    if e: Links :| Simple(n, e) && AllPairsHave(n, e, t) {
      PathsBound(n, e, 0, 1);
    }
  }

  /** For two to four nodes the wanted four paths per pair are out of reach of any matrix at all,
      so the loop's exit test fails in every state; from five nodes on the target is in reach. */
  lemma GeneratorCanFinishIff(n: nat)
    requires n >= 2
    ensures (exists e: Links :: MinPaths(n, e) >= MinConnections(n)) <==> n >= 5
  {
    if n >= 5 {
      TargetReachable(n, MinConnections(n));
      var e: Links :| Simple(n, e) && AllPairsHave(n, e, MinConnections(n));
      assert MinPaths(n, e) >= MinConnections(n);
    } else {
      forall e: Links
        ensures MinPaths(n, e) < MinConnections(n)
      {
        PathsBound(n, e, 0, 1);
      }
    }
  }

  /** A free pair's degree sum is below the 2n that the scan starts from. */
  lemma FreeDegreeBound(n: nat, e: Links, i: nat, j: nat)
    requires Simple(n, e) && Free(n, e, i, j)
    ensures |OutNodes(n, e, i)| + |InNodes(n, e, j)| + 2 <= 2 * n - 2
  {
    var out := OutNodes(n, e, i);
    var inc := InNodes(n, e, j);
    BoundedSetSize(n, out + {i, j});
    assert |out + {i, j}| == |out + {i}| + 1 == |out| + 2;
    BoundedSetSize(n, inc + {i, j});
    assert |inc + {i, j}| == |inc + {i}| + 1 == |inc| + 2;
  }
}
