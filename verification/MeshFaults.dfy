/**
 What the path count of the mesh is for: a pair with t paths of at most two hops stays within two
 hops of each other after any t - 1 faults, and no fewer paths would do.
 */
module MeshFaults {
  import opened Sums
  import opened Mesh
  import opened MeshRuns

  /** The undirected link between a and b, whichever of them opened it. */
  function Wire(a: nat, b: nat): (nat, nat) {
    if a <= b then (a, b) else (b, a)
  }

  ghost predicate Intact(e: Links, cut: set<(nat, nat)>, a: nat, b: nat) {
    Adj(e, a, b) && Wire(a, b) !in cut
  }

  /** Node k still relays from i to j. */
  ghost predicate Relays(n: nat, e: Links, down: set<nat>, cut: set<(nat, nat)>, i: nat, k: nat, j: nat) {
    k < n && k != i && k != j && k !in down && Intact(e, cut, i, k) && Intact(e, cut, k, j)
  }

  /** With the nodes of `down` dead and the wires of `cut` broken, i still reaches j in two hops. */
  ghost predicate Reaches(n: nat, e: Links, down: set<nat>, cut: set<(nat, nat)>, i: nat, j: nat) {
    Intact(e, cut, i, j) || exists k: nat :: Relays(n, e, down, cut, i, k, j)
  }

  /** A broken wire on the two-hop path over k. */
  ghost function BrokenWire(cut: set<(nat, nat)>, i: nat, k: nat, j: nat): (nat, nat) {
    if Wire(i, k) in cut then Wire(i, k) else Wire(k, j)
  }

  /** No wire lies on two of the pair's paths. */
  lemma PathsShareNoWire(cut: set<(nat, nat)>, i: nat, j: nat, k: nat, k': nat)
    requires i != j && k != i && k != j && k' != i && k' != j
    ensures BrokenWire(cut, i, k, j) == BrokenWire(cut, i, k', j) ==> k == k'
    ensures BrokenWire(cut, i, k, j) != Wire(i, j)
    ensures Wire(k, j) == Wire(k', j) ==> k == k'
  {
  }

  /** Broken wires that hit every path over a node of `inner`, and the direct one if there is one. */
  lemma CutSize(cut: set<(nat, nat)>, inner: set<nat>, direct: bool, i: nat, j: nat)
    requires i != j && i !in inner && j !in inner
    requires forall k :: k in inner ==> BrokenWire(cut, i, k, j) in cut
    requires direct ==> Wire(i, j) in cut
    ensures |inner| + Indicator(direct) <= |cut|
  {
    var broken := set k | k in inner :: BrokenWire(cut, i, k, j);
    forall k, k' | k in inner && k' in inner
      ensures BrokenWire(cut, i, k, j) == BrokenWire(cut, i, k', j) ==> k == k'
      ensures BrokenWire(cut, i, k, j) != Wire(i, j)
    {
      PathsShareNoWire(cut, i, j, k, k');
    }
    InjectiveImageSize(inner, (k: nat) => BrokenWire(cut, i, k, j), broken);
    if direct {
      SubsetSize(broken + {Wire(i, j)}, cut);
    } else {
      SubsetSize(broken, cut);
    }
  }

  /** To part i from j, faults must hit every one of their paths, and no fault hits two of them. */
  lemma PartingFaults(n: nat, e: Links, down: set<nat>, cut: set<(nat, nat)>, i: nat, j: nat)
    requires i != j && !Reaches(n, e, down, cut, i, j)
    ensures Paths(n, e, i, j) <= |down| + |cut|
  {
    var common := Common(n, e, i, j);
    var alive := common - down;
    forall k | k in alive
      ensures BrokenWire(cut, i, k, j) in cut
    {
      assert !Relays(n, e, down, cut, i, k, j);
    }
    CutSize(cut, alive, Adj(e, i, j), i, j);
    SubsetSize(common * down, down);
    assert common == alive + common * down;
  }

  /**
   Exactly how many faults a pair survives: i and j have at least t paths if and only if every
   choice of fewer than t faults, dead nodes and broken wires together, leaves them within two hops.
   */
  lemma SurvivesFaultsIff(n: nat, e: Links, i: nat, j: nat, t: nat)
    requires i != j
    ensures Paths(n, e, i, j) >= t <==>
            forall down: set<nat>, cut: set<(nat, nat)> ::
              i !in down && j !in down && |down| + |cut| < t ==> Reaches(n, e, down, cut, i, j)
  {
    forall down: set<nat>, cut: set<(nat, nat)> | Paths(n, e, i, j) >= t && |down| + |cut| < t
      ensures Reaches(n, e, down, cut, i, j)
    {
      if !Reaches(n, e, down, cut, i, j) {
        PartingFaults(n, e, down, cut, i, j);
      }
    }
    var down := Common(n, e, i, j);
    var cut := if Adj(e, i, j) then {Wire(i, j)} else {};
    assert !Reaches(n, e, down, cut, i, j);
  }

  /** One wire of each path: its last hop. */
  ghost function LastWires(n: nat, e: Links, i: nat, j: nat): (cut: set<(nat, nat)>)
    requires i != j
    ensures |cut| == Paths(n, e, i, j)
    ensures forall k :: k in Common(n, e, i, j) ==> Wire(k, j) in cut
    ensures Adj(e, i, j) ==> Wire(i, j) in cut
  {
    var common := Common(n, e, i, j);
    var last := set k | k in common :: Wire(k, j);
    InjectiveImageSize(common, (k: nat) => Wire(k, j), last);
    last + if Adj(e, i, j) then {Wire(i, j)} else {}
  }

  /** The same with broken wires only. */
  lemma SurvivesCutsIff(n: nat, e: Links, i: nat, j: nat, t: nat)
    requires i != j
    ensures Paths(n, e, i, j) >= t <==>
            forall cut: set<(nat, nat)> :: |cut| < t ==> Reaches(n, e, {}, cut, i, j)
  {
    SurvivesFaultsIff(n, e, i, j, t);
    var cut := LastWires(n, e, i, j);
    assert !Reaches(n, e, {}, cut, i, j) by {
      forall k: nat
        ensures !Relays(n, e, {}, cut, i, k, j)
      {
      }
    }
  }

  /** In a finished mesh any three faults with up to ten nodes, and any one fault with more, leave
      the nodes that stay up within two hops of one another. */
  lemma FinishedMeshSurvives(n: nat, run: seq<(nat, nat)>, down: set<nat>, cut: set<(nat, nat)>, i: nat, j: nat)
    requires n >= 2 && IsFinished(n, run) && |down| + |cut| <= if n <= 10 then 3 else 1
    requires i < n && j < n && i != j && i !in down && j !in down
    ensures Reaches(n, LinkSet(run), down, cut, i, j)
  {
    var e := LinkSet(run);
    PathsSymmetric(n, e, i, j);
    assert Paths(n, e, i, j) >= MinConnections(n);
    SurvivesFaultsIff(n, e, i, j, MinConnections(n));
  }
}
