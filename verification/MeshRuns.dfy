/**
 The greedy choice of the mesh generator and the runs it makes: what is chosen in each state, and
 what holds along every run.
 */
module MeshRuns {
  import opened Sums
  import opened Mesh
  import opened MeshCounting

  /** Outgoing links of i and incoming links of j, once i is linked to j. */
  ghost function DegreeSum(n: nat, e: Links, i: nat, j: nat): nat {
    (|OutNodes(n, e, i)| + 1) + (|InNodes(n, e, j)| + 1)
  }

  /** What the scan minimises: the degree sum, then the pairs left with at most m paths. */
  ghost function Cost(n: nat, e: Links, m: nat, i: nat, j: nat): (nat, nat) {
    (DegreeSum(n, e, i, j), |Deficient(n, e + {(i, j)}, m)|)
  }

  predicate LexLess(a: (nat, nat), b: (nat, nat)) {
    a.0 < b.0 || (a.0 == b.0 && a.1 < b.1)
  }

  /** (i, j) is scanned before (p, q). */
  predicate Before(i: nat, j: nat, p: nat, q: nat) {
    i < p || (i == p && j < q)
  }

  /** (a, b) is the first pair of least cost among the free pairs scanned before (endI, endJ). */
  ghost predicate FirstLeast(n: nat, e: Links, m: nat, a: nat, b: nat, endI: nat, endJ: nat) {
    && Free(n, e, a, b) && Before(a, b, endI, endJ)
    && forall i: nat, j: nat :: Free(n, e, i, j) && Before(i, j, endI, endJ) ==>
         && !LexLess(Cost(n, e, m, i, j), Cost(n, e, m, a, b))
         && (Before(i, j, a, b) ==> LexLess(Cost(n, e, m, a, b), Cost(n, e, m, i, j)))
  }

  /** The pair that the generator links in state e when the least path count is m. */
  ghost predicate IsChoice(n: nat, e: Links, m: nat, a: nat, b: nat) {
    FirstLeast(n, e, m, a, b, n, 0)
  }

  /**
   Which pair that is, without the order: a free one whose outgoing and incoming links are fewest; of
   those, one whose link leaves the fewest pairs with at most m paths; of those, the first row by row.
   */
  lemma ChoiceIff(n: nat, e: Links, m: nat, a: nat, b: nat)
    ensures IsChoice(n, e, m, a, b) <==>
            && Free(n, e, a, b)
            && forall i: nat, j: nat :: Free(n, e, i, j) ==>
                 var links := |OutNodes(n, e, a)| + |InNodes(n, e, b)|;
                 var others := |OutNodes(n, e, i)| + |InNodes(n, e, j)|;
                 var left, left' := |Deficient(n, e + {(a, b)}, m)|, |Deficient(n, e + {(i, j)}, m)|;
                 && links <= others
                 && (links == others ==> left <= left')
                 && (links == others && left == left' ==> a < i || (a == i && b <= j))
  {
  }

  lemma ChoiceUnique(n: nat, e: Links, m: nat, a: nat, b: nat, a': nat, b': nat)
    requires IsChoice(n, e, m, a, b) && IsChoice(n, e, m, a', b')
    ensures a == a' && b == b'
  {
  }

  /** Where the target is in reach, a mesh that misses it still has a free pair. */
  lemma SomeFree(n: nat, e: Links)
    requires n >= 2 && n - 1 >= MinConnections(n)
    requires MinPaths(n, e) < MinConnections(n)
    ensures !NoneFree(n, e)
  {
    if NoneFree(n, e) {
      var i: nat, j: nat :| i < j < n && Paths(n, e, i, j) == MinPaths(n, e);
      CompletePaths(n, e, i, j);
    }
  }

  /** The scan has met no free pair yet, or (a, b) is the least of those it met. */
  ghost predicate ScanState(n: nat, e: Links, m: nat, found: bool, a: nat, b: nat, endI: nat, endJ: nat) {
    if found then FirstLeast(n, e, m, a, b, endI, endJ)
    else forall i: nat, j: nat :: Free(n, e, i, j) ==> !Before(i, j, endI, endJ)
  }

  lemma ScanSkips(n: nat, e: Links, m: nat, found: bool, a: nat, b: nat, i: nat, j: nat)
    requires ScanState(n, e, m, found, a, b, i, j)
    requires Free(n, e, i, j) ==> found && !LexLess(Cost(n, e, m, i, j), Cost(n, e, m, a, b))
    ensures ScanState(n, e, m, found, a, b, i, j + 1)
  {
    assert forall p: nat, q: nat :: Before(p, q, i, j + 1) ==> Before(p, q, i, j) || (p == i && q == j);
  }

  lemma ScanTakes(n: nat, e: Links, m: nat, found: bool, a: nat, b: nat, i: nat, j: nat)
    requires ScanState(n, e, m, found, a, b, i, j)
    requires Free(n, e, i, j)
    requires found ==> LexLess(Cost(n, e, m, i, j), Cost(n, e, m, a, b))
    ensures ScanState(n, e, m, true, i, j, i, j + 1)
  {
    assert forall p: nat, q: nat :: Before(p, q, i, j + 1) ==> Before(p, q, i, j) || (p == i && q == j);
  }

  lemma ScanNextRow(n: nat, e: Links, m: nat, found: bool, a: nat, b: nat, i: nat)
    requires ScanState(n, e, m, found, a, b, i, n)
    ensures ScanState(n, e, m, found, a, b, i + 1, 0)
  {
    assert forall p: nat, q: nat :: Free(n, e, p, q) ==> (Before(p, q, i + 1, 0) <==> Before(p, q, i, n));
  }

  lemma ScanStarts(n: nat, e: Links, m: nat)
    ensures ScanState(n, e, m, false, 0, 0, 0, 0)
  {
  }

  /** From any state the scan has a next one. */
  lemma ScanStep(n: nat, e: Links, m: nat, found: bool, a: nat, b: nat, i: nat, j: nat)
    returns (found': bool, a': nat, b': nat)
    requires ScanState(n, e, m, found, a, b, i, j)
    ensures ScanState(n, e, m, found', a', b', i, j + 1)
  {
    if !Free(n, e, i, j) || (found && !LexLess(Cost(n, e, m, i, j), Cost(n, e, m, a, b))) {
      ScanSkips(n, e, m, found, a, b, i, j);
      found', a', b' := found, a, b;
    } else {
      ScanTakes(n, e, m, found, a, b, i, j);
      found', a', b' := true, i, j;
    }
  }

  /** However far the scan has come, it has a state. */
  lemma {:induction false} ScanReaches(n: nat, e: Links, m: nat, i: nat, j: nat) returns (found: bool, a: nat, b: nat)
    requires j <= n
    ensures ScanState(n, e, m, found, a, b, i, j)
    decreases i, j
  {
    if j > 0 {
      found, a, b := ScanReaches(n, e, m, i, j - 1);
      found, a, b := ScanStep(n, e, m, found, a, b, i, j - 1);
    } else if i > 0 {
      found, a, b := ScanReaches(n, e, m, i - 1, n);
      ScanNextRow(n, e, m, found, a, b, i - 1);
    } else {
      ScanStarts(n, e, m);
      found, a, b := false, 0, 0;
    }
  }

  /** A mesh with a free pair has a choice. */
  lemma ChoiceExists(n: nat, e: Links, m: nat) returns (a: nat, b: nat)
    requires !NoneFree(n, e)
    ensures IsChoice(n, e, m, a, b)
  {
    var found;
    found, a, b := ScanReaches(n, e, m, n, 0);
    var i: nat, j: nat :| Free(n, e, i, j);
    assert Before(i, j, n, 0);
  }

  ghost function LinkSet(run: seq<(nat, nat)>): Links {
    set l | l in run
  }

  /** The state after the first k choices. */
  ghost function StateAt(run: seq<(nat, nat)>, k: nat): Links
    requires k <= |run|
  {
    LinkSet(run[..k])
  }

  /** In state e the target is missed and l is linked next. */
  ghost predicate StepOk(n: nat, e: Links, l: (nat, nat))
    requires n >= 2
  {
    MinPaths(n, e) < MinConnections(n) && IsChoice(n, e, MinPaths(n, e), l.0, l.1)
  }

  /** The pairs that the generator has linked so far, in order. */
  ghost predicate IsRun(n: nat, run: seq<(nat, nat)>)
    requires n >= 2
  {
    forall k: nat {:trigger StateAt(run, k)} :: k < |run| ==> StepOk(n, StateAt(run, k), run[k])
  }

  lemma StateStep(run: seq<(nat, nat)>, k: nat)
    requires k < |run|
    ensures StateAt(run, k + 1) == StateAt(run, k) + {run[k]}
  {
    assert run[..k + 1] == run[..k] + [run[k]];
  }

  lemma LinkKeepsSimple(n: nat, e: Links, l: (nat, nat))
    requires Simple(n, e) && Free(n, e, l.0, l.1)
    ensures Simple(n, e + {l}) && |e + {l}| == |e| + 1
  {
    assert l == (l.0, l.1);
  }

  /** Every pair is free when it is linked. */
  ghost predicate LinksFree(n: nat, run: seq<(nat, nat)>) {
    forall k: nat {:trigger StateAt(run, k)} :: k < |run| ==> Free(n, StateAt(run, k), run[k].0, run[k].1)
  }

  lemma SimpleStart(n: nat, run: seq<(nat, nat)>)
    ensures Simple(n, StateAt(run, 0)) && |StateAt(run, 0)| == 0
  {
    assert StateAt(run, 0) == {};
  }

  lemma SimpleNext(n: nat, run: seq<(nat, nat)>, k: nat)
    requires k < |run| && Free(n, StateAt(run, k), run[k].0, run[k].1)
    requires Simple(n, StateAt(run, k)) && |StateAt(run, k)| == k
    ensures Simple(n, StateAt(run, k + 1)) && |StateAt(run, k + 1)| == k + 1
  {
    StateStep(run, k);
    LinkKeepsSimple(n, StateAt(run, k), run[k]);
  }

  lemma {:induction false} FreeLinksAreSimple(n: nat, run: seq<(nat, nat)>, k: nat)
    requires LinksFree(n, run) && k <= |run|
    ensures Simple(n, StateAt(run, k)) && |StateAt(run, k)| == k
  {
    if k == 0 {
      SimpleStart(n, run);
    } else {
      FreeLinksAreSimple(n, run, k - 1);
      SimpleNext(n, run, k - 1);
    }
  }

  lemma RunLinksFree(n: nat, run: seq<(nat, nat)>)
    requires n >= 2 && IsRun(n, run)
    ensures LinksFree(n, run)
  {
  }

  /** Every state of a run is a simple mesh, and no pair is linked twice. */
  lemma RunIsSimple(n: nat, run: seq<(nat, nat)>, k: nat)
    requires n >= 2 && IsRun(n, run) && k <= |run|
    ensures Simple(n, StateAt(run, k))
    ensures |StateAt(run, k)| == k
  {
    RunLinksFree(n, run);
    FreeLinksAreSimple(n, run, k);
  }

  lemma StateMonotone(run: seq<(nat, nat)>, p: nat, q: nat)
    requires p <= q <= |run|
    ensures StateAt(run, p) <= StateAt(run, q)
  {
    assert run[..p] == run[..q][..p];
  }

  lemma SimpleSize(n: nat, e: Links)
    requires Simple(n, e)
    ensures 2 * |e| <= n * (n - 1)
  {
    Handshake(n, e);
    var near := (i: nat, j: nat) => Near(e, i, j);
    var row := (i: nat) => Sum(n, (j: nat) => near(i, j));
    forall i: nat | i < n
      ensures row(i) <= n - 1
    {
      DegreeAsSum(n, e, i);
      SumEq(n, (j: nat) => Near(e, i, j), (j: nat) => near(i, j));
      var s := Neighbours(n, e, i);
      BoundedSetSize(n, s + {i});
      assert |s + {i}| == |s| + 1;
    }
    SumAtMost(n, n - 1, row);
  }

  lemma {:induction false} SumAtMost(n: nat, t: int, f: nat -> int)
    requires forall k: nat :: k < n ==> f(k) <= t
    ensures Sum(n, f) <= n * t
  {
    if n == 0 {
    } else {
      SumAtMost(n - 1, t, f);
    }
  }

  /** Adding links never lowers the degree sum of a pair. */
  lemma DegreeSumMonotone(n: nat, e: Links, e': Links, i: nat, j: nat)
    requires e <= e'
    ensures DegreeSum(n, e, i, j) <= DegreeSum(n, e', i, j)
  {
    SubsetSize(OutNodes(n, e, i), OutNodes(n, e', i));
    SubsetSize(InNodes(n, e, j), InNodes(n, e', j));
  }

  /**
   Along every run, from any state p to any later state q, the last one included: links only grow,
   the least path count never goes down, and the number of pairs with at most m paths never goes up
   whatever m is. No run is longer than the number of pairs.
   */
  lemma RunIsMonotone(n: nat, run: seq<(nat, nat)>, p: nat, q: nat, m: nat)
    requires n >= 2 && IsRun(n, run) && p <= q <= |run|
    ensures StateAt(run, p) <= StateAt(run, q)
    ensures MinPaths(n, StateAt(run, p)) <= MinPaths(n, StateAt(run, q))
    ensures |Deficient(n, StateAt(run, q), m)| <= |Deficient(n, StateAt(run, p), m)|
    ensures 2 * |run| <= n * (n - 1)
  {
    StateMonotone(run, p, q);
    MinPathsMonotone(n, StateAt(run, p), StateAt(run, q));
    DeficientAntitone(n, StateAt(run, p), StateAt(run, q), m);
    RunIsSimple(n, run, |run|);
    SimpleSize(n, StateAt(run, |run|));
  }

  /** And the degree sum of the chosen pair never goes down from one round to a later one. */
  lemma RunDegreesRise(n: nat, run: seq<(nat, nat)>, p: nat, q: nat)
    requires n >= 2 && IsRun(n, run) && p <= q < |run|
    ensures DegreeSum(n, StateAt(run, p), run[p].0, run[p].1) <= DegreeSum(n, StateAt(run, q), run[q].0, run[q].1)
  {
    StateMonotone(run, p, q);
    ChosenDegreeMonotone(n, StateAt(run, p), StateAt(run, q), run[p], run[q]);
  }

  lemma ChosenDegreeMonotone(n: nat, e: Links, e': Links, l: (nat, nat), l': (nat, nat))
    requires n >= 2 && e <= e' && StepOk(n, e, l) && StepOk(n, e', l')
    ensures DegreeSum(n, e, l.0, l.1) <= DegreeSum(n, e', l'.0, l'.1)
  {
    assert Free(n, e, l'.0, l'.1) && Before(l'.0, l'.1, n, 0);
    DegreeSumMonotone(n, e, e', l'.0, l'.1);
  }

  /** Every state of a run, the last one included, obeys the double counting law. */
  lemma RunPathTotal(n: nat, run: seq<(nat, nat)>, k: nat)
    requires n >= 2 && IsRun(n, run) && k <= |run|
    ensures PathTotal(n, StateAt(run, k)) == k + ForkTotal(n, StateAt(run, k))
  {
    RunIsSimple(n, run, k);
    PathTotalLaw(n, StateAt(run, k));
  }

  /** Every round raises the path total by one more than the degrees of the nodes it joins. */
  lemma RunPathGrowth(n: nat, run: seq<(nat, nat)>, k: nat)
    requires n >= 2 && IsRun(n, run) && k < |run|
    ensures var e := StateAt(run, k);
            PathTotal(n, StateAt(run, k + 1)) ==
            PathTotal(n, e) + 1 + Degree(n, e, run[k].0) + Degree(n, e, run[k].1)
  {
    var e := StateAt(run, k);
    RunIsSimple(n, run, k);
    assert StepOk(n, e, run[k]);
    PathTotalGrowth(n, e, run[k].0, run[k].1);
    StateStep(run, k);
  }

  /** The generator is deterministic: of two runs one continues the other. */
  lemma {:induction false} RunsAgree(n: nat, run: seq<(nat, nat)>, run': seq<(nat, nat)>, k: nat)
    requires n >= 2 && IsRun(n, run) && IsRun(n, run') && k <= |run| && k <= |run'|
    ensures run[..k] == run'[..k]
  {
    if k == 0 {
    } else {
      RunsAgree(n, run, run', k - 1);
      NextAgrees(n, run, run', k - 1);
      assert run[..k] == run[..k - 1] + [run[k - 1]];
    }
  }

  lemma NextAgrees(n: nat, run: seq<(nat, nat)>, run': seq<(nat, nat)>, k: nat)
    requires n >= 2 && IsRun(n, run) && IsRun(n, run') && k < |run| && k < |run'|
    requires run[..k] == run'[..k]
    ensures run[k] == run'[k]
  {
    assert StateAt(run, k) == StateAt(run', k);
    StepUnique(n, StateAt(run, k), run[k], run'[k]);
  }

  lemma StepUnique(n: nat, e: Links, l: (nat, nat), l': (nat, nat))
    requires n >= 2 && StepOk(n, e, l) && StepOk(n, e, l')
    ensures l == l'
  {
    ChoiceUnique(n, e, MinPaths(n, e), l.0, l.1, l'.0, l'.1);
  }

  ghost predicate IsFinished(n: nat, run: seq<(nat, nat)>)
    requires n >= 2
  {
    IsRun(n, run) && MinPaths(n, LinkSet(run)) >= MinConnections(n)
  }

  /** So there is at most one finished run. */
  lemma AllPairsIffMin(n: nat, e: Links, t: nat)
    requires n >= 2
    ensures MinPaths(n, e) >= t <==> AllPairsHave(n, e, t)
  {
  }

  /** A run is finished exactly when every pair has four paths, or two with more than ten nodes. */
  lemma FinishedIff(n: nat, run: seq<(nat, nat)>)
    requires n >= 2 && IsRun(n, run)
    ensures IsFinished(n, run) <==>
            forall i: nat, j: nat :: i < j < n ==> Paths(n, StateAt(run, |run|), i, j) >= if n <= 10 then 4 else 2
  {
    var e, t := StateAt(run, |run|), if n <= 10 then 4 else 2;
    assert run[..|run|] == run;
    assert IsFinished(n, run) <==> MinPaths(n, e) >= t;
    AllPairsIffMin(n, e, t);
    assert AllPairsHave(n, e, t) <==> forall i: nat, j: nat :: i < j < n ==> Paths(n, e, i, j) >= t;
  }

  /** No round was made that was not needed: before each, some pair had fewer. */
  lemma RoundNeeded(n: nat, run: seq<(nat, nat)>, k: nat)
    requires n >= 2 && IsRun(n, run) && k < |run|
    ensures exists i: nat, j: nat :: i < j < n && Paths(n, StateAt(run, k), i, j) < if n <= 10 then 4 else 2
  {
    assert StepOk(n, StateAt(run, k), run[k]);
  }

  lemma FinishedUnique(n: nat, run: seq<(nat, nat)>, run': seq<(nat, nat)>)
    requires n >= 2 && IsFinished(n, run) && IsFinished(n, run')
    ensures run == run'
  {
    RunMissesTarget(n, run);
    RunMissesTarget(n, run');
    var k := if |run| <= |run'| then |run| else |run'|;
    RunsAgree(n, run, run', k);
    assert run[..|run|] == run && run'[..|run'|] == run';
    assert StateAt(run, k) == StateAt(run', k);
  }

  lemma RunMissesTarget(n: nat, run: seq<(nat, nat)>)
    requires n >= 2 && IsRun(n, run)
    ensures forall k: nat :: k < |run| ==> MinPaths(n, StateAt(run, k)) < MinConnections(n)
  {
    forall k: nat | k < |run|
      ensures MinPaths(n, StateAt(run, k)) < MinConnections(n)
    {
      assert StepOk(n, StateAt(run, k), run[k]);
    }
  }

  /** And for five or more nodes a run that is not finished always goes on. */
  lemma RunGoesOn(n: nat, run: seq<(nat, nat)>)
    requires n >= 5 && IsRun(n, run) && !IsFinished(n, run)
    ensures exists l: (nat, nat) :: IsRun(n, run + [l])
  {
    var e := LinkSet(run);
    SomeFree(n, e);
    var a, b := ChoiceExists(n, e, MinPaths(n, e));
    ExtendRun(n, run, (a, b));
  }

  lemma ExtendRun(n: nat, run: seq<(nat, nat)>, l: (nat, nat))
    requires n >= 2 && IsRun(n, run) && StepOk(n, LinkSet(run), l)
    ensures IsRun(n, run + [l])
    ensures LinkSet(run + [l]) == LinkSet(run) + {l}
  {
    var longer := run + [l];
    assert longer[..|run|] == run && longer[..|run| + 1] == longer;
    StateStep(longer, |run|);
    forall k: nat | k < |longer|
      ensures StepOk(n, StateAt(longer, k), longer[k])
    {
      if k < |run| {
        assert longer[..k] == run[..k];
        assert StateAt(longer, k) == StateAt(run, k);
      } else {
        assert StateAt(longer, k) == LinkSet(run);
      }
    }
  }
}
