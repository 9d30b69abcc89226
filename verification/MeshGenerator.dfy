/** The generator itself, on the connection matrix it writes in place. */
module MeshGenerator {
  import opened Types
  import opened Mesh
  import opened MeshRuns

  /** An n-by-n matrix of zeros and ones that holds exactly the links e. */
  ghost predicate Holds(conns: array2<int>, n: nat, e: Links)
    reads conns
  {
    && conns.Length0 == n && conns.Length1 == n
    && (forall l :: l in e ==> l.0 < n && l.1 < n)
    && forall i: nat, j: nat :: i < n && j < n ==> conns[i, j] == if (i, j) in e then 1 else 0
  }

  /** The neighbours of j below r, other than j. */
  ghost function NeighboursBelow(e: Links, j: nat, r: nat): set<nat> {
    set k: nat | k < r && k != j && Adj(e, j, k)
  }

  /** The nodes of s that are i or next to i. */
  ghost function TowardsNode(e: Links, i: nat, s: set<nat>): set<nat> {
    set k | k in s && (k == i || Adj(e, k, i))
  }

  ghost function Elements(s: seq<nat>): set<nat> {
    set k | k in s
  }

  ghost predicate Distinct(s: seq<nat>) {
    forall p, q :: 0 <= p < q < |s| ==> s[p] != s[q]
  }

  /** The neighbours of j that are i or lead on to i stand for the paths between i and j. */
  lemma TowardsCounts(n: nat, e: Links, i: nat, j: nat)
    requires i < n && j < n
    ensures |TowardsNode(e, i, NeighboursBelow(e, j, n))| ==
            if i == j then |Common(n, e, i, i)| else Paths(n, e, i, j)
  {
    var t := TowardsNode(e, i, NeighboursBelow(e, j, n));
    if i != j && Adj(e, i, j) {
      assert t == Common(n, e, i, j) + {i};
    } else {
      assert t == Common(n, e, i, j);
    }
  }

  lemma ExtendNeighbours(e: Links, j: nat, r: nat)
    ensures NeighboursBelow(e, j, r + 1) ==
            NeighboursBelow(e, j, r) + if r != j && Adj(e, j, r) then {r} else {}
  {
  }

  lemma ExtendElements(s: seq<nat>, k: nat)
    ensures Elements(s + [k]) == Elements(s) + {k}
  {
    forall x | x in Elements(s) + {k}
      ensures x in s + [k]
    {
      if x == k {
        assert (s + [k])[|s|] == k;
      } else {
        var p :| 0 <= p < |s| && s[p] == x;
        assert (s + [k])[p] == x;
      }
    }
  }

  /** The neighbours of j: those below it, then those above it. */
  method CollectNeighbours(conns: array2<int>, nodes: nat, j: nat, ghost e: Links) returns (neighbours: seq<nat>)
    requires Holds(conns, nodes, e) && j < nodes
    ensures Distinct(neighbours) && Elements(neighbours) == NeighboursBelow(e, j, nodes)
  {
    neighbours := [];
    for r := 0 to j
      invariant Distinct(neighbours) && Elements(neighbours) == NeighboursBelow(e, j, r)
    {
      ExtendNeighbours(e, j, r);
      if conns[r, j] != 0 || conns[j, r] > 0 {
        ExtendElements(neighbours, r);
        assert r !in Elements(neighbours);
        neighbours := neighbours + [r];
      }
    }
    ExtendNeighbours(e, j, j);
    for c := j + 1 to nodes
      invariant Distinct(neighbours) && Elements(neighbours) == NeighboursBelow(e, j, c)
    {
      ExtendNeighbours(e, j, c);
      if conns[j, c] != 0 || conns[c, j] > 0 {
        ExtendElements(neighbours, c);
        assert c !in Elements(neighbours);
        neighbours := neighbours + [c];
      }
    }
  }

  lemma ExtendTowards(e: Links, i: nat, s: seq<nat>, t: nat)
    requires Distinct(s) && t < |s|
    ensures |TowardsNode(e, i, Elements(s[..t + 1]))| ==
            |TowardsNode(e, i, Elements(s[..t]))| + if s[t] == i || Adj(e, s[t], i) then 1 else 0
  {
    assert s[..t + 1] == s[..t] + [s[t]];
    ExtendElements(s[..t], s[t]);
    var before, after := TowardsNode(e, i, Elements(s[..t])), TowardsNode(e, i, Elements(s[..t + 1]));
    assert s[t] !in Elements(s[..t]);
    if s[t] == i || Adj(e, s[t], i) {
      assert after == before + {s[t]};
    } else {
      assert after == before;
    }
  }

  method CountPathsWithinTwo(conns: array2<int>, nodes: nat, first: nat, second: nat, ghost e: Links)
    returns (paths: nat)
    requires Holds(conns, nodes, e) && first < nodes && second < nodes
    ensures first != second ==> paths == Paths(nodes, e, first, second)
    ensures first == second ==> paths == |Common(nodes, e, first, first)|
  {
    var i, j := first, second;
    if i > j {
      i, j := j, i;
    }
    var neighbours := CollectNeighbours(conns, nodes, j, e);
    paths := 0;
    for t := 0 to |neighbours|
      invariant paths == |TowardsNode(e, i, Elements(neighbours[..t]))|
    {
      var n := neighbours[t];
      assert n in Elements(neighbours);
      ExtendTowards(e, i, neighbours, t);
      if n == i || conns[n, i] > 0 || conns[i, n] > 0 {
        paths := paths + 1;
      }
    }
    assert neighbours[..|neighbours|] == neighbours;
    TowardsCounts(nodes, e, i, j);
    PathsSymmetric(nodes, e, i, j);
  }

  /** The deficient pairs scanned before (endI, endJ). */
  ghost function DeficientBefore(n: nat, e: Links, m: nat, endI: nat, endJ: nat): set<(nat, nat)> {
    set i: nat, j: nat | i < n && j < n && i < j && Before(i, j, endI, endJ) && Paths(n, e, i, j) <= m :: (i, j)
  }

  lemma DeficientStep(n: nat, e: Links, m: nat, i: nat, j: nat)
    requires i < j < n
    ensures |DeficientBefore(n, e, m, i, j + 1)| ==
            |DeficientBefore(n, e, m, i, j)| + if Paths(n, e, i, j) <= m then 1 else 0
  {
    var before, after := DeficientBefore(n, e, m, i, j), DeficientBefore(n, e, m, i, j + 1);
    if Paths(n, e, i, j) <= m {
      assert after == before + {(i, j)};
    } else {
      assert after == before;
    }
  }

  lemma DeficientRows(n: nat, e: Links, m: nat, i: nat)
    requires i < n
    ensures |DeficientBefore(n, e, m, i, i + 1)| == |DeficientBefore(n, e, m, i, 0)|
    ensures |DeficientBefore(n, e, m, i, n)| == |DeficientBefore(n, e, m, i + 1, 0)|
  {
    assert DeficientBefore(n, e, m, i, i + 1) == DeficientBefore(n, e, m, i, 0);
    assert DeficientBefore(n, e, m, i, n) == DeficientBefore(n, e, m, i + 1, 0);
  }

  lemma DeficientEnds(n: nat, e: Links, m: nat)
    ensures |DeficientBefore(n, e, m, 0, 0)| == 0
    ensures |DeficientBefore(n, e, m, n, 0)| == |Deficient(n, e, m)|
  {
    assert DeficientBefore(n, e, m, 0, 0) == {};
    assert DeficientBefore(n, e, m, n, 0) == Deficient(n, e, m);
  }

  method CountNotWithinTwo(conns: array2<int>, nodes: nat, minPaths: nat, ghost e: Links) returns (c: nat)
    requires Holds(conns, nodes, e)
    ensures c == |Deficient(nodes, e, minPaths)|
  {
    c := 0;
    DeficientEnds(nodes, e, minPaths);
    for i := 0 to nodes
      invariant c == |DeficientBefore(nodes, e, minPaths, i, 0)|
    {
      DeficientRows(nodes, e, minPaths, i);
      for j := i + 1 to nodes
        invariant c == |DeficientBefore(nodes, e, minPaths, i, j)|
      {
        var p := CountPathsWithinTwo(conns, nodes, i, j, e);
        DeficientStep(nodes, e, minPaths, i, j);
        if p <= minPaths {
          c := c + 1;
        }
      }
    }
  }

  method MinWithinTwo(conns: array2<int>, nodes: nat, ghost e: Links) returns (m: Option<nat>)
    requires Holds(conns, nodes, e)
    ensures nodes < 2 ==> m == None
    ensures nodes >= 2 ==> m == Some(MinPaths(nodes, e))
  {
    m := None;
    for i := 0 to nodes
      invariant m.None? ==> i == 0 || nodes < 2
      invariant m.Some? ==> exists p: nat, q: nat :: p < q < nodes && Paths(nodes, e, p, q) == m.value
      invariant forall p: nat, q: nat :: p < i && p < q < nodes ==> m.Some? && m.value <= Paths(nodes, e, p, q)
    {
      for j := i + 1 to nodes
        invariant m.None? ==> j == i + 1 && (i == 0 || nodes < 2)
        invariant m.Some? ==> exists p: nat, q: nat :: p < q < nodes && Paths(nodes, e, p, q) == m.value
        invariant forall p: nat, q: nat :: p < q < nodes && Before(p, q, i, j) ==>
                    m.Some? && m.value <= Paths(nodes, e, p, q)
      {
        var c := CountPathsWithinTwo(conns, nodes, i, j, e);
        if m.None? || c < m.value {
          m := Some(c);
        }
      }
    }
    if nodes >= 2 {
      assert Before(0, 1, nodes, 0);
      MinPathsUnique(nodes, e, m.value);
    }
  }

  lemma ExtendOut(e: Links, i: nat, j: nat)
    ensures OutNodes(j + 1, e, i) == OutNodes(j, e, i) + if (i, j) in e then {j} else {}
  {
  }

  lemma ExtendIn(e: Links, i: nat, j: nat)
    ensures InNodes(i + 1, e, j) == InNodes(i, e, j) + if (i, j) in e then {i} else {}
  {
  }

  method RowSum(conns: array2<int>, nodes: nat, i: nat, ghost e: Links) returns (s: nat)
    requires Holds(conns, nodes, e) && i < nodes
    ensures s == |OutNodes(nodes, e, i)|
  {
    s := 0;
    for j := 0 to nodes
      invariant s == |OutNodes(j, e, i)|
    {
      ExtendOut(e, i, j);
      s := s + conns[i, j];
    }
  }

  method ColumnSum(conns: array2<int>, nodes: nat, j: nat, ghost e: Links) returns (s: nat)
    requires Holds(conns, nodes, e) && j < nodes
    ensures s == |InNodes(nodes, e, j)|
  {
    s := 0;
    for k := 0 to nodes
      invariant s == |InNodes(k, e, j)|
    {
      ExtendIn(e, k, j);
      s := s + conns[k, j];
    }
  }

  /** Tries the link (i, j), counts the pairs it leaves deficient, and takes it back. */
  method TryLink(conns: array2<int>, nodes: nat, i: nat, j: nat, minPaths: nat, ghost e: Links) returns (c: nat)
    requires Holds(conns, nodes, e) && i < nodes && j < nodes && (i, j) !in e
    modifies conns
    ensures Holds(conns, nodes, e)
    ensures c == |Deficient(nodes, e + {(i, j)}, minPaths)|
  {
    conns[i, j] := 1;
    c := CountNotWithinTwo(conns, nodes, minPaths, e + {(i, j)});
    conns[i, j] := 0;
  }

  /** What the scan remembers before it looks at (i, j). */
  ghost predicate Scanned(
    n: nat, e: Links, m: nat, start: nat, found: bool, a: nat, b: nat, best: (nat, nat), i: nat, j: nat)
  {
    && ScanState(n, e, m, found, a, b, i, j)
    && best == (if found then Cost(n, e, m, a, b) else (n + n, start))
    && (!found ==> a == 0 && b == 0)
  }

  /** Any free pair beats the (2n, start) that the scan begins with. */
  lemma ScanVisits(n: nat, e: Links, m: nat, start: nat, found: bool, a: nat, b: nat, best: (nat, nat), i: nat, j: nat)
    requires Scanned(n, e, m, start, found, a, b, best, i, j)
    requires Simple(n, e) && Free(n, e, i, j)
    ensures var c := Cost(n, e, m, i, j);
            if LexLess(c, best) then Scanned(n, e, m, start, true, i, j, c, i, j + 1)
            else Scanned(n, e, m, start, found, a, b, best, i, j + 1)
  {
    FreeDegreeBound(n, e, i, j);
    if LexLess(Cost(n, e, m, i, j), best) {
      ScanTakes(n, e, m, found, a, b, i, j);
    } else {
      ScanSkips(n, e, m, found, a, b, i, j);
    }
  }

  lemma ScanPasses(n: nat, e: Links, m: nat, start: nat, found: bool, a: nat, b: nat, best: (nat, nat), i: nat, j: nat)
    requires Scanned(n, e, m, start, found, a, b, best, i, j) && !Free(n, e, i, j)
    ensures Scanned(n, e, m, start, found, a, b, best, i, j + 1)
  {
    ScanSkips(n, e, m, found, a, b, i, j);
  }

  lemma ScanTurns(n: nat, e: Links, m: nat, start: nat, found: bool, a: nat, b: nat, best: (nat, nat), i: nat)
    requires Scanned(n, e, m, start, found, a, b, best, i, n)
    ensures Scanned(n, e, m, start, found, a, b, best, i + 1, 0)
  {
    ScanNextRow(n, e, m, found, a, b, i);
  }

  lemma ScanBegins(n: nat, e: Links, m: nat, start: nat)
    ensures Scanned(n, e, m, start, false, 0, 0, (n + n, start), 0, 0)
  {
  }

  lemma ScanEnds(n: nat, e: Links, m: nat, start: nat, found: bool, a: nat, b: nat, best: (nat, nat))
    requires Scanned(n, e, m, start, found, a, b, best, n, 0)
    ensures if NoneFree(n, e) then a == 0 && b == 0 else IsChoice(n, e, m, a, b)
  {
    if !NoneFree(n, e) {
      var i: nat, j: nat :| Free(n, e, i, j);
      assert Before(i, j, n, 0);
    }
  }

  /** The body of the scan's inner loop, at the pair (i, j). */
  method ScanPair(conns: array2<int>, nodes: nat, minPaths: nat, i: nat, j: nat, outgoing: nat,
                  best: (nat, nat), bestI: nat, bestJ: nat, ghost start: nat, ghost found: bool, ghost e: Links)
    returns (best': (nat, nat), bestI': nat, bestJ': nat, ghost found': bool)
    requires Holds(conns, nodes, e) && Simple(nodes, e) && i < nodes && j < nodes
    requires outgoing == |OutNodes(nodes, e, i)| + 1
    requires Scanned(nodes, e, minPaths, start, found, bestI, bestJ, best, i, j)
    modifies conns
    ensures Holds(conns, nodes, e)
    ensures Scanned(nodes, e, minPaths, start, found', bestI', bestJ', best', i, j + 1)
  {
    best', bestI', bestJ', found' := best, bestI, bestJ, found;
    var incoming := ColumnSum(conns, nodes, j, e);
    incoming := incoming + 1;
    if i == j || conns[i, j] != 0 || conns[j, i] != 0 {
      ScanPasses(nodes, e, minPaths, start, found, bestI, bestJ, best, i, j);
      return;
    }
    var deficient := TryLink(conns, nodes, i, j, minPaths, e);
    var c := (outgoing + incoming, deficient);
    ScanVisits(nodes, e, minPaths, start, found, bestI, bestJ, best, i, j);
    if LexLess(c, best) {
      best', bestI', bestJ', found' := c, i, j, true;
    }
  }

  /** One pass of the greedy scan: the matrix is as before, and the pair is the generator's choice. */
  method Scan(conns: array2<int>, nodes: nat, minPaths: nat, ghost e: Links) returns (bestI: nat, bestJ: nat)
    requires Holds(conns, nodes, e) && Simple(nodes, e)
    modifies conns
    ensures Holds(conns, nodes, e)
    ensures !NoneFree(nodes, e) ==> IsChoice(nodes, e, minPaths, bestI, bestJ)
    ensures NoneFree(nodes, e) ==> bestI == 0 && bestJ == 0
  {
    var start := CountNotWithinTwo(conns, nodes, minPaths, e);
    var best: (nat, nat) := (nodes + nodes, start);
    bestI, bestJ := 0, 0;
    ghost var found := false;
    ScanBegins(nodes, e, minPaths, start);
    for i := 0 to nodes
      invariant Holds(conns, nodes, e)
      invariant Scanned(nodes, e, minPaths, start, found, bestI, bestJ, best, i, 0)
    {
      var outgoing := RowSum(conns, nodes, i, e);
      outgoing := outgoing + 1;
      for j := 0 to nodes
        invariant Holds(conns, nodes, e)
        invariant Scanned(nodes, e, minPaths, start, found, bestI, bestJ, best, i, j)
      {
        best, bestI, bestJ, found :=
          ScanPair(conns, nodes, minPaths, i, j, outgoing, best, bestI, bestJ, start, found, e);
      }
      ScanTurns(nodes, e, minPaths, start, found, bestI, bestJ, best, i);
    }
    ScanEnds(nodes, e, minPaths, start, found, bestI, bestJ, best);
  }

  lemma FreePairsShrink(n: nat, e: Links, a: nat, b: nat)
    requires Free(n, e, a, b)
    ensures FreePairs(n, e + {(a, b)}) < FreePairs(n, e)
  {
    assert (a, b) in FreePairs(n, e);
  }

  /** One round of the loop: links the chosen pair and measures the new minimum. */
  method LinkOnce(conns: array2<int>, n: nat, minPaths: nat, ghost e: Links) returns (i: nat, j: nat, newMin: nat)
    requires n >= 2 && Holds(conns, n, e) && Simple(n, e) && !NoneFree(n, e)
    modifies conns
    ensures IsChoice(n, e, minPaths, i, j)
    ensures Holds(conns, n, e + {(i, j)})
    ensures newMin == MinPaths(n, e + {(i, j)})
  {
    i, j := Scan(conns, n, minPaths, e);
    conns[i, j] := 1;
    var m := MinWithinTwo(conns, n, e + {(i, j)});
    newMin := m.value;
  }

  /**
   Generates the mesh for n nodes. It stops, and stops with the links of the one finished run:
   every pair then has the wanted number of paths of at most two hops.
   */
  method Generate(n: nat) returns (conns: array2<int>, chosen: seq<(nat, nat)>)
    requires n >= 2 && n - 1 >= MinConnections(n)
    ensures fresh(conns) && Holds(conns, n, LinkSet(chosen))
    ensures IsFinished(n, chosen)
    ensures AllPairsHave(n, LinkSet(chosen), MinConnections(n))
  {
    conns := new int[n, n]((i, j) => 0);
    var target := MinConnections(n);
    var minPaths: nat := 0;
    chosen := [];
    ghost var e: Links := {};
    assert LinkSet(chosen) == e;
    MinPathsEmpty(n);
    while minPaths < target
      invariant fresh(conns) && Holds(conns, n, e)
      invariant IsRun(n, chosen) && LinkSet(chosen) == e
      invariant minPaths == MinPaths(n, e)
      decreases FreePairs(n, e)
    {
      RunIsSimple(n, chosen, |chosen|);
      assert chosen[..|chosen|] == chosen;
      SomeFree(n, e);
      var i, j, m := LinkOnce(conns, n, minPaths, e);
      FreePairsShrink(n, e, i, j);
      ExtendRun(n, chosen, (i, j));
      chosen, minPaths, e := chosen + [(i, j)], m, e + {(i, j)};
    }
  }
}
