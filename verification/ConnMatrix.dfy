/**
 From the generated matrix to the peers of a node: the matrix is printed as the rows of a C++ array,
 compiled, and read back by iterators that walk a row or a column of it.
 */
module ConnMatrix {
  import opened Types
  import opened Seqs
  import opened Mesh
  import opened MeshGenerator

  /** Row r up to column c, as flags. */
  ghost function RowFlags(e: Links, r: nat, c: nat): (flags: seq<bool>)
    ensures |flags| == c
  {
    if c == 0 then [] else RowFlags(e, r, c - 1) + [(r, c - 1) in e]
  }

  /** The first r rows, one after the other. */
  ghost function Flags(n: nat, e: Links, r: nat): seq<bool> {
    if r == 0 then [] else Flags(n, e, r - 1) + RowFlags(e, r - 1, n)
  }

  lemma {:induction false} RowFlagAt(e: Links, r: nat, c: nat, j: nat)
    requires j < c
    ensures RowFlags(e, r, c)[j] <==> (r, j) in e
  {
    if j == c - 1 {
    } else {
      RowFlagAt(e, r, c - 1, j);
    }
  }

  lemma {:induction false} FlagsSize(n: nat, e: Links, r: nat)
    ensures |Flags(n, e, r)| == r * n
  {
    if r == 0 {
    } else {
      FlagsSize(n, e, r - 1);
      assert r * n == (r - 1) * n + n;
    }
  }

  lemma CellInside(n: nat, r: nat, i: nat, j: nat)
    requires i < r && j < n
    ensures 0 <= i * n + j < r * n
  {
    assert i * n + j < i * n + n == (i + 1) * n;
    assert (i + 1) * n <= r * n;
  }

  /** The flag of link (i, j) stands at i * n + j. */
  lemma {:induction false} FlagAt(n: nat, e: Links, r: nat, i: nat, j: nat)
    requires i < r && j < n
    ensures |Flags(n, e, r)| == r * n && 0 <= i * n + j < r * n
    ensures Flags(n, e, r)[i * n + j] <==> (i, j) in e
  {
    FlagsSize(n, e, r);
    FlagsSize(n, e, r - 1);
    CellInside(n, r, i, j);
    if i == r - 1 {
      RowFlagAt(e, i, n, j);
      assert Flags(n, e, r)[i * n + j] == RowFlags(e, i, n)[j];
    } else {
      FlagAt(n, e, r - 1, i, j);
    }
  }

  /** Reads the comma-terminated zeros and ones of an initialiser list, blanks apart. */
  function ReadFlags(text: string): Option<seq<bool>> {
    if |text| == 0 then Some([])
    else if text[0] == ' ' || text[0] == '\n' then ReadFlags(text[1..])
    else if |text| >= 2 && (text[0] == '0' || text[0] == '1') && text[1] == ',' then
      match ReadFlags(text[2..])
      case Some(flags) => Some([text[0] == '1'] + flags)
      case None => None
    else None
  }

  lemma ReadFirst(text: string, rest: seq<bool>)
    requires |text| >= 2 && (text[0] == '0' || text[0] == '1') && text[1] == ','
    requires ReadFlags(text[2..]) == Some(rest)
    ensures ReadFlags(text) == Some([text[0] == '1'] + rest)
  {
  }

  lemma ReadSkips(text: string)
    requires |text| > 0 && (text[0] == ' ' || text[0] == '\n')
    ensures ReadFlags(text) == ReadFlags(text[1..])
  {
  }

  lemma {:induction false} ReadJoined(a: string, b: string)
    requires ReadFlags(a).Some? && ReadFlags(b).Some?
    ensures ReadFlags(a + b) == Some(ReadFlags(a).value + ReadFlags(b).value)
    decreases |a|
  {
    var g := ReadFlags(b).value;
    if |a| == 0 {
      assert a + b == b;
      JoinEmpty(g);
    } else if a[0] == ' ' || a[0] == '\n' {
      ReadSkips(a);
      ReadJoined(a[1..], b);
      DropOfJoin(a, b, 1);
      ReadSkips(a + b);
    } else {
      var f := ReadFlags(a[2..]).value;
      ReadFirst(a, f);
      ReadJoined(a[2..], b);
      DropOfJoin(a, b, 2);
      ReadFirst(a + b, f + g);
      JoinAssociates([a[0] == '1'], f, g);
    }
  }

  lemma ReadCell(one: bool)
    ensures ReadFlags([if one then '1' else '0'] + ",") == Some([one])
  {
    var cell := [if one then '1' else '0'] + ",";
    assert cell[2..] == "";
    assert [one] + [] == [one];
  }

  /** Four blanks, the cells joined by commas, a comma and a line end. */
  method EmitRow(conns: array2<int>, n: nat, r: nat, ghost e: Links) returns (text: string)
    requires Holds(conns, n, e) && r < n
    ensures ReadFlags(text) == Some(RowFlags(e, r, n))
  {
    var row := "";
    for c := 0 to n
      invariant c == 0 ==> row == ""
      invariant c > 0 ==> ReadFlags(row + ",") == Some(RowFlags(e, r, c))
    {
      var cell := if conns[r, c] == 1 then "1" else "0";
      ReadCell((r, c) in e);
      if c > 0 {
        ReadJoined(row + ",", cell + ",");
        JoinAssociates(row + ",", cell, ",");
        row := row + ",";
      } else {
        assert RowFlags(e, r, 1) == [(r, 0) in e];
      }
      row := row + cell;
    }
    ReadBlanks(row + ",");
    text := "    " + row + ",\n";
    assert text == "    " + (row + ",") + "\n";
  }

  lemma ReadBlanks(body: string)
    requires ReadFlags(body).Some?
    ensures ReadFlags("    " + body + "\n") == ReadFlags(body)
  {
    assert ReadFlags("\n") == Some([]) by {
      assert "\n"[1..] == "";
    }
    assert ReadFlags("    ") == Some([]) by {
      assert "    "[1..] == "   " && "   "[1..] == "  " && "  "[1..] == " " && " "[1..] == "";
    }
    ReadJoined("    ", body);
    ReadJoined("    " + body, "\n");
    var f := ReadFlags(body).value;
    JoinEmpty(f);
  }

  /** The rows of the matrix, in order: read back, they give its flags row by row. */
  method EmitMatrix(conns: array2<int>, n: nat, ghost e: Links) returns (text: string)
    requires Holds(conns, n, e)
    ensures ReadFlags(text) == Some(Flags(n, e, n))
  {
    text := "";
    for r := 0 to n
      invariant ReadFlags(text) == Some(Flags(n, e, r))
    {
      var row := EmitRow(conns, n, r, e);
      ReadJoined(text, row);
      text := text + row;
    }
  }

  /** A set flag is written as one. */
  lemma FlagDigits()
    ensures ReadFlags("0,") == Some([false]) && ReadFlags("1,") == Some([true])
  {
    assert "0,"[2..] == "" && "1,"[2..] == "" && ReadFlags("") == Some([]);
    assert "0,"[0] == '0' && "0,"[1] == ',' && "1,"[0] == '1' && "1,"[1] == ',';
    assert [false] + [] == [false] && [true] + [] == [true];
  }

  /** The flag at origin + k * step lies in the array. */
  ghost predicate Inside(flags: seq<bool>, origin: nat, step: nat, k: nat) {
    origin + k * step < |flags|
  }

  predicate IsSet(flags: seq<bool>, origin: nat, step: nat, k: nat)
    requires Inside(flags, origin, step, k)
  {
    flags[origin + k * step]
  }

  ghost predicate AllInside(flags: seq<bool>, origin: nat, step: nat, size: nat) {
    forall k: nat :: k < size ==> Inside(flags, origin, step, k)
  }

  /** Walks the set flags at origin, origin + step, origin + 2 * step, ... */
  class QuorumConnIterator {
    const flags: seq<bool>
    const origin: nat
    const size: nat
    const step: nat
    var i: nat

    ghost predicate Valid()
      reads this
    {
      && i <= size
      && AllInside(flags, origin, step, size)
      && (i < size ==> IsSet(flags, origin, step, i))
    }

    /** Stands at the first set flag, or past the end. */
    constructor (flags: seq<bool>, origin: nat, size: nat, step: nat)
      requires size > 0 && AllInside(flags, origin, step, size)
      ensures this.flags == flags && this.origin == origin && this.size == size && this.step == step
      ensures Valid()
      ensures forall k: nat :: k < i ==> !IsSet(flags, origin, step, k)
    {
      this.flags, this.origin, this.size, this.step := flags, origin, size, step;
      i := 0;
      new;
      if !IsSet(flags, origin, step, 0) {
        Advance();
      }
    }

    /** Moves to the next set flag, or past the end. */
    method Advance()
      requires i < size && AllInside(flags, origin, step, size)
      modifies this
      ensures Valid() && i > old(i)
      ensures forall k: nat :: old(i) < k < i ==> !IsSet(flags, origin, step, k)
    {
      i := i + 1;
      while i < size && !IsSet(flags, origin, step, i)
        invariant old(i) < i <= size
        invariant forall k: nat :: old(i) < k < i ==> !IsSet(flags, origin, step, k)
      {
        i := i + 1;
      }
    }
  }

  ghost predicate Ascending(s: seq<nat>) {
    forall p, q :: 0 <= p < q < |s| ==> s[p] < s[q]
  }

  /** The set flags below bound, in ascending order. */
  ghost predicate ListsSetFlags(peers: seq<nat>, flags: seq<bool>, origin: nat, step: nat, bound: nat)
    requires AllInside(flags, origin, step, bound)
  {
    && Ascending(peers)
    && (forall k: nat :: k < bound && IsSet(flags, origin, step, k) ==> k in peers)
    && (forall k: nat :: k in peers ==> k < bound && IsSet(flags, origin, step, k))
  }

  lemma ListsOneMore(peers: seq<nat>, flags: seq<bool>, origin: nat, step: nat, at: nat, next: nat)
    requires at < next && AllInside(flags, origin, step, next)
    requires ListsSetFlags(peers, flags, origin, step, at)
    requires IsSet(flags, origin, step, at)
    requires forall k: nat :: at < k < next ==> !IsSet(flags, origin, step, k)
    ensures ListsSetFlags(peers + [at], flags, origin, step, next)
  {
    var longer := peers + [at];
    assert longer[|peers|] == at;
    forall p, q | 0 <= p < q < |longer|
      ensures longer[p] < longer[q]
    {
      assert peers[p] in peers;
    }
  }

  /** Iterates from begin to end: the indices of the set flags, in ascending order. */
  method Peers(flags: seq<bool>, origin: nat, size: nat, step: nat) returns (peers: seq<nat>)
    requires size > 0 && AllInside(flags, origin, step, size)
    ensures ListsSetFlags(peers, flags, origin, step, size)
  {
    var it := new QuorumConnIterator(flags, origin, size, step);
    peers := [];
    while it.i != size
      invariant fresh(it) && it.Valid()
      invariant it.flags == flags && it.origin == origin && it.size == size && it.step == step
      invariant ListsSetFlags(peers, flags, origin, step, it.i)
      decreases size - it.i
    {
      ghost var at := it.i;
      var peer := it.i;
      it.Advance();
      ListsOneMore(peers, flags, origin, step, at, it.i);
      peers := peers + [peer];
    }
  }

  /** The peers node i connects to are those it opens a link to. */
  method OutgoingPeers(n: nat, i: nat, flags: seq<bool>, ghost e: Links) returns (peers: seq<nat>)
    requires i < n && flags == Flags(n, e, n)
    ensures Ascending(peers) && (set k | k in peers) == OutNodes(n, e, i)
  {
    forall k: nat | k < n
      ensures Inside(flags, i * n, 1, k)
      ensures IsSet(flags, i * n, 1, k) <==> (i, k) in e
    {
      FlagAt(n, e, n, i, k);
    }
    peers := Peers(flags, i * n, n, 1);
  }

  /** And the peers it expects connections from are those that open one to it. */
  method IncomingPeers(n: nat, j: nat, flags: seq<bool>, ghost e: Links) returns (peers: seq<nat>)
    requires j < n && flags == Flags(n, e, n)
    ensures Ascending(peers) && (set k | k in peers) == InNodes(n, e, j)
  {
    forall k: nat | k < n
      ensures Inside(flags, j, n, k)
      ensures IsSet(flags, j, n, k) <==> (k, j) in e
    {
      FlagAt(n, e, n, k, j);
    }
    peers := Peers(flags, j, n, n);
  }
}
