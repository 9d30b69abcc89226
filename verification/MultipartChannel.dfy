/**
 Multipart messages over a first-in first-out pipe of message pieces. A piece says whether more of
 its message follows. The pipe takes or refuses a message as a whole: it can refuse only a piece
 that starts a message, and it hands over a message only once its last piece is in.
 */
module MultipartChannel {
  import opened Types
  import opened Seqs
  import opened MultipartCodec

  datatype Piece = Piece(data: Bytes, more: bool)

  type Message = seq<Bytes>

  /** The pieces of a message; the last one says `more` too if the message goes on after it. */
  function Pieces(parts: Message, more: bool): (ps: seq<Piece>)
    ensures |ps| == |parts|
  {
    seq(|parts|, k requires 0 <= k < |parts| => Piece(parts[k], more || k < |parts| - 1))
  }

  function Contents(ps: seq<Piece>): (parts: Message)
    ensures |parts| == |ps|
  {
    seq(|ps|, k requires 0 <= k < |ps| => ps[k].data)
  }

  /** The index of the first piece that ends a message; the length if none does. */
  function FirstEnd(ps: seq<Piece>): (end: nat)
    ensures end <= |ps|
    ensures end < |ps| ==> !ps[end].more
    ensures forall k :: 0 <= k < end ==> ps[k].more
  {
    if ps == [] || !ps[0].more then 0 else 1 + FirstEnd(ps[1..])
  }

  lemma FirstEndIs(ps: seq<Piece>, end: nat)
    requires end < |ps| && !ps[end].more
    requires forall k :: 0 <= k < end ==> ps[k].more
    ensures FirstEnd(ps) == end
  {
  }

  lemma FirstEndOfRest(ps: seq<Piece>, k: nat)
    requires k <= FirstEnd(ps)
    ensures FirstEnd(ps[k..]) == FirstEnd(ps) - k
  {
    var end := FirstEnd(ps);
    if end < |ps| {
      FirstEndIs(ps[k..], end - k);
    } else {
      NoFirstEnd(ps[k..]);
    }
  }

  lemma NoFirstEnd(ps: seq<Piece>)
    requires forall k :: 0 <= k < |ps| ==> ps[k].more
    ensures FirstEnd(ps) == |ps|
  {
  }

  /** The message at the front of a pipe that has one. */
  function FirstMessage(ps: seq<Piece>): Message
    requires FirstEnd(ps) < |ps|
  {
    Contents(ps[..FirstEnd(ps) + 1])
  }

  function AfterFirst(ps: seq<Piece>): seq<Piece>
    requires FirstEnd(ps) < |ps|
  {
    ps[FirstEnd(ps) + 1..]
  }

  lemma ContentsOfJoin(a: seq<Piece>, b: seq<Piece>)
    ensures Contents(a + b) == Contents(a) + Contents(b)
  {
  }

  /** Without its first n pieces, a pipe has the rest of its first message at the front. */
  lemma CutMessage(ps: seq<Piece>, n: nat)
    requires n <= FirstEnd(ps) < |ps|
    ensures FirstEnd(ps[n..]) < |ps[n..]|
    ensures FirstMessage(ps) == Contents(ps[..n]) + FirstMessage(ps[n..])
    ensures AfterFirst(ps[n..]) == AfterFirst(ps)
  {
    var k := FirstEnd(ps) + 1 - n;
    FirstEndOfRest(ps, n);
    ContentsOfJoin(ps[..n], ps[n..][..k]);
    TakeInTwo(ps, n, k);
    DropDrop(ps, n, k);
  }

  class Pipe {
    var pieces: seq<Piece>
    /** The last piece sent said that more follows. */
    var open: bool

    constructor ()
      ensures pieces == [] && !open
    {
      pieces, open := [], false;
    }

    /** `ready` says whether the pipe has room for a new message. */
    method Send(data: Bytes, more: bool, ready: bool) returns (ok: bool)
      modifies this
      ensures ok == (old(open) || ready)
      ensures ok ==> pieces == old(pieces) + [Piece(data, more)] && open == more
      ensures !ok ==> pieces == old(pieces) && open == old(open)
    {
      ok := open || ready;
      if ok {
        pieces, open := pieces + [Piece(data, more)], more;
      }
    }

    method Recv() returns (piece: Option<Piece>)
      modifies this`pieces
      ensures piece.Some? <==> FirstEnd(old(pieces)) < |old(pieces)|
      ensures piece.Some? ==> old(pieces) == [piece.value] + pieces
      ensures piece.None? ==> pieces == old(pieces)
    {
      if FirstEnd(pieces) < |pieces| {
        piece := Some(pieces[0]);
        pieces := pieces[1..];
      } else {
        piece := None;
      }
    }
  }

  lemma PiecesStep(parts: Message, more: bool, k: nat)
    requires k < |parts|
    ensures Pieces(parts, more)[..k + 1] == Pieces(parts, more)[..k] + [Piece(parts[k], more || k + 1 < |parts|)]
  {
  }

  /** Sends all the parts or, when the pipe has no room for a new message, none of them. */
  method SendMultipart(pipe: Pipe, msgs: Message, sndmore: bool, ready: bool) returns (sent: Option<nat>)
    modifies pipe
    ensures sent.None? <==> msgs != [] && !old(pipe.open) && !ready
    ensures sent.Some? ==> sent.value == |msgs| && pipe.pieces == old(pipe.pieces) + Pieces(msgs, sndmore)
                           && pipe.open == if msgs == [] then old(pipe.open) else sndmore
    ensures sent.None? ==> pipe.pieces == old(pipe.pieces) && pipe.open == old(pipe.open)
  {
    var it := 0;
    var count := 0;
    while it != |msgs|
      invariant 0 <= it <= |msgs| && count == it
      invariant pipe.pieces == old(pipe.pieces) + Pieces(msgs, sndmore)[..it]
      invariant pipe.open == if it == 0 then old(pipe.open) else sndmore || it < |msgs|
      invariant it > 0 ==> old(pipe.open) || ready
      decreases |msgs| - it
    {
      var next := it + 1;
      var more := sndmore || next != |msgs|;
      PiecesStep(msgs, sndmore, it);
      JoinAssociates(old(pipe.pieces), Pieces(msgs, sndmore)[..it], [Piece(msgs[it], more)]);
      var ok := pipe.Send(msgs[it], more, ready);
      if !ok {
        assert it == 0;
        return None;
      }
      count := count + 1;
      it := next;
    }
    assert Pieces(msgs, sndmore)[..it] == Pieces(msgs, sndmore);
    return Some(count);
  }

  datatype RecvResult = Again | TooMany | Received(count: nat)

  /** What a receive of at most `limit` parts returns and leaves. */
  ghost predicate Receives(before: seq<Piece>, limit: Option<nat>, out: Message, r: RecvResult, after: seq<Piece>) {
    var end := FirstEnd(before);
    if limit == Some(0) then r == TooMany && out == [] && after == before
    else if end == |before| then r == Again && out == [] && after == before
    else if limit.Some? && end + 1 > limit.value then
      r == TooMany && out == Contents(before[..limit.value]) && after == before[limit.value..]
    else r == Received(end + 1) && out == Contents(before[..end + 1]) && after == before[end + 1..]
  }

  lemma TakePiece(before: seq<Piece>, k: nat, after: seq<Piece>, piece: Piece)
    requires k < |before| && before[k..] == [piece] + after
    ensures piece == before[k] && after == before[k + 1..]
    ensures Contents(before[..k + 1]) == Contents(before[..k]) + [piece.data]
  {
    assert before[k..][0] == before[k];
    assert before[k..][1..] == before[k + 1..];
  }

  /** How far a receive has come: `out` is taken from the front, and no message end passed. */
  ghost predicate Taking(before: seq<Piece>, out: Message, now: seq<Piece>) {
    && |out| <= FirstEnd(before) && now == before[|out|..] && out == Contents(before[..|out|])
    && (|out| > 0 ==> FirstEnd(before) < |before|)
  }

  lemma StopsAtLimit(before: seq<Piece>, out: Message, now: seq<Piece>)
    requires Taking(before, out, now)
    ensures Receives(before, Some(|out|), out, TooMany, now)
  {
    assert before[..0] == [] && before[0..] == before;
  }

  lemma StopsEmpty(before: seq<Piece>, limit: Option<nat>, out: Message, now: seq<Piece>)
    requires Taking(before, out, now) && limit != Some(0)
    requires FirstEnd(now) == |now|
    ensures |out| == 0 && Receives(before, limit, out, Again, now)
  {
    FirstEndOfRest(before, |out|);
    assert before[0..] == before;
  }

  /** A piece that others follow. */
  lemma TakesMore(before: seq<Piece>, out: Message, now: seq<Piece>, piece: Piece, after: seq<Piece>)
    requires Taking(before, out, now) && FirstEnd(now) < |now| && now == [piece] + after && piece.more
    ensures Taking(before, out + [piece.data], after)
  {
    FirstEndOfRest(before, |out|);
    TakePiece(before, |out|, after, piece);
  }

  /** The last piece of a message. */
  lemma TakesLast(
    before: seq<Piece>, limit: Option<nat>, out: Message, now: seq<Piece>, piece: Piece, after: seq<Piece>)
    requires Taking(before, out, now) && FirstEnd(now) < |now| && now == [piece] + after && !piece.more
    requires limit.Some? ==> |out| < limit.value
    ensures Receives(before, limit, out + [piece.data], Received(|out| + 1), after)
  {
    FirstEndOfRest(before, |out|);
    TakePiece(before, |out|, after, piece);
  }

  /** `limit` is the bound of the checked form, `None` of the unchecked one. */
  method RecvMultipart(pipe: Pipe, limit: Option<nat>) returns (out: Message, r: RecvResult)
    modifies pipe`pieces
    ensures Receives(old(pipe.pieces), limit, out, r, pipe.pieces)
  {
    ghost var before := pipe.pieces;
    var count := 0;
    out := [];
    assert before[0..] == before;
    while true
      invariant count == |out| && Taking(before, out, pipe.pieces)
      invariant limit.Some? ==> count <= limit.value
      decreases |before| - count
    {
      if limit.Some? && count >= limit.value {
        StopsAtLimit(before, out, pipe.pieces);
        return out, TooMany;
      }
      ghost var now := pipe.pieces;
      var piece := pipe.Recv();
      if piece.None? {
        StopsEmpty(before, limit, out, now);
        assert count == 0;
        return out, Again;
      }
      if piece.value.more {
        TakesMore(before, out, now, piece.value, pipe.pieces);
      } else {
        TakesLast(before, limit, out, now, piece.value, pipe.pieces);
      }
      count := count + 1;
      out := out + [piece.value.data];
      if !piece.value.more {
        return out, Received(count);
      }
    }
  }

  /** A receive that gave up after its limit has split the message: the next one gets the rest. */
  lemma RestAfterTooMany(
    before: seq<Piece>, n: nat, out: Message, after: seq<Piece>, rest: Message, left: seq<Piece>)
    requires Receives(before, Some(n), out, TooMany, after)
    requires Receives(after, None, rest, Received(|rest|), left)
    ensures |out| == n && Receives(before, None, out + rest, Received(n + |rest|), left)
  {
    if n == 0 {
      JoinEmpty(rest);
    } else {
      CutMessage(before, n);
    }
  }

  /** An ordered list of parts, as the programs that send and receive hold it. */
  class Multipart {
    var parts: Message

    constructor (parts: Message)
      ensures this.parts == parts
    {
      this.parts := parts;
    }

    method Push(part: Bytes)
      modifies this
      ensures parts == [part] + old(parts)
    {
      parts := [part] + parts;
    }

    method Add(part: Bytes)
      modifies this
      ensures parts == old(parts) + [part]
    {
      parts := parts + [part];
    }

    method Pop() returns (part: Bytes)
      requires parts != []
      modifies this
      ensures old(parts) == [part] + parts
    {
      part := parts[0];
      parts := parts[1..];
    }

    method Remove() returns (part: Bytes)
      requires parts != []
      modifies this
      ensures old(parts) == parts + [part]
    {
      part := parts[|parts| - 1];
      parts := parts[..|parts| - 1];
    }

    /** Takes all parts of the other, which goes in front. */
    method Prepend(other: Multipart)
      requires other != this
      modifies this, other
      ensures parts == old(other.parts) + old(parts) && other.parts == []
    {
      while other.parts != []
        invariant other.parts + parts == old(other.parts) + old(parts)
        decreases |other.parts|
      {
        var part := other.Remove();
        Push(part);
      }
    }

    /** Takes all parts of the other, which goes behind. */
    method Append(other: Multipart)
      requires other != this
      modifies this, other
      ensures parts == old(parts) + old(other.parts) && other.parts == []
    {
      while other.parts != []
        invariant parts + other.parts == old(parts) + old(other.parts)
        decreases |other.parts|
      {
        var part := other.Pop();
        Add(part);
      }
    }

    /** Replaces the parts by the next message; false, and no parts, if there is none yet. */
    method Recv(pipe: Pipe) returns (ok: bool)
      modifies this, pipe`pieces
      ensures Receives(old(pipe.pieces), None, parts, if ok then Received(|parts|) else Again, pipe.pieces)
    {
      ghost var before := pipe.pieces;
      parts := [];
      assert before[0..] == before;
      var more := true;
      while more
        invariant if more then Taking(before, parts, pipe.pieces)
                  else Receives(before, None, parts, Received(|parts|), pipe.pieces)
        decreases more, |before| - |parts|
      {
        ghost var now := pipe.pieces;
        var piece := pipe.Recv();
        if piece.None? {
          StopsEmpty(before, None, parts, now);
          return false;
        }
        more := piece.value.more;
        if more {
          TakesMore(before, parts, now, piece.value, pipe.pieces);
        } else {
          TakesLast(before, None, parts, now, piece.value, pipe.pieces);
        }
        Add(piece.value.data);
      }
      return true;
    }

    /** Sends the parts as one message. If the pipe refuses it, the first part is gone. */
    method Send(pipe: Pipe, ready: bool) returns (ok: bool)
      modifies this, pipe
      ensures ok <==> old(parts) == [] || old(pipe.open) || ready
      ensures ok ==> parts == [] && pipe.pieces == old(pipe.pieces) + Pieces(old(parts), false)
                     && pipe.open == (old(parts) == [] && old(pipe.open))
      ensures !ok ==> parts == old(parts)[1..] && pipe.pieces == old(pipe.pieces) && pipe.open == old(pipe.open)
    {
      ghost var all := parts;
      ghost var it := 0;
      var more := |parts| > 0;
      while more
        invariant 0 <= it <= |all| && parts == all[it..] && more == (it < |all|)
        invariant pipe.pieces == old(pipe.pieces) + Pieces(all, false)[..it]
        invariant pipe.open == if it == 0 then old(pipe.open) else it < |all|
        invariant it > 0 ==> old(pipe.open) || ready
        decreases |all| - it
      {
        var part := Pop();
        assert part == all[it] && parts == all[it + 1..] by {
          assert all[it..][0] == all[it] && all[it..][1..] == all[it + 1..];
        }
        more := |parts| > 0;
        PiecesStep(all, false, it);
        JoinAssociates(old(pipe.pieces), Pieces(all, false)[..it], [Piece(part, more)]);
        var accepted := pipe.Send(part, more, ready);
        if !accepted {
          return false;
        }
        it := it + 1;
      }
      assert Pieces(all, false)[..it] == Pieces(all, false);
      parts := [];
      return true;
    }

    /** Appends the decoded parts; on malformed bytes, those of the longest well-formed prefix. */
    method DecodeAppend(encoded: Bytes) returns (error: Option<DecodeError>)
      modifies this
      ensures parts == old(parts) + Decoded(encoded)
      ensures error == ErrorAt(Split(encoded).1)
    {
      var out, e := Decode(encoded);
      parts := parts + out;
      error := e;
    }
  }
}
