/**
 Every run of sends and receives over a pipe, at the level of whole messages: what is received is
 what was sent, message by message and in order, and nothing is lost, doubled or mixed.
 */
module ChannelRuns {
  import opened Types
  import opened Seqs
  import opened MultipartCodec
  import opened MultipartChannel

  /** The whole messages among some pieces, and the parts of one that is still open. */
  datatype Stock = Stock(whole: seq<Message>, open: Message)

  ghost function Assemble(ps: seq<Piece>): Stock {
    if ps == [] then Stock([], [])
    else
      var last := ps[|ps| - 1];
      var s := Assemble(ps[..|ps| - 1]);
      if last.more then Stock(s.whole, s.open + [last.data])
      else Stock(s.whole + [s.open + [last.data]], [])
  }

  lemma AssembleSnoc(ps: seq<Piece>, p: Piece)
    ensures var s := Assemble(ps);
            Assemble(ps + [p]) == if p.more then Stock(s.whole, s.open + [p.data])
                                  else Stock(s.whole + [s.open + [p.data]], [])
  {
    assert (ps + [p])[..|ps|] == ps;
  }

  /** Sending a message that goes on adds to the open one; sending its end closes it. */
  ghost function AfterSend(s: Stock, parts: Message, more: bool): Stock {
    if parts == [] then s
    else if more then Stock(s.whole, s.open + parts)
    else Stock(s.whole + [s.open + parts], [])
  }

  lemma {:induction false} AssembleMore(ps: seq<Piece>, parts: Message)
    ensures Assemble(ps + Pieces(parts, true)) == Stock(Assemble(ps).whole, Assemble(ps).open + parts)
    decreases |parts|
  {
    var s := Assemble(ps);
    if parts == [] {
      JoinEmpty(ps);
      JoinEmpty(s.open);
      assert Pieces(parts, true) == [];
    } else {
      var front, last := parts[..|parts| - 1], parts[|parts| - 1];
      AssembleMore(ps, front);
      assert Pieces(parts, true) == Pieces(front, true) + [Piece(last, true)];
      JoinAssociates(ps, Pieces(front, true), [Piece(last, true)]);
      AssembleSnoc(ps + Pieces(front, true), Piece(last, true));
      JoinAssociates(s.open, front, [last]);
      assert front + [last] == parts;
    }
  }

  lemma AssembleSend(ps: seq<Piece>, parts: Message, more: bool)
    ensures Assemble(ps + Pieces(parts, more)) == AfterSend(Assemble(ps), parts, more)
  {
    if parts == [] {
      assert Pieces(parts, more) == [];
      JoinEmpty(ps);
    } else if more {
      AssembleMore(ps, parts);
    } else {
      var front, last := parts[..|parts| - 1], parts[|parts| - 1];
      AssembleMore(ps, front);
      assert Pieces(parts, false) == Pieces(front, true) + [Piece(last, false)];
      JoinAssociates(ps, Pieces(front, true), [Piece(last, false)]);
      AssembleSnoc(ps + Pieces(front, true), Piece(last, false));
      JoinAssociates(Assemble(ps).open, front, [last]);
      assert front + [last] == parts;
    }
  }

  /** The whole message at the start of the pieces goes before what the rest assembles to. */
  ghost predicate StartsWith(ps: seq<Piece>, end: nat)
    requires end < |ps|
  {
    var s := Assemble(ps[end + 1..]);
    Assemble(ps) == Stock([Contents(ps[..end + 1])] + s.whole, s.open)
  }

  lemma StartsWithSnoc(ps: seq<Piece>, p: Piece, end: nat)
    requires end < |ps| && StartsWith(ps, end)
    ensures StartsWith(ps + [p], end)
  {
    var rest := ps[end + 1..];
    TakeOfJoin(ps, [p], end + 1);
    DropOfJoin(ps, [p], end + 1);
    AssembleSnoc(ps, p);
    AssembleSnoc(rest, p);
    JoinAssociates([Contents(ps[..end + 1])], Assemble(rest).whole, [Assemble(rest).open + [p.data]]);
  }

  lemma StartsWithAll(ps: seq<Piece>)
    requires ps != [] && !ps[|ps| - 1].more
    requires forall k :: 0 <= k < |ps| - 1 ==> ps[k].more
    ensures StartsWith(ps, |ps| - 1)
  {
    var front, last := ps[..|ps| - 1], ps[|ps| - 1];
    OpenAll(front);
    assert ps[..|ps| - 1 + 1] == ps && ps[|ps| - 1 + 1..] == [];
    assert Contents(ps) == Contents(front) + [last.data];
    JoinEmpty([Contents(ps)]);
  }

  /** Pieces that come later leave the first whole message in place. */
  lemma {:induction false} KeepsStart(ps: seq<Piece>, end: nat, k: nat)
    requires end < k <= |ps| && StartsWith(ps[..end + 1], end)
    ensures StartsWith(ps[..k], end)
    decreases k
  {
    if k == end + 1 {
    } else {
      KeepsStart(ps, end, k - 1);
      StartsWithSnoc(ps[..k - 1], ps[k - 1], end);
      TakeOneMore(ps, k - 1);
    }
  }

  /** The first whole message is where the pipe says it is; taking it leaves the others. */
  lemma {:induction false} AssembleFirst(ps: seq<Piece>)
    requires FirstEnd(ps) < |ps|
    ensures var rest := Assemble(AfterFirst(ps));
            Assemble(ps) == Stock([FirstMessage(ps)] + rest.whole, rest.open)
  {
    var end := FirstEnd(ps);
    StartsWithAll(ps[..end + 1]);
    KeepsStart(ps, end, |ps|);
    assert ps[..|ps|] == ps;
  }

  /** Some parts gone from the front of the pipe leave the rest of their message there. */
  lemma AssembleCut(ps: seq<Piece>, n: nat)
    requires n <= FirstEnd(ps) < |ps|
    ensures FirstEnd(ps[n..]) < |ps[n..]|
    ensures var rest := Assemble(AfterFirst(ps));
            && Assemble(ps) == Stock([Contents(ps[..n]) + FirstMessage(ps[n..])] + rest.whole, rest.open)
            && Assemble(ps[n..]) == Stock([FirstMessage(ps[n..])] + rest.whole, rest.open)
  {
    CutMessage(ps, n);
    AssembleFirst(ps);
    AssembleFirst(ps[n..]);
  }

  lemma {:induction false} OpenAll(ps: seq<Piece>)
    requires forall k :: 0 <= k < |ps| ==> ps[k].more
    ensures Assemble(ps) == Stock([], Contents(ps))
    decreases |ps|
  {
    if ps == [] {
    } else {
      OpenAll(ps[..|ps| - 1]);
      assert Contents(ps) == Contents(ps[..|ps| - 1]) + [ps[|ps| - 1].data];
    }
  }

  /** What a program does with a pipe: it sends parts, or the parts of an object, and receives with or
      without a limit, or into an object. */
  datatype Op =
    | Send(parts: Message, more: bool, ready: bool)
    | SendObject(parts: Message, ready: bool)
    | Receive(limit: Option<nat>)
    | ReceiveObject

  /** The pipe as it stands, every message received so far, and the parts of the next one that
      receives with too low a limit have taken. */
  datatype World = World(pieces: seq<Piece>, open: bool, received: seq<Message>, partial: Message)

  ghost function AfterParts(w: World, parts: Message, more: bool, ready: bool): World {
    if parts == [] || (!w.open && !ready) then w
    else w.(pieces := w.pieces + Pieces(parts, more), open := more)
  }

  ghost function AfterReceive(w: World, limit: Option<nat>): World {
    var end := FirstEnd(w.pieces);
    if limit == Some(0) || end == |w.pieces| then w
    else if limit.Some? && end + 1 > limit.value then
      w.(pieces := w.pieces[limit.value..], partial := w.partial + Contents(w.pieces[..limit.value]))
    else
      w.(pieces := AfterFirst(w.pieces),
         received := w.received + [w.partial + FirstMessage(w.pieces)],
         partial := [])
  }

  /** What the operations do to the pipe, as the contracts of sending and receiving say. */
  ghost function Step(w: World, op: Op): World {
    match op
    case Send(parts, more, ready) => AfterParts(w, parts, more, ready)
    case SendObject(parts, ready) => AfterParts(w, parts, false, ready)
    case Receive(limit) => AfterReceive(w, limit)
    case ReceiveObject => AfterReceive(w, None)
  }

  ghost function Run(ops: seq<Op>): World {
    if ops == [] then World([], false, [], [])
    else Step(Run(ops[..|ops| - 1]), ops[|ops| - 1])
  }

  ghost function Accepted(s: Stock, parts: Message, more: bool, ready: bool): Stock {
    if s.open != [] || ready then AfterSend(s, parts, more) else s
  }

  ghost function BookStep(s: Stock, op: Op): Stock {
    match op
    case Send(parts, more, ready) => Accepted(s, parts, more, ready)
    case SendObject(parts, ready) => Accepted(s, parts, false, ready)
    case _ => s
  }

  /** The messages that the accepted sends of a run amount to, with no pipe in between. */
  ghost function Book(ops: seq<Op>): Stock {
    if ops == [] then Stock([], [])
    else BookStep(Book(ops[..|ops| - 1]), ops[|ops| - 1])
  }

  /** Whole messages with the parts already taken of the first one put back. */
  ghost function Glue(partial: Message, whole: seq<Message>): seq<Message> {
    if partial == [] || whole == [] then whole else [partial + whole[0]] + whole[1..]
  }

  lemma GlueFirst(partial: Message, first: Message, rest: seq<Message>)
    ensures Glue(partial, [first] + rest) == [partial + first] + rest
  {
    assert partial == [] ==> partial + first == first;
    assert ([first] + rest)[1..] == rest;
  }

  /** All that was sent has been received or is in the pipe, and so is the rest of what was taken. */
  ghost predicate Conserves(w: World, s: Stock) {
    && w.received + Glue(w.partial, Assemble(w.pieces).whole) == s.whole
    && (w.partial != [] ==> Assemble(w.pieces).whole != [])
    && Assemble(w.pieces).open == s.open
    && w.open == (s.open != [])
  }

  lemma GlueEnd(partial: Message, whole: seq<Message>, last: Message)
    requires partial != [] ==> whole != []
    ensures Glue(partial, whole + [last]) == Glue(partial, whole) + [last]
  {
    if partial != [] {
      assert (whole + [last])[1..] == whole[1..] + [last];
    }
  }

  lemma SendConserves(w: World, s: Stock, parts: Message, more: bool, ready: bool)
    requires Conserves(w, s)
    ensures Conserves(AfterParts(w, parts, more, ready), Accepted(s, parts, more, ready))
  {
    var before := Assemble(w.pieces);
    AssembleSend(w.pieces, parts, more);
    GlueEnd(w.partial, before.whole, before.open + parts);
    JoinAssociates(w.received, Glue(w.partial, before.whole), [before.open + parts]);
  }

  /** A receive that gets to the end of a message. */
  lemma WholeConserves(w: World, s: Stock, limit: Option<nat>)
    requires Conserves(w, s) && FirstEnd(w.pieces) < |w.pieces|
    requires limit.Some? ==> FirstEnd(w.pieces) < limit.value
    ensures Conserves(AfterReceive(w, limit), s)
  {
    AssembleFirst(w.pieces);
    var rest := Assemble(AfterFirst(w.pieces)).whole;
    GlueFirst(w.partial, FirstMessage(w.pieces), rest);
    JoinAssociates(w.received, [w.partial + FirstMessage(w.pieces)], rest);
  }

  /** A receive that stops short of it. */
  lemma PartConserves(w: World, s: Stock, n: nat)
    requires Conserves(w, s) && 0 < n <= FirstEnd(w.pieces) < |w.pieces|
    ensures Conserves(AfterReceive(w, Some(n)), s)
  {
    AssembleCut(w.pieces, n);
    var taken, left := Contents(w.pieces[..n]), FirstMessage(w.pieces[n..]);
    var rest := Assemble(AfterFirst(w.pieces)).whole;
    GlueFirst(w.partial, taken + left, rest);
    GlueFirst(w.partial + taken, left, rest);
    JoinAssociates(w.partial, taken, left);
  }

  lemma ReceiveConserves(w: World, s: Stock, limit: Option<nat>)
    requires Conserves(w, s)
    ensures Conserves(AfterReceive(w, limit), s)
  {
    var end := FirstEnd(w.pieces);
    if limit == Some(0) || end == |w.pieces| {
    } else if limit.Some? && end + 1 > limit.value {
      PartConserves(w, s, limit.value);
    } else {
      WholeConserves(w, s, limit);
    }
  }

  lemma StepConserves(w: World, s: Stock, op: Op)
    requires Conserves(w, s)
    ensures Conserves(Step(w, op), BookStep(s, op))
  {
    match op
    case Send(parts, more, ready) => SendConserves(w, s, parts, more, ready);
    case SendObject(parts, ready) => SendConserves(w, s, parts, false, ready);
    case Receive(limit) => ReceiveConserves(w, s, limit);
    case ReceiveObject => ReceiveConserves(w, s, None);
  }

  /** Conservation: received, then still whole in the pipe, is all that was sent, in order. */
  lemma {:induction false} NothingLost(ops: seq<Op>)
    ensures Conserves(Run(ops), Book(ops))
    decreases |ops|
  {
    if ops == [] {
    } else {
      NothingLost(ops[..|ops| - 1]);
      StepConserves(Run(ops[..|ops| - 1]), Book(ops[..|ops| - 1]), ops[|ops| - 1]);
    }
  }

  /** What a receive gets of the messages sent: the next one, or as many more of its parts as the
      limit allows; nothing only if all are taken or the limit is zero. */
  ghost predicate GetsNext(before: World, whole: seq<Message>, limit: Option<nat>, after: World) {
    && before.received <= whole
    && if |before.received| == |whole| || limit == Some(0) then after == before
       else
         var next := whole[|before.received|];
         && before.partial < next
         && if limit.Some? && limit.value < |next| - |before.partial| then
              && after.received == before.received
              && after.partial == next[..|before.partial| + limit.value]
            else
              && after.received == before.received + [next]
              && after.partial == []
  }

  /** The first whole message in the pipe, with what was taken of it, is the next of those sent. */
  lemma NextIsFirst(w: World, s: Stock)
    requires Conserves(w, s) && FirstEnd(w.pieces) < |w.pieces|
    ensures w.received < s.whole
    ensures s.whole[|w.received|] == w.partial + FirstMessage(w.pieces)
  {
    AssembleFirst(w.pieces);
    GlueFirst(w.partial, FirstMessage(w.pieces), Assemble(AfterFirst(w.pieces)).whole);
  }

  lemma NoneIsNext(w: World, s: Stock)
    requires Conserves(w, s) && FirstEnd(w.pieces) == |w.pieces|
    ensures w.received == s.whole
  {
    OpenAll(w.pieces);
    JoinEmpty(w.received);
  }

  lemma ContentsTake(ps: seq<Piece>, n: nat, end: nat)
    requires n <= end <= |ps|
    ensures Contents(ps[..n]) == Contents(ps[..end])[..n]
  {
  }

  lemma TakesPart(w: World, s: Stock, n: nat)
    requires Conserves(w, s) && 0 < n <= FirstEnd(w.pieces) < |w.pieces|
    ensures GetsNext(w, s.whole, Some(n), AfterReceive(w, Some(n)))
  {
    var end := FirstEnd(w.pieces);
    NextIsFirst(w, s);
    ContentsTake(w.pieces, n, end + 1);
    TakeOfLongJoin(w.partial, FirstMessage(w.pieces), n);
  }

  lemma TakesNext(w: World, s: Stock, limit: Option<nat>)
    requires Conserves(w, s)
    ensures GetsNext(w, s.whole, limit, AfterReceive(w, limit))
  {
    var end := FirstEnd(w.pieces);
    if end == |w.pieces| {
      NoneIsNext(w, s);
    } else if limit.Some? && 0 < limit.value <= end {
      TakesPart(w, s, limit.value);
    } else {
      NextIsFirst(w, s);
    }
  }

  lemma OneMoreOp(ops: seq<Op>, op: Op)
    ensures Run(ops + [op]) == Step(Run(ops), op)
    ensures Book(ops + [op]) == BookStep(Book(ops), op)
  {
    assert (ops + [op])[..|ops|] == ops;
  }

  /** After any run, every form of receive gets exactly what is next. */
  lemma ReceiveIsNext(ops: seq<Op>, limit: Option<nat>)
    ensures GetsNext(Run(ops), Book(ops).whole, limit, Run(ops + [Receive(limit)]))
    ensures GetsNext(Run(ops), Book(ops).whole, None, Run(ops + [ReceiveObject]))
  {
    NothingLost(ops);
    TakesNext(Run(ops), Book(ops), limit);
    TakesNext(Run(ops), Book(ops), None);
    OneMoreOp(ops, Receive(limit));
    OneMoreOp(ops, ReceiveObject);
  }

  ghost function ReceiveTimes(n: nat): seq<Op> {
    if n == 0 then [] else ReceiveTimes(n - 1) + [Receive(None)]
  }

  lemma ReceiveOne(ops: seq<Op>, whole: seq<Message>, k: nat)
    requires Book(ops).whole == whole && k < |whole| && Run(ops).received == whole[..k]
    ensures Book(ops + [Receive(None)]).whole == whole && Run(ops + [Receive(None)]).received == whole[..k + 1]
  {
    ReceiveIsNext(ops, None);
    OneMoreOp(ops, Receive(None));
    TakeOneMore(whole, k);
  }

  /** n further receives take the next n messages. */
  lemma {:induction false} ReceiveMany(ops: seq<Op>, whole: seq<Message>, k: nat, n: nat)
    requires Book(ops).whole == whole && k + n <= |whole| && Run(ops).received == whole[..k]
    ensures Book(ops + ReceiveTimes(n)).whole == whole
    ensures Run(ops + ReceiveTimes(n)).received == whole[..k + n]
    decreases n
  {
    if n == 0 {
      JoinEmpty(ops);
    } else {
      ReceiveMany(ops, whole, k, n - 1);
      ReceiveOne(ops + ReceiveTimes(n - 1), whole, k + n - 1);
      JoinAssociates(ops, ReceiveTimes(n - 1), [Receive(None)]);
    }
  }

  lemma ReceivedIsPrefix(ops: seq<Op>)
    ensures Run(ops).received <= Book(ops).whole
  {
    NothingLost(ops);
  }

  /** How many messages have been sent and not received. */
  ghost function Missing(ops: seq<Op>): nat {
    ReceivedIsPrefix(ops);
    |Book(ops).whole| - |Run(ops).received|
  }

  /** Whatever was done before, as many receives as messages are missing get them all. */
  lemma {:induction false} AllArrive(ops: seq<Op>)
    ensures Run(ops + ReceiveTimes(Missing(ops))).received == Book(ops).whole
  {
    var whole, k := Book(ops).whole, |Run(ops).received|;
    ReceivedIsPrefix(ops);
    ReceiveMany(ops, whole, k, Missing(ops));
    assert whole[..|whole|] == whole;
  }

  /** The operations that send each message in one go to a pipe with room. */
  ghost function SendEach(msgs: seq<Message>): seq<Op> {
    if msgs == [] then [] else SendEach(msgs[..|msgs| - 1]) + [Send(msgs[|msgs| - 1], false, true)]
  }

  lemma {:induction false} EachIsBooked(msgs: seq<Message>)
    requires forall k :: 0 <= k < |msgs| ==> msgs[k] != []
    ensures Book(SendEach(msgs)) == Stock(msgs, [])
    ensures Run(SendEach(msgs)).received == []
    decreases |msgs|
  {
    if msgs == [] {
    } else {
      var front, last := msgs[..|msgs| - 1], msgs[|msgs| - 1];
      EachIsBooked(front);
      OneMoreOp(SendEach(front), Send(last, false, true));
      JoinEmpty(last);
      assert front + [last] == msgs;
    }
  }

  /** Any sequence of non-empty messages arrives as it was sent. */
  lemma {:induction false} SentIsReceived(msgs: seq<Message>)
    requires forall k :: 0 <= k < |msgs| ==> msgs[k] != []
    ensures Run(SendEach(msgs) + ReceiveTimes(|msgs|)).received == msgs
  {
    EachIsBooked(msgs);
    AllArrive(SendEach(msgs));
  }

  /**
   After any run, a message sent in two calls, the first saying that more follows, counts as one sent
   in one call. If the pipe refuses the first call, the second sends the end alone.
   */
  lemma SplitSendIsOne(ops: seq<Op>, a: Message, b: Message, first: bool, second: bool)
    requires a != [] && b != []
    ensures Book(ops + [Send(a, true, first)] + [Send(b, false, second)]) ==
            if Book(ops).open != [] || first then Book(ops + [Send(a + b, false, first)])
            else Book(ops + [Send(b, false, second)])
    ensures Book(ops).open != [] || first ==>
              Book(ops + [Send(a + b, false, first)]) == Stock(Book(ops).whole + [Book(ops).open + (a + b)], [])
    ensures var both := ops + [Send(a, true, first)] + [Send(b, false, second)];
            Run(both + ReceiveTimes(Missing(both))).received == Book(both).whole
  {
    AllArrive(ops + [Send(a, true, first)] + [Send(b, false, second)]);
    OneMoreOp(ops, Send(a, true, first));
    OneMoreOp(ops + [Send(a, true, first)], Send(b, false, second));
    OneMoreOp(ops, Send(a + b, false, first));
    OneMoreOp(ops, Send(b, false, second));
    JoinAssociates(Book(ops).open, a, b);
  }

  lemma ReceivesIsStep(w: World, limit: Option<nat>, out: Message, r: RecvResult, left: seq<Piece>)
    requires Receives(w.pieces, limit, out, r, left)
    ensures AfterReceive(w, limit) ==
            match r
            case Again => w.(pieces := left)
            case TooMany => w.(pieces := left, partial := w.partial + out)
            case Received(_) => w.(pieces := left, received := w.received + [w.partial + out], partial := [])
  {
    JoinEmpty(w.partial);
  }

  /** The program's own calls, made on a real pipe, are these steps. */
  method Perform(ops: seq<Op>) returns (received: seq<Message>, partial: Message)
    ensures received == Run(ops).received && partial == Run(ops).partial
  {
    var pipe := new Pipe();
    received, partial := [], [];
    for k := 0 to |ops|
      invariant fresh(pipe)
      invariant Run(ops[..k]) == World(pipe.pieces, pipe.open, received, partial)
    {
      ghost var w := World(pipe.pieces, pipe.open, received, partial);
      match ops[k] {
        case Send(parts, more, ready) =>
          NoPieces(pipe.pieces, parts, more);
          var sent := SendMultipart(pipe, parts, more, ready);
        case SendObject(parts, ready) =>
          NoPieces(pipe.pieces, parts, false);
          var message := new Multipart(parts);
          var sent := message.Send(pipe, ready);
        case Receive(limit) =>
          var out, r := RecvMultipart(pipe, limit);
          ReceivesIsStep(w, limit, out, r, pipe.pieces);
          match r {
            case Again =>
            case TooMany => partial := partial + out;
            case Received(_) => received, partial := received + [partial + out], [];
          }
        case ReceiveObject =>
          var message := new Multipart([]);
          var ok := message.Recv(pipe);
          ReceivesIsStep(w, None, message.parts, if ok then Received(|message.parts|) else Again, pipe.pieces);
          if ok {
            received, partial := received + [partial + message.parts], [];
          }
      }
      assert World(pipe.pieces, pipe.open, received, partial) == Step(w, ops[k]);
      OneMoreOp(ops[..k], ops[k]);
      TakeOneMore(ops, k);
    }
    assert ops[..|ops|] == ops;
  }

  lemma NoPieces(ps: seq<Piece>, parts: Message, more: bool)
    ensures parts == [] ==> ps + Pieces(parts, more) == ps
  {
    if parts == [] {
      assert Pieces(parts, more) == [];
      JoinEmpty(ps);
    }
  }
}
