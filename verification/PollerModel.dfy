/**
 The active poller as a state machine. Handlers live on a heap at addresses that the poller shares
 with the polling library; an address is given back as soon as neither the handler map nor the
 snapshot owns it, and may then be handed out again.
 */
module PollerModel {
  import opened Types

  type Address = nat
  type Callback = nat
  type Flags = nat

  /** A socket or a plain file descriptor. */
  datatype Ref = Socket(handle: nat) | Descriptor(fd: int)

  datatype Registration = Registration(flags: Flags, user: Address)

  datatype State = State(
    needRebuild: bool,
    base: map<Ref, Registration>,
    handlers: map<Ref, Address>,
    slots: nat,
    snapshot: set<Address>,
    heap: map<Address, Callback>)

  const EMPTY := State(false, map[], map[], 0, {}, map[])

  /** `at` is where the allocator puts a new handler; `refused` is the library's verdict on it. */
  datatype Call =
    | Add(ref: Ref, flags: Flags, callback: Option<Callback>, at: Address, refused: bool)
    | Remove(ref: Ref)
    | Modify(ref: Ref, flags: Flags)

  /** Some reference's handler is at p. */
  predicate Holds(handlers: map<Ref, Address>, p: Address) {
    p in handlers.Values
  }

  /** Frees what nothing owns. */
  function Collect(s: State): State {
    s.(heap := map p | p in s.heap && (Holds(s.handlers, p) || p in s.snapshot) :: s.heap[p])
  }

  /** The new state, and whether the call threw. */
  function Apply(s: State, call: Call): (State, bool) {
    match call
    case Add(ref, flags, callback, at, refused) =>
      if callback.None? || ref in s.handlers || refused || ref in s.base then (s, true)
      else (s.(needRebuild := true,
               base := s.base[ref := Registration(flags, at)],
               handlers := s.handlers[ref := at],
               heap := s.heap[at := callback.value]), false)
    case Remove(ref) =>
      if ref !in s.base then (s, true)
      else (Collect(s.(needRebuild := true, base := s.base - {ref}, handlers := s.handlers - {ref})), false)
    case Modify(ref, flags) =>
      if ref !in s.base then (s, true)
      else (s.(base := s.base[ref := s.base[ref].(flags := flags)]), false)
  }

  /** What a wait does before it polls. */
  function Rebuild(s: State): State {
    if s.needRebuild
    then Collect(s.(needRebuild := false, slots := |s.handlers|, snapshot := s.handlers.Values))
    else s
  }

  datatype Event = Event(flags: Flags, user: Address)

  datatype Ready = Ready(ref: Ref, flags: Flags)

  /** The library reports the user data it was given for each ready reference. */
  function Events(s: State, ready: seq<Ready>): (events: seq<Event>)
    requires forall k :: 0 <= k < |ready| ==> ready[k].ref in s.base
    ensures |events| == |ready|
  {
    seq(|ready|, k requires 0 <= k < |ready| => Event(ready[k].flags, s.base[ready[k].ref].user))
  }

  /** What a handler does to the poller while it runs; it may end by throwing. */
  datatype Script = Script(calls: seq<Call>, throws: bool)

  function ApplyAll(s: State, calls: seq<Call>): State
    decreases |calls|
  {
    if calls == [] then s else ApplyAll(Apply(s, calls[0]).0, calls[1..])
  }

  /** A handler as it was called; no callback if its address had been freed. */
  datatype Invocation = Invocation(callback: Option<Callback>, flags: Flags)

  function Invoke(s: State, e: Event): Invocation {
    Invocation(if e.user in s.heap then Some(s.heap[e.user]) else None, e.flags)
  }

  /** Calls the handlers of the events in turn, each followed by its script, until one throws. */
  function Dispatch(s: State, events: seq<Event>, scripts: seq<Script>): (State, seq<Invocation>)
    requires |scripts| == |events|
    decreases |events|
  {
    if events == [] then (s, [])
    else
      var call := Invoke(s, events[0]);
      var s' := ApplyAll(s, scripts[0].calls);
      if scripts[0].throws then (s', [call])
      else
        var (s'', calls) := Dispatch(s', events[1..], scripts[1..]);
        (s'', [call] + calls)
  }

  ghost predicate Distinct(ready: seq<Ready>) {
    forall j, k :: 0 <= j < k < |ready| ==> ready[j].ref != ready[k].ref
  }

  /** A call of the program, or a wait that finds `ready` (nothing at all if polling throws). */
  datatype Op = Do(call: Call) | Wait(ready: seq<Ready>, scripts: seq<Script>)

  // What callers and the library see to

  ghost predicate FreshAddress(s: State, call: Call) {
    call.Add? ==> call.at !in s.heap
  }

  ghost predicate FreshAddresses(s: State, calls: seq<Call>)
    decreases |calls|
  {
    calls == [] || (FreshAddress(s, calls[0]) && FreshAddresses(Apply(s, calls[0]).0, calls[1..]))
  }

  ghost predicate FreshScripts(s: State, scripts: seq<Script>)
    decreases |scripts|
  {
    scripts == [] ||
    (FreshAddresses(s, scripts[0].calls) && FreshScripts(ApplyAll(s, scripts[0].calls), scripts[1..]))
  }

  /** New handlers get unused addresses, and the library reports registered references once each. */
  ghost predicate Allowed(s: State, op: Op) {
    match op
    case Do(call) => FreshAddress(s, call)
    case Wait(ready, scripts) =>
      && |scripts| == |ready| && Distinct(ready)
      && (forall k :: 0 <= k < |ready| ==> ready[k].ref in s.base)
      && FreshScripts(Rebuild(s), scripts)
  }

  function WaitStep(s: State, ready: seq<Ready>, scripts: seq<Script>): (State, seq<Invocation>)
    requires |scripts| == |ready|
    requires forall k :: 0 <= k < |ready| ==> ready[k].ref in s.base
  {
    Dispatch(Rebuild(s), Events(Rebuild(s), ready), scripts)
  }

  // The invariant

  /** The library has each handler's own registration, with the handler as user data. */
  ghost predicate Registered(base: map<Ref, Registration>, handlers: map<Ref, Address>) {
    && (forall r :: r in base <==> r in handlers)
    && (forall r :: r in handlers ==> base[r].user == handlers[r])
  }

  /** No two references share a handler. */
  ghost predicate Injective(m: map<Ref, Address>) {
    forall a, b :: a in m && b in m && m[a] == m[b] ==> a == b
  }

  /** On the heap is exactly what the map or the snapshot owns. */
  ghost predicate Owned(handlers: map<Ref, Address>, snapshot: set<Address>, heap: map<Address, Callback>) {
    forall p :: p in heap <==> Holds(handlers, p) || p in snapshot
  }

  ghost predicate Current(s: State) {
    && (forall p :: p in s.snapshot <==> Holds(s.handlers, p))
    && s.slots == |s.handlers|
  }

  ghost predicate Inv(s: State) {
    && Registered(s.base, s.handlers)
    && Injective(s.handlers)
    && Owned(s.handlers, s.snapshot, s.heap)
    && (!s.needRebuild ==> Current(s))
  }

  /** Nothing that handlers do to the poller frees or replaces what the snapshot owns. */
  ghost predicate SnapshotKept(s: State, s': State) {
    && s'.snapshot == s.snapshot && s'.slots == s.slots
    && forall p :: p in s.snapshot && p in s.heap ==> p in s'.heap && s'.heap[p] == s.heap[p]
  }

  // The reference: a table of callbacks

  datatype Entry = Entry(flags: Flags, callback: Callback)

  type Registry = map<Ref, Entry>

  function Register(reg: Registry, call: Call): (Registry, bool) {
    match call
    case Add(ref, flags, callback, _, refused) =>
      if callback.None? || ref in reg || refused then (reg, true)
      else (reg[ref := Entry(flags, callback.value)], false)
    case Remove(ref) =>
      if ref !in reg then (reg, true) else (reg - {ref}, false)
    case Modify(ref, flags) =>
      if ref !in reg then (reg, true) else (reg[ref := reg[ref].(flags := flags)], false)
  }

  function RegisterAll(reg: Registry, calls: seq<Call>): Registry
    decreases |calls|
  {
    if calls == [] then reg else RegisterAll(Register(reg, calls[0]).0, calls[1..])
  }

  /** The scripts that run: those up to the first that throws. */
  function RegisterScripts(reg: Registry, scripts: seq<Script>): Registry
    decreases |scripts|
  {
    if scripts == [] then reg
    else
      var reg' := RegisterAll(reg, scripts[0].calls);
      if scripts[0].throws then reg' else RegisterScripts(reg', scripts[1..])
  }

  function HandlersRun(scripts: seq<Script>): (n: nat)
    ensures n <= |scripts|
  {
    if scripts == [] then 0 else if scripts[0].throws then 1 else 1 + HandlersRun(scripts[1..])
  }

  /** Every ready reference calls the callback registered for it when the wait began. */
  ghost function Expected(reg: Registry, ready: seq<Ready>): (calls: seq<Invocation>)
    requires forall k :: 0 <= k < |ready| ==> ready[k].ref in reg
    ensures |calls| == |ready|
  {
    seq(|ready|, k requires 0 <= k < |ready| => Invocation(Some(reg[ready[k].ref].callback), ready[k].flags))
  }

  ghost function Table(s: State): Registry
    requires Inv(s)
  {
    map r | r in s.handlers :: HandlerIsLive(s, r); Entry(s.base[r].flags, s.heap[s.handlers[r]])
  }

  lemma HandlerIsLive(s: State, r: Ref)
    requires Inv(s) && r in s.handlers
    ensures Holds(s.handlers, s.handlers[r]) && s.handlers[r] in s.heap
  {
    assert s.handlers[r] in s.handlers.Values;
  }

  // One call

  lemma HoldsAfterAdd(m: map<Ref, Address>, ref: Ref, at: Address)
    requires ref !in m
    ensures forall p :: Holds(m[ref := at], p) <==> p == at || Holds(m, p)
  {
    var m' := m[ref := at];
    forall p
      ensures Holds(m', p) <==> p == at || Holds(m, p)
    {
      if Holds(m, p) {
        var r :| r in m && m[r] == p;
        assert m'[r] == p;
      }
      assert m'[ref] == at;
    }
  }

  lemma HoldsAfterRemove(m: map<Ref, Address>, ref: Ref)
    requires Injective(m) && ref in m
    ensures forall p :: Holds(m - {ref}, p) <==> p != m[ref] && Holds(m, p)
  {
    var m' := m - {ref};
    forall p
      ensures Holds(m', p) <==> p != m[ref] && Holds(m, p)
    {
      if Holds(m, p) && p != m[ref] {
        var r :| r in m && m[r] == p;
        assert m'[r] == p;
      }
    }
  }

  lemma CollectOwns(s: State)
    requires forall p :: Holds(s.handlers, p) || p in s.snapshot ==> p in s.heap
    ensures var c := Collect(s);
            && Owned(c.handlers, c.snapshot, c.heap)
            && forall p :: p in c.heap ==> c.heap[p] == s.heap[p]
  {
  }

  lemma AddKeepsInv(s: State, call: Call)
    requires Inv(s) && call.Add? && FreshAddress(s, call) && !Apply(s, call).1
    ensures Inv(Apply(s, call).0)
  {
    var s' := Apply(s, call).0;
    HoldsAfterAdd(s.handlers, call.ref, call.at);
    assert Owned(s'.handlers, s'.snapshot, s'.heap);
    forall a, b | a in s'.handlers && b in s'.handlers && s'.handlers[a] == s'.handlers[b]
      ensures a == b
    {
      if a in s.handlers {
        HandlerIsLive(s, a);
      }
      if b in s.handlers {
        HandlerIsLive(s, b);
      }
    }
  }

  lemma AddKeeps(s: State, call: Call)
    requires Inv(s) && call.Add? && FreshAddress(s, call) && !Apply(s, call).1
    ensures var s' := Apply(s, call).0;
            Inv(s') && SnapshotKept(s, s') && Table(s') == Register(Table(s), call).0
  {
    var s' := Apply(s, call).0;
    AddKeepsInv(s, call);
    forall r | r in s.handlers
      ensures s.handlers[r] in s.heap && s'.heap[s.handlers[r]] == s.heap[s.handlers[r]]
    {
      HandlerIsLive(s, r);
    }
  }

  lemma TablesAgree(s: State, s': State)
    requires Inv(s) && Inv(s')
    requires forall r :: r in s'.handlers ==>
               && r in s.handlers && s'.base[r].flags == s.base[r].flags
               && s'.handlers[r] in s'.heap && s.handlers[r] in s.heap
               && s'.heap[s'.handlers[r]] == s.heap[s.handlers[r]]
    ensures forall r :: r in Table(s') ==> r in Table(s) && Table(s')[r] == Table(s)[r]
  {
  }

  lemma RemoveKeepsInv(s: State, call: Call)
    requires Inv(s) && call.Remove? && !Apply(s, call).1
    ensures Inv(Apply(s, call).0) && SnapshotKept(s, Apply(s, call).0)
    ensures forall p :: p in Apply(s, call).0.heap ==> p in s.heap && Apply(s, call).0.heap[p] == s.heap[p]
  {
    var t := s.(needRebuild := true, base := s.base - {call.ref}, handlers := s.handlers - {call.ref});
    HoldsAfterRemove(s.handlers, call.ref);
    CollectOwns(t);
    assert Apply(s, call).0 == Collect(t);
  }

  lemma RemoveKeeps(s: State, call: Call)
    requires Inv(s) && call.Remove? && !Apply(s, call).1
    ensures var s' := Apply(s, call).0;
            Inv(s') && SnapshotKept(s, s') && Table(s') == Register(Table(s), call).0
  {
    RemoveKeepsInv(s, call);
    var s' := Apply(s, call).0;
    forall r | r in s'.handlers
      ensures s'.handlers[r] in s'.heap && s'.heap[s'.handlers[r]] == s.heap[s.handlers[r]]
    {
      HandlerIsLive(s', r);
    }
    TablesAgree(s, s');
    assert Table(s') == Table(s) - {call.ref};
  }

  lemma ModifyKeeps(s: State, call: Call)
    requires Inv(s) && call.Modify? && !Apply(s, call).1
    ensures var s' := Apply(s, call).0;
            Inv(s') && SnapshotKept(s, s') && Table(s') == Register(Table(s), call).0
  {
    var s' := Apply(s, call).0;
    assert Inv(s');
    forall r | r in s.handlers
      ensures s.handlers[r] in s.heap
    {
      HandlerIsLive(s, r);
    }
  }

  /** Every call keeps the invariant and acts on the table; a call that throws changes nothing. */
  lemma CallRefines(s: State, call: Call)
    requires Inv(s) && FreshAddress(s, call)
    ensures var (s', thrown) := Apply(s, call);
            && Inv(s') && SnapshotKept(s, s')
            && (Table(s'), thrown) == Register(Table(s), call)
            && (thrown ==> s' == s)
  {
    if !Apply(s, call).1 {
      match call
      case Add(_, _, _, _, _) => AddKeeps(s, call);
      case Remove(_) => RemoveKeeps(s, call);
      case Modify(_, _) => ModifyKeeps(s, call);
    }
  }

  lemma CallKeepsTable(s: State, call: Call)
    requires Inv(s) && FreshAddress(s, call)
    ensures Inv(Apply(s, call).0) && Table(Apply(s, call).0) == Register(Table(s), call).0
  {
    CallRefines(s, call);
  }

  lemma CallKeepsInv(s: State, call: Call)
    requires Inv(s) && FreshAddress(s, call)
    ensures Inv(Apply(s, call).0)
  {
    CallRefines(s, call);
  }

  lemma {:induction false} CallsRefine(s: State, calls: seq<Call>)
    requires Inv(s) && FreshAddresses(s, calls)
    ensures var s' := ApplyAll(s, calls);
            Inv(s') && SnapshotKept(s, s') && Table(s') == RegisterAll(Table(s), calls)
    decreases |calls|
  {
    if calls == [] {
    } else {
      CallRefines(s, calls[0]);
      CallsRefine(Apply(s, calls[0]).0, calls[1..]);
    }
  }

  // One wait

  lemma RebuildKeeps(s: State)
    requires Inv(s)
    ensures var s' := Rebuild(s);
            && Inv(s') && !s'.needRebuild && s'.base == s.base && s'.handlers == s.handlers
            && Table(s') == Table(s)
  {
    if s.needRebuild {
      var t := s.(needRebuild := false, slots := |s.handlers|, snapshot := s.handlers.Values);
      CollectOwns(t);
      var s' := Rebuild(s);
      assert Inv(s');
      forall r | r in s.handlers
        ensures s.handlers[r] in s.heap && s'.heap[s.handlers[r]] == s.heap[s.handlers[r]]
      {
        HandlerIsLive(s, r);
        HandlerIsLive(s', r);
      }
    }
  }

  lemma RebuildKeepsInv(s: State)
    requires Inv(s)
    ensures Inv(Rebuild(s))
  {
    RebuildKeeps(s);
  }

  lemma StillInvoked(s: State, s': State, e: Event)
    requires Inv(s) && SnapshotKept(s, s') && e.user in s.snapshot
    ensures Invoke(s', e) == Invoke(s, e)
  {
    assert e.user in s.heap;
  }

  /** Every event's address is owned by the snapshot, and calls the expected callback. */
  ghost predicate Matches(s: State, events: seq<Event>, expected: seq<Invocation>) {
    && |events| == |expected|
    && forall k :: 0 <= k < |events| ==> events[k].user in s.snapshot && Invoke(s, events[k]) == expected[k]
  }

  lemma TailMatches(s: State, s': State, events: seq<Event>, expected: seq<Invocation>)
    requires Inv(s) && SnapshotKept(s, s') && events != [] && Matches(s, events, expected)
    ensures Matches(s', events[1..], expected[1..])
  {
    forall k | 0 <= k < |events[1..]|
      ensures events[1..][k].user in s'.snapshot && Invoke(s', events[1..][k]) == expected[1..][k]
    {
      assert events[1..][k] == events[k + 1] && expected[1..][k] == expected[k + 1];
      StillInvoked(s, s', events[k + 1]);
    }
  }

  lemma TakeWithFirst(expected: seq<Invocation>, n: nat)
    requires n < |expected|
    ensures [expected[0]] + expected[1..][..n] == expected[..n + 1]
  {
  }

  /** Dispatching goes as the table says: state, table and calls. */
  ghost predicate DispatchAgrees(s: State, events: seq<Event>, scripts: seq<Script>, expected: seq<Invocation>)
    requires Inv(s) && |scripts| == |events| == |expected|
  {
    var (s', calls) := Dispatch(s, events, scripts);
    && Inv(s') && Table(s') == RegisterScripts(Table(s), scripts)
    && calls == expected[..HandlersRun(scripts)]
  }

  /** The first handler, when it throws. */
  lemma ThrowAgrees(s: State, events: seq<Event>, scripts: seq<Script>, expected: seq<Invocation>)
    requires Inv(s) && Matches(s, events, expected) && |scripts| == |events| > 0 && FreshScripts(s, scripts)
    requires scripts[0].throws
    ensures DispatchAgrees(s, events, scripts, expected)
  {
    CallsRefine(s, scripts[0].calls);
    TakeWithFirst(expected, 0);
  }

  /** The first handler, when the others come after it. */
  lemma FirstAgrees(s: State, events: seq<Event>, scripts: seq<Script>, expected: seq<Invocation>)
    requires Inv(s) && Matches(s, events, expected) && |scripts| == |events| > 0 && FreshScripts(s, scripts)
    requires !scripts[0].throws
    requires var s1 := ApplyAll(s, scripts[0].calls);
             Inv(s1) && Table(s1) == RegisterAll(Table(s), scripts[0].calls)
             && DispatchAgrees(s1, events[1..], scripts[1..], expected[1..])
    ensures DispatchAgrees(s, events, scripts, expected)
  {
    TakeWithFirst(expected, HandlersRun(scripts[1..]));
  }

  /** While the handlers run, every event's address stays owned by the snapshot. */
  lemma {:induction false} DispatchRefines(
    s: State, events: seq<Event>, scripts: seq<Script>, expected: seq<Invocation>)
    requires Inv(s) && Matches(s, events, expected) && |scripts| == |events| && FreshScripts(s, scripts)
    ensures DispatchAgrees(s, events, scripts, expected)
    decreases |events|
  {
    if events == [] {
    } else if scripts[0].throws {
      ThrowAgrees(s, events, scripts, expected);
    } else {
      var s1 := ApplyAll(s, scripts[0].calls);
      CallsRefine(s, scripts[0].calls);
      TailMatches(s, s1, events, expected);
      DispatchRefines(s1, events[1..], scripts[1..], expected[1..]);
      FirstAgrees(s, events, scripts, expected);
    }
  }

  lemma EventsMatch(s: State, ready: seq<Ready>)
    requires Inv(s)
    requires forall k :: 0 <= k < |ready| ==> ready[k].ref in s.base
    ensures forall k :: 0 <= k < |ready| ==> ready[k].ref in Table(s) && ready[k].ref in Rebuild(s).base
    ensures Matches(Rebuild(s), Events(Rebuild(s), ready), Expected(Table(s), ready))
  {
    RebuildKeeps(s);
    var t := Rebuild(s);
    var events := Events(t, ready);
    forall k | 0 <= k < |events|
      ensures events[k].user in t.snapshot && Invoke(t, events[k]) == Expected(Table(s), ready)[k]
    {
      HandlerIsLive(t, ready[k].ref);
    }
  }

  ghost function Refs(ready: seq<Ready>): set<Ref> {
    set k | 0 <= k < |ready| :: ready[k].ref
  }

  lemma {:induction false} DistinctSize(ready: seq<Ready>)
    requires Distinct(ready)
    ensures |Refs(ready)| == |ready|
    decreases |ready|
  {
    if ready != [] {
      var n := |ready| - 1;
      DistinctSize(ready[..n]);
      assert Refs(ready) == Refs(ready[..n]) + {ready[n].ref};
      assert ready[n].ref !in Refs(ready[..n]);
    } else {
      assert Refs(ready) == {};
    }
  }

  lemma DistinctFits(ready: seq<Ready>, refs: set<Ref>)
    requires Distinct(ready) && forall k :: 0 <= k < |ready| ==> ready[k].ref in refs
    ensures |ready| <= |refs|
  {
    DistinctSize(ready);
    assert refs == Refs(ready) + (refs - Refs(ready));
  }

  /** The event buffer has room for whatever is ready. */
  lemma ReadyFits(s: State, ready: seq<Ready>)
    requires Inv(s) && Distinct(ready)
    requires forall k :: 0 <= k < |ready| ==> ready[k].ref in s.base
    ensures |ready| <= Rebuild(s).slots
  {
    RebuildKeeps(s);
    DistinctFits(ready, s.handlers.Keys);
  }

  /**
   A wait calls, in order and up to the first that throws, the callbacks registered for the ready
   references when it began, none of them freed meanwhile, whatever the handlers add or remove.
   */
  lemma WaitRefines(s: State, ready: seq<Ready>, scripts: seq<Script>)
    requires Inv(s) && Allowed(s, Wait(ready, scripts))
    ensures var (s', calls) := WaitStep(s, ready, scripts);
            && Inv(s')
            && Table(s') == RegisterScripts(Table(s), scripts)
            && calls == Expected(Table(s), ready)[..HandlersRun(scripts)]
  {
    RebuildKeeps(s);
    EventsMatch(s, ready);
    DispatchRefines(Rebuild(s), Events(Rebuild(s), ready), scripts, Expected(Table(s), ready));
  }

  // Whole runs

  ghost predicate AllowedRun(s: State, ops: seq<Op>)
    decreases |ops|
  {
    ops == [] || (Allowed(s, ops[0]) && AllowedRun(Next(s, ops[0]), ops[1..]))
  }

  ghost function Next(s: State, op: Op): State
    requires Allowed(s, op)
  {
    match op
    case Do(call) => Apply(s, call).0
    case Wait(ready, scripts) => WaitStep(s, ready, scripts).0
  }

  ghost function Called(s: State, op: Op): seq<Invocation>
    requires Allowed(s, op)
  {
    match op
    case Do(_) => []
    case Wait(ready, scripts) => WaitStep(s, ready, scripts).1
  }

  ghost function Invoked(s: State, ops: seq<Op>): seq<Invocation>
    requires AllowedRun(s, ops)
    decreases |ops|
  {
    if ops == [] then [] else Called(s, ops[0]) + Invoked(Next(s, ops[0]), ops[1..])
  }

  ghost function Final(s: State, ops: seq<Op>): State
    requires AllowedRun(s, ops)
    decreases |ops|
  {
    if ops == [] then s else Final(Next(s, ops[0]), ops[1..])
  }

  // The same of the table

  ghost function NextTable(reg: Registry, op: Op): Registry {
    match op
    case Do(call) => Register(reg, call).0
    case Wait(_, scripts) => RegisterScripts(reg, scripts)
  }

  ghost function FinalTable(reg: Registry, ops: seq<Op>): Registry
    decreases |ops|
  {
    if ops == [] then reg else FinalTable(NextTable(reg, ops[0]), ops[1..])
  }

  /** What a wait has ready is registered. */
  ghost predicate Answerable(reg: Registry, op: Op) {
    op.Wait? ==>
      |op.scripts| == |op.ready| && forall k :: 0 <= k < |op.ready| ==> op.ready[k].ref in reg
  }

  ghost function ExpectedCalls(reg: Registry, op: Op): seq<Invocation>
    requires Answerable(reg, op)
  {
    match op
    case Do(_) => []
    case Wait(ready, scripts) => Expected(reg, ready)[..HandlersRun(scripts)]
  }

  ghost predicate AnswerableRun(reg: Registry, ops: seq<Op>)
    decreases |ops|
  {
    ops == [] || (Answerable(reg, ops[0]) && AnswerableRun(NextTable(reg, ops[0]), ops[1..]))
  }

  ghost function ExpectedRun(reg: Registry, ops: seq<Op>): seq<Invocation>
    requires AnswerableRun(reg, ops)
    decreases |ops|
  {
    if ops == [] then [] else ExpectedCalls(reg, ops[0]) + ExpectedRun(NextTable(reg, ops[0]), ops[1..])
  }

  /** A step of the machine is the same step of the table. */
  ghost predicate Agrees(s: State, op: Op)
    requires Inv(s) && Allowed(s, op)
  {
    && Inv(Next(s, op)) && Table(Next(s, op)) == NextTable(Table(s), op)
    && Answerable(Table(s), op) && Called(s, op) == ExpectedCalls(Table(s), op)
  }

  lemma DoAgrees(s: State, call: Call)
    requires Inv(s) && Allowed(s, Do(call))
    ensures Agrees(s, Do(call))
  {
    CallKeepsTable(s, call);
  }

  lemma WaitAgrees(s: State, ready: seq<Ready>, scripts: seq<Script>)
    requires Inv(s) && Allowed(s, Wait(ready, scripts))
    ensures Agrees(s, Wait(ready, scripts))
  {
    WaitRefines(s, ready, scripts);
    assert Answerable(Table(s), Wait(ready, scripts));
  }

  /**
   Over every run of calls and waits the poller does what the plain table of callbacks does: it
   ends in the state the table says, and calls the handlers the table says, in that order.
   */
  lemma {:induction false} RunRefines(s: State, ops: seq<Op>)
    requires Inv(s) && AllowedRun(s, ops)
    ensures Inv(Final(s, ops)) && Table(Final(s, ops)) == FinalTable(Table(s), ops)
    ensures AnswerableRun(Table(s), ops) && Invoked(s, ops) == ExpectedRun(Table(s), ops)
    decreases |ops|
  {
    if ops == [] {
    } else {
      match ops[0] {
        case Do(call) => DoAgrees(s, call);
        case Wait(ready, scripts) => WaitAgrees(s, ready, scripts);
      }
      RunRefines(Next(s, ops[0]), ops[1..]);
    }
  }

  lemma EmptyIsGood()
    ensures Inv(EMPTY) && Table(EMPTY) == map[]
  {
  }
}
