/** The active poller's own fields and methods, proved to be the state machine of PollerModel. */
module ActivePollers {
  import opened Types
  import opened Seqs
  import opened PollerModel

  lemma UndoInsert<K, V>(m: map<K, V>, k: K, v: V)
    ensures k !in m ==> m[k := v] - {k} == m
  {
  }

  ghost predicate NoRepeats(list: seq<Address>) {
    forall j, k :: 0 <= j < k < |list| ==> list[j] != list[k]
  }

  ghost function Members(list: seq<Address>): set<Address> {
    set p | p in list
  }

  class ActivePoller {
    var needRebuild: bool
    var base: map<Ref, Registration>
    var handlers: map<Ref, Address>
    var pollerEvents: seq<Event>
    var pollerHandlers: seq<Address>
    /** The handler objects that exist, by address. */
    var heap: map<Address, Callback>

    ghost function View(): State
      reads this
    {
      State(needRebuild, base, handlers, |pollerEvents|, Members(pollerHandlers), heap)
    }

    /** The machine's invariant; and the snapshot lists no handler twice. */
    ghost predicate Valid()
      reads this
    {
      && Inv(View())
      && NoRepeats(pollerHandlers)
    }

    constructor ()
      ensures Valid() && View() == EMPTY
    {
      needRebuild, base, handlers, pollerEvents, pollerHandlers, heap := false, map[], map[], [], [], map[];
      new;
      EmptyIsGood();
      assert View() == EMPTY;
    }

    method Add(ref: Ref, flags: Flags, callback: Option<Callback>, at: Address, refused: bool) returns (thrown: bool)
      requires Valid() && at !in heap
      modifies `needRebuild, `base, `handlers, `heap
      ensures Valid()
      ensures (View(), thrown) == Apply(old(View()), Call.Add(ref, flags, callback, at, refused))
    {
      ghost var s := View();
      CallKeepsInv(s, Call.Add(ref, flags, callback, at, refused));
      if callback.None? {
        return true;
      }
      UndoInsert(heap, at, callback.value);
      UndoInsert(handlers, ref, at);
      heap := heap[at := callback.value];
      if ref in handlers {
        heap := heap - {at};
        assert View() == s;
        return true;
      }
      handlers := handlers[ref := at];
      if refused || ref in base {
        handlers := handlers - {ref};
        heap := heap - {at};
        assert View() == s;
        return true;
      }
      base := base[ref := Registration(flags, at)];
      needRebuild := true;
      assert View() == Apply(s, Call.Add(ref, flags, callback, at, refused)).0;
      return false;
    }

    method Remove(ref: Ref) returns (thrown: bool)
      requires Valid()
      modifies `needRebuild, `base, `handlers, `heap
      ensures Valid()
      ensures (View(), thrown) == Apply(old(View()), Call.Remove(ref))
    {
      CallKeepsInv(View(), Call.Remove(ref));
      if ref !in base {
        return true;
      }
      base := base - {ref};
      handlers := handlers - {ref};
      needRebuild := true;
      Release();
      return false;
    }

    method Modify(ref: Ref, flags: Flags) returns (thrown: bool)
      requires Valid()
      modifies `base
      ensures Valid()
      ensures (View(), thrown) == Apply(old(View()), Call.Modify(ref, flags))
    {
      CallKeepsInv(View(), Call.Modify(ref, flags));
      if ref !in base {
        return true;
      }
      base := base[ref := base[ref].(flags := flags)];
      return false;
    }

    /** The last owner of a shared handler frees it. */
    method Release()
      modifies `heap
      ensures View() == Collect(old(View()))
    {
      heap := map p | p in heap && (Holds(handlers, p) || p in pollerHandlers) :: heap[p];
    }

    /** The handlers in the map, in the order the map is walked. */
    static method ListHandlers(handlers: map<Ref, Address>) returns (list: seq<Address>)
      requires Injective(handlers)
      ensures NoRepeats(list) && Members(list) == handlers.Values && |list| == |handlers|
    {
      list := [];
      var rest := handlers.Keys;
      while rest != {}
        invariant rest <= handlers.Keys && |list| == |handlers.Keys| - |rest|
        invariant forall p :: p in list <==> exists r :: r in handlers && r !in rest && handlers[r] == p
        invariant NoRepeats(list)
        decreases |rest|
      {
        var r :| r in rest;
        assert handlers[r] !in list;
        list := list + [handlers[r]];
        rest := rest - {r};
      }
    }

    /** Takes the snapshot anew: one entry for each handler, and a slot for its event. */
    method TakeSnapshot()
      requires Valid() && needRebuild
      modifies `needRebuild, `pollerEvents, `pollerHandlers, `heap
      ensures Valid() && View() == Rebuild(old(View()))
      ensures |pollerHandlers| == |pollerEvents| == |handlers|
    {
      RebuildKeepsInv(View());
      pollerEvents := Resized(pollerEvents, |handlers|);
      pollerHandlers := ListHandlers(handlers);
      needRebuild := false;
      Release();
    }

    static function Resized(events: seq<Event>, n: nat): (r: seq<Event>)
      ensures |r| == n
    {
      if n <= |events| then events[..n] else events + seq(n - |events|, _ => Event(0, 0))
    }

    method Do(call: Call) returns (thrown: bool)
      requires Valid() && FreshAddress(View(), call)
      modifies `needRebuild, `base, `handlers, `heap
      ensures Valid() && (View(), thrown) == Apply(old(View()), call)
    {
      match call {
        case Add(ref, flags, callback, at, refused) => thrown := Add(ref, flags, callback, at, refused);
        case Remove(ref) => thrown := Remove(ref);
        case Modify(ref, flags) => thrown := Modify(ref, flags);
      }
    }

    /** What a handler does while it runs; it catches what its own calls throw. */
    method RunScript(calls: seq<Call>)
      requires Valid() && FreshAddresses(View(), calls)
      modifies `needRebuild, `base, `handlers, `heap
      ensures Valid() && View() == ApplyAll(old(View()), calls)
    {
      var k := 0;
      assert calls[0..] == calls;
      while k < |calls|
        invariant k <= |calls| && Valid() && FreshAddresses(View(), calls[k..])
        invariant ApplyAll(View(), calls[k..]) == ApplyAll(old(View()), calls)
      {
        assert calls[k..][0] == calls[k] && calls[k..][1..] == calls[k + 1..];
        var thrown := Do(calls[k]);
        k := k + 1;
      }
    }

    /** Polls, then calls the handler of every event, each of which may change the poller. */
    method Wait(ready: seq<Ready>, scripts: seq<Script>) returns (calls: seq<Invocation>)
      requires Valid() && Allowed(View(), Op.Wait(ready, scripts))
      modifies this
      ensures Valid()
      ensures (View(), calls) == WaitStep(old(View()), ready, scripts)
    {
      ghost var start := View();
      ReadyFits(start, ready);
      EventsMatch(start, ready);
      RebuildKeepsInv(start);
      if needRebuild {
        TakeSnapshot();
      }
      FillEvents(ready);
      calls := DispatchEvents(|ready|, scripts, Expected(Table(start), ready));
    }

    /** The library writes the events of what is ready to the front of the buffer. */
    method FillEvents(ready: seq<Ready>)
      requires |ready| <= |pollerEvents|
      requires forall k :: 0 <= k < |ready| ==> ready[k].ref in base
      modifies `pollerEvents
      ensures |pollerEvents| == old(|pollerEvents|)
      ensures pollerEvents[..|ready|] == Events(View(), ready)
    {
      var registered := base;
      var found := seq(|ready|, k requires 0 <= k < |ready| && ready[k].ref in registered =>
        Event(ready[k].flags, registered[ready[k].ref].user));
      pollerEvents := found + pollerEvents[|ready|..];
      assert pollerEvents[..|ready|] == found;
    }

    /** Calls the handlers of the first `count` events. No address it follows has been freed. */
    method DispatchEvents(count: nat, scripts: seq<Script>, ghost expected: seq<Invocation>)
      returns (calls: seq<Invocation>)
      requires Valid() && count <= |pollerEvents| && |scripts| == count
      requires Matches(View(), pollerEvents[..count], expected) && FreshScripts(View(), scripts)
      modifies `needRebuild, `base, `handlers, `heap
      ensures Valid()
      ensures (View(), calls) == Dispatch(old(View()), pollerEvents[..count], scripts)
    {
      ghost var events := pollerEvents[..count];
      ghost var todo := expected;
      calls := [];
      var k := 0;
      assert events[0..] == events && scripts[0..] == scripts;
      JoinEmpty(Dispatch(View(), events, scripts).1);
      while k < count
        invariant k <= count && Valid()
        invariant Matches(View(), events[k..], todo) && FreshScripts(View(), scripts[k..])
        invariant var rest := Dispatch(View(), events[k..], scripts[k..]);
                  Dispatch(old(View()), events, scripts) == (rest.0, calls + rest.1)
      {
        var event := pollerEvents[k];
        assert events[k..][0] == event && scripts[k..][0] == scripts[k];
        assert events[k..][1..] == events[k + 1..] && scripts[k..][1..] == scripts[k + 1..];
        ghost var before := View();
        assert event.user in heap;
        var call := Invocation(Some(heap[event.user]), event.flags);
        CallsRefine(before, scripts[k].calls);
        RunScript(scripts[k].calls);
        TailMatches(before, View(), events[k..], todo);
        ghost var rest := Dispatch(View(), events[k + 1..], scripts[k + 1..]).1;
        JoinAssociates(calls, [call], rest);
        calls := calls + [call];
        if scripts[k].throws {
          return;
        }
        todo := todo[1..];
        k := k + 1;
      }
      JoinEmpty(calls);
    }
  }
}
