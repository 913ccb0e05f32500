/**
 * The process-wide static fields that several classes write: the three
 * events of AssemblyManager (a subscription list each), the static
 * `Instance` of every `Singleton<T>`, and a trace of the observable calls
 * (notifications fired, instances created, user code called).
 */
module Statics {
  import opened Reflection

  datatype EventKind = LoadEvent | UnLoadEvent | ReLoadEvent

  /**
   * A subscribed delegate: the scheduler's static `Load`/`UnLoad`, or the
   * `Load`/`UnLoad` of one singleton instance (its target object).
   */
  datatype Handler =
    | SystemLoad
    | SystemUnLoad
    | InstanceLoad(target: object)
    | InstanceUnLoad(target: object)

  predicate IsSystem(h: Handler) {
    h.SystemLoad? || h.SystemUnLoad?
  }

  datatype TraceEvent =
    | Fired(kind: EventKind, key: int)          // an event was raised with subscribers
    | Created(t: TypeDesc)                      // Activator.CreateInstance
    | LoadInvoked(inst: object, key: int)       // the instance's Load(assemblyName) via reflection
    | DisposeCalled(inst: object)               // the instance's Dispose()
    | UpdateCalled(inst: object)                // the instance's Update(elapse, realElapse)

  /** The values of the static fields at one moment. */
  datatype Snapshot = Snapshot(
    onLoad: seq<Handler>,
    onUnLoad: seq<Handler>,
    onReLoad: seq<Handler>,
    instance: map<TypeName, object?>,
    trace: seq<TraceEvent>)

  /** `Singleton<T>.Instance`: null when never set. */
  function InstanceOf(s: Snapshot, t: TypeName): object? {
    if t in s.instance then s.instance[t] else null
  }

  /** `event -= handler`: removes the last occurrence, or nothing when absent. */
  function RemoveLast(hs: seq<Handler>, h: Handler): seq<Handler>
    decreases |hs|
  {
    if hs == [] then []
    else
      assert hs == hs[..|hs| - 1] + [hs[|hs| - 1]];
      if hs[|hs| - 1] == h then hs[..|hs| - 1]
      else RemoveLast(hs[..|hs| - 1], h) + [hs[|hs| - 1]]
  }

  /** `-=` removes exactly one occurrence of `h` when there is one, and nothing otherwise. */
  lemma {:induction false} RemoveLastRemovesOne(hs: seq<Handler>, h: Handler)
    ensures multiset(RemoveLast(hs, h)) == multiset(hs) - multiset{h}
    ensures h !in hs ==> RemoveLast(hs, h) == hs
    ensures h in hs ==> |RemoveLast(hs, h)| == |hs| - 1
    decreases |hs|
  {
    if hs != [] {
      var init := hs[..|hs| - 1];
      var last := hs[|hs| - 1];
      assert hs == init + [last];
      assert multiset(hs) == multiset(init) + multiset{last};
      RemoveLastSnoc(init, last, h);
      if last != h {
        RemoveLastRemovesOne(init, h);
        assert multiset(RemoveLast(hs, h)) == multiset(RemoveLast(init, h)) + multiset{last};
      }
    }
  }

  /** A handler subscribed at most once is gone after one `-=`, so a second `-=` changes nothing. */
  lemma RemoveOnlyOccurrence(hs: seq<Handler>, h: Handler)
    requires multiset(hs)[h] <= 1
    ensures h !in RemoveLast(hs, h)
    ensures RemoveLast(RemoveLast(hs, h), h) == RemoveLast(hs, h)
  {
    RemoveLastRemovesOne(hs, h);
    var r := RemoveLast(hs, h);
    assert multiset(r)[h] == 0;
    RemoveLastRemovesOne(r, h);
  }

  /** The scheduler's own subscriptions within a list, in order. */
  function SystemHandlers(hs: seq<Handler>): seq<Handler>
    decreases |hs|
  {
    if hs == [] then []
    else
      assert hs == hs[..|hs| - 1] + [hs[|hs| - 1]];
      SystemHandlers(hs[..|hs| - 1]) + (if IsSystem(hs[|hs| - 1]) then [hs[|hs| - 1]] else [])
  }

  /** `SystemHandlers` keeps exactly the scheduler's handlers of a list. */
  lemma {:induction false} SystemHandlersFilter(hs: seq<Handler>, h: Handler)
    ensures h in SystemHandlers(hs) <==> h in hs && IsSystem(h)
    decreases |hs|
  {
    if hs != [] {
      var init := hs[..|hs| - 1];
      assert hs == init + [hs[|hs| - 1]];
      SystemHandlersFilter(init, h);
    }
  }

  /** Unsubscribing an instance's handler leaves the scheduler's subscriptions as they were. */
  lemma {:induction false} RemoveInstanceKeepsSystem(hs: seq<Handler>, h: Handler)
    requires !IsSystem(h)
    ensures SystemHandlers(RemoveLast(hs, h)) == SystemHandlers(hs)
    decreases |hs|
  {
    if hs != [] && hs[|hs| - 1] != h {
      var init := hs[..|hs| - 1];
      RemoveInstanceKeepsSystem(init, h);
      assert RemoveLast(hs, h) == RemoveLast(init, h) + [hs[|hs| - 1]];
      assert (RemoveLast(init, h) + [hs[|hs| - 1]])[..|RemoveLast(init, h)|] == RemoveLast(init, h);
    }
  }

  /** `SystemHandlers` of a list with one more handler at the end. */
  lemma SystemHandlersSnoc(hs: seq<Handler>, h: Handler)
    ensures SystemHandlers(hs + [h]) == SystemHandlers(hs) + (if IsSystem(h) then [h] else [])
  {
    assert (hs + [h])[..|hs|] == hs;
  }

  /** `RemoveLast` on a list with one more handler at the end. */
  lemma RemoveLastSnoc(hs: seq<Handler>, x: Handler, h: Handler)
    ensures RemoveLast(hs + [x], h) == if x == h then hs else RemoveLast(hs, h) + [x]
  {
    assert (hs + [x])[..|hs|] == hs;
  }

  /** Unsubscribing one of the scheduler's handlers commutes with keeping only the scheduler's handlers. */
  lemma {:induction false} RemoveSystemCommutes(hs: seq<Handler>, h: Handler)
    requires IsSystem(h)
    ensures SystemHandlers(RemoveLast(hs, h)) == RemoveLast(SystemHandlers(hs), h)
    decreases |hs|
  {
    if hs != [] {
      var init := hs[..|hs| - 1];
      var last := hs[|hs| - 1];
      assert hs == init + [last];
      RemoveSystemCommutes(init, h);
      RemoveLastSnoc(init, last, h);
      SystemHandlersSnoc(init, last);
      if last == h {
        RemoveLastSnoc(SystemHandlers(init), last, h);
        calc {
          SystemHandlers(RemoveLast(hs, h));
          SystemHandlers(init);
          RemoveLast(SystemHandlers(init) + [h], h);
          RemoveLast(SystemHandlers(hs), h);
        }
      } else {
        SystemHandlersSnoc(RemoveLast(init, h), last);
        if IsSystem(last) {
          RemoveLastSnoc(SystemHandlers(init), last, h);
          calc {
            SystemHandlers(RemoveLast(hs, h));
            SystemHandlers(RemoveLast(init, h) + [last]);
            SystemHandlers(RemoveLast(init, h)) + [last];
            RemoveLast(SystemHandlers(init), h) + [last];
            RemoveLast(SystemHandlers(init) + [last], h);
            RemoveLast(SystemHandlers(hs), h);
          }
        } else {
          calc {
            SystemHandlers(RemoveLast(hs, h));
            SystemHandlers(RemoveLast(init, h) + [last]);
            SystemHandlers(RemoveLast(init, h));
            RemoveLast(SystemHandlers(init), h);
            { assert SystemHandlers(hs) == SystemHandlers(init) + [] == SystemHandlers(init); }
            RemoveLast(SystemHandlers(hs), h);
          }
        }
      }
    }
  }

  /** Subscribing then unsubscribing the same handler restores the list (delegate `+=` then `-=`). */
  lemma SubscribeUnsubscribe(hs: seq<Handler>, h: Handler, later: seq<Handler>)
    requires h !in later
    ensures RemoveLast(hs + [h] + later, h) == hs + later
    decreases |later|
  {
    if later != [] {
      var init := later[..|later| - 1];
      var last := later[|later| - 1];
      assert hs + [h] + later == (hs + [h] + init) + [last];
      assert hs + later == (hs + init) + [last];
      SubscribeUnsubscribe(hs, h, init);
    }
  }

  class StaticFields {
    /** `AssemblyManager.OnLoadAssemblyEvent`. */
    var OnLoadAssemblyEvent: seq<Handler>
    /** `AssemblyManager.OnUnLoadAssemblyEvent`. */
    var OnUnLoadAssemblyEvent: seq<Handler>
    /** `AssemblyManager.OnReLoadAssemblyEvent`. */
    var OnReLoadAssemblyEvent: seq<Handler>
    /** `Singleton<T>.Instance`, one slot per `T`. */
    var Instance: map<TypeName, object?>
    /** The observable calls so far. */
    var trace: seq<TraceEvent>

    constructor ()
      ensures Snap() == Snapshot([], [], [], map[], [])
    {
      OnLoadAssemblyEvent := [];
      OnUnLoadAssemblyEvent := [];
      OnReLoadAssemblyEvent := [];
      Instance := map[];
      trace := [];
    }

    function Snap(): Snapshot
      reads this
    {
      Snapshot(OnLoadAssemblyEvent, OnUnLoadAssemblyEvent, OnReLoadAssemblyEvent, Instance, trace)
    }

    /** Appends one entry to the trace. */
    method Record(e: TraceEvent)
      modifies this
      ensures Snap() == old(Snap()).(trace := old(trace) + [e])
    {
      trace := trace + [e];
    }
  }
}
