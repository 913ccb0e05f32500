/**
 * Singleton<T>: the base class of every module. An instance carries its
 * `IsDisposed` flag; registration publishes it as the static `Instance` of
 * its `T` and subscribes its own `Load`/`UnLoad` to the registry's events,
 * and `Dispose` undoes both.
 */
module Singletons {
  import opened Reflection
  import opened Statics

  /** The static fields after `x.RegisterSingleton(x)`. */
  function Registered(s: Snapshot, x: Singleton): Snapshot {
    s.(instance := s.instance[x.Type.singletonArg := x],
       onLoad := s.onLoad + [InstanceLoad(x)],
       onUnLoad := s.onUnLoad + [InstanceUnLoad(x)])
  }

  /** The static fields after `x.Dispose()`: a faulting override throws before the base `Dispose` runs. */
  function Disposed(s: Snapshot, x: Singleton): Snapshot {
    var called := s.(trace := s.trace + [DisposeCalled(x)]);
    if x.Type.disposeFault != NoFault then called
    else called.(instance := s.instance[x.Type.singletonArg := null],
                 onLoad := RemoveLast(s.onLoad, InstanceLoad(x)),
                 onUnLoad := RemoveLast(s.onUnLoad, InstanceUnLoad(x)))
  }

  class Singleton {
    /** The concrete type this instance was created from. */
    const Type: TypeDesc
    var IsDisposed: bool

    /** `Activator.CreateInstance`: `IsDisposed` starts at its default, false. */
    constructor (t: TypeDesc)
      ensures Type == t && !IsDisposed
    {
      Type := t;
      IsDisposed := false;
    }

    /**
     * Publishes this instance as `Instance` of its `T`, clears `IsDisposed` and
     * subscribes its handlers; when the type is not a `T`, the cast throws
     * first and nothing changes.
     */
    method RegisterSingleton(g: StaticFields) returns (fault: Fault)
      modifies this, g
      ensures fault == (if Type.isSingletonArg then NoFault else OtherFault)
      ensures IsDisposed == (old(IsDisposed) && fault != NoFault)
      ensures g.Snap() == if fault == NoFault then Registered(old(g.Snap()), this) else old(g.Snap())
    {
      if !Type.isSingletonArg {
        return OtherFault;
      }
      fault := NoFault;
      g.Instance := g.Instance[Type.singletonArg := this];
      IsDisposed := false;
      g.OnLoadAssemblyEvent := g.OnLoadAssemblyEvent + [InstanceLoad(this)];
      g.OnUnLoadAssemblyEvent := g.OnUnLoadAssemblyEvent + [InstanceUnLoad(this)];
    }

    /**
     * `Initialize`: the default returns a task that has already completed; an
     * override may throw before it returns its task.
     */
    method Initialize() returns (fault: Fault)
      ensures fault == Type.initializeFault
    {
      fault := Type.initializeFault;
    }

    /** The type's `Load(int)` override, invoked for group `assemblyName`: recorded on the trace, then it ends as the type says. */
    method Load(g: StaticFields, assemblyName: int) returns (fault: Fault)
      modifies g
      ensures fault == Type.loadFault
      ensures g.Snap() == old(g.Snap()).(trace := old(g.trace) + [LoadInvoked(this, assemblyName)])
    {
      g.trace := g.trace + [LoadInvoked(this, assemblyName)];
      fault := Type.loadFault;
    }

    /**
     * Sets `IsDisposed`, resets `Instance` of its `T` to null and unsubscribes
     * its handlers; a faulting override throws first and changes nothing.
     */
    method Dispose(g: StaticFields) returns (fault: Fault)
      modifies this, g
      ensures fault == Type.disposeFault
      ensures IsDisposed == (old(IsDisposed) || fault == NoFault)
      ensures g.Snap() == Disposed(old(g.Snap()), this)
    {
      g.trace := g.trace + [DisposeCalled(this)];
      fault := Type.disposeFault;
      if fault != NoFault {
        return;
      }
      IsDisposed := true;
      g.Instance := g.Instance[Type.singletonArg := null];
      g.OnLoadAssemblyEvent := RemoveLast(g.OnLoadAssemblyEvent, InstanceLoad(this));
      g.OnUnLoadAssemblyEvent := RemoveLast(g.OnUnLoadAssemblyEvent, InstanceUnLoad(this));
    }
  }

  /**
   * Registering and then disposing an instance restores both subscription
   * lists, whatever was subscribed in between, and leaves its `Instance` slot null.
   */
  lemma RegisterThenDispose(s: Snapshot, x: Singleton, laterLoad: seq<Handler>, laterUnLoad: seq<Handler>)
    requires x.Type.disposeFault == NoFault
    requires InstanceLoad(x) !in laterLoad && InstanceUnLoad(x) !in laterUnLoad
    ensures var r := Registered(s, x);
            var d := Disposed(r.(onLoad := r.onLoad + laterLoad, onUnLoad := r.onUnLoad + laterUnLoad), x);
            && d.onLoad == s.onLoad + laterLoad
            && d.onUnLoad == s.onUnLoad + laterUnLoad
            && InstanceOf(d, x.Type.singletonArg) == null
  {
    SubscribeUnsubscribe(s.onLoad, InstanceLoad(x), laterLoad);
    SubscribeUnsubscribe(s.onUnLoad, InstanceUnLoad(x), laterUnLoad);
  }

  /**
   * A second `Dispose` of an instance subscribed at most once leaves the
   * same subscriptions and the same null `Instance` slot; only the trace grows.
   */
  lemma {:induction false} DisposeTwice(s: Snapshot, x: Singleton)
    requires multiset(s.onLoad)[InstanceLoad(x)] <= 1 && multiset(s.onUnLoad)[InstanceUnLoad(x)] <= 1
    ensures var once := Disposed(s, x);
            var twice := Disposed(once, x);
            && twice.onLoad == once.onLoad && twice.onUnLoad == once.onUnLoad
            && twice.instance == once.instance && twice.onReLoad == once.onReLoad
            && twice.trace == once.trace + [DisposeCalled(x)]
  {
    if x.Type.disposeFault == NoFault {
      RemoveOnlyOccurrence(s.onLoad, InstanceLoad(x));
      RemoveOnlyOccurrence(s.onUnLoad, InstanceUnLoad(x));
    }
  }

  /** `Instance` is shared per `T`: disposing any instance of `T` clears it, even when another instance holds it. */
  lemma DisposeClearsSharedSlot(s: Snapshot, x: Singleton, y: Singleton)
    requires x.Type.singletonArg == y.Type.singletonArg && x.Type.disposeFault == NoFault
    ensures InstanceOf(Registered(s, y), y.Type.singletonArg) == y
    ensures InstanceOf(Disposed(Registered(s, y), x), y.Type.singletonArg) == null
  {
  }
}
