/**
 * SingletonSystem: the scheduler. It keeps one queue of module instances per
 * group key (a pooled multi-queue) and a round-robin rotation of the
 * updatable ones; it builds a group's instances when the group is loaded,
 * disposes them when it is unloaded, and visits the rotation once per frame.
 *
 * User code (an instance's `Update` and `Dispose` overrides) is represented
 * by the fault its type declares; only GameFrameworkException is caught.
 */
module Scheduling {
  import opened Wrappers
  import opened Reflection
  import opened Statics
  import opened Singletons
  import opened Pooling

  // ---------------------------------------------------------------------------
  // Draining a group's queue (UnLoad(Queue<ISingleton>))

  /** How `queue.Dequeue().Dispose()` ends for one stored value; a null value throws NullReferenceException. */
  function ItemFault(v: Option<Singleton>): Fault {
    if v.None? then OtherFault else v.value.Type.disposeFault
  }

  /** Some stored value's disposal throws an exception that is not caught. */
  predicate Escapes(vs: seq<Option<Singleton>>) {
    exists i :: 0 <= i < |vs| && ItemFault(vs[i]) == OtherFault
  }

  /** The values the drain loop takes: all of them, or up to and including the first uncaught failure. */
  function Drained(vs: seq<Option<Singleton>>): (r: seq<Option<Singleton>>)
    ensures |r| <= |vs| && r == vs[..|r|]
    decreases |vs|
  {
    if vs == [] then []
    else if ItemFault(vs[0]) == OtherFault then [vs[0]]
    else
      var rest := Drained(vs[1..]);
      assert vs[1..][..|rest|] == rest;
      assert vs[..|rest| + 1] == [vs[0]] + vs[1..][..|rest|];
      [vs[0]] + rest
  }

  /** The loop's view of `Drained`: where it stops after a prefix that raised nothing uncaught. */
  lemma {:induction false} DrainedAt(vs: seq<Option<Singleton>>, i: nat)
    requires i <= |vs|
    requires forall j :: 0 <= j < i ==> ItemFault(vs[j]) != OtherFault
    ensures i < |vs| && ItemFault(vs[i]) == OtherFault ==> Drained(vs) == vs[..i + 1]
    ensures i == |vs| ==> Drained(vs) == vs
    decreases i
  {
    if i > 0 {
      DrainedAt(vs[1..], i - 1);
      assert [vs[0]] + vs[1..] == vs;
      if i < |vs| {
        assert vs[1..][..i] == vs[1..i + 1];
        assert [vs[0]] + vs[1..i + 1] == vs[..i + 1];
      }
    }
  }

  /** One step of the drain loop, seen on the prefixes of `vs`. */
  lemma DrainStep(s: Snapshot, vs: seq<Option<Singleton>>, i: nat)
    requires i < |vs|
    ensures vs[..i + 1] == vs[..i] + [vs[i]] && vs[..i + 1][..i] == vs[..i]
    ensures vs[i..][1..] == vs[i + 1..]
    ensures forall x :: DisposedIn(vs[..i + 1], x) <==> DisposedIn(vs[..i], x) || DisposedIn([vs[i]], x)
    ensures DisposedAll(s, vs[..i + 1]) == DisposedItem(DisposedAll(s, vs[..i]), vs[i])
  {
    assert vs[..i + 1] == vs[..i] + [vs[i]];
  }

  /** When nothing escapes, the whole queue is drained. */
  lemma DrainedAll(vs: seq<Option<Singleton>>)
    requires !Escapes(vs)
    ensures Drained(vs) == vs
  {
    DrainedAt(vs, |vs|);
  }

  /** Each of `inst` is disposed exactly when it was before the drain (`was`) or its `Dispose` completed for one of `done`. */
  ghost predicate Disposals(inst: set<Singleton>, was: map<Singleton, bool>, done: seq<Option<Singleton>>)
    reads inst
  {
    forall x :: x in inst ==> x in was && x.IsDisposed == (was[x] || DisposedIn(done, x))
  }

  /** The static fields after disposing one stored value (a null value calls nothing). */
  function DisposedItem(s: Snapshot, v: Option<Singleton>): Snapshot {
    if v.None? then s else Disposed(s, v.value)
  }

  /** The static fields after disposing `vs` in order. */
  function DisposedAll(s: Snapshot, vs: seq<Option<Singleton>>): Snapshot
    decreases |vs|
  {
    if vs == [] then s else DisposedItem(DisposedAll(s, vs[..|vs| - 1]), vs[|vs| - 1])
  }

  /** `x`'s `Dispose` ran to completion for one of `vs`. */
  predicate DisposedIn(vs: seq<Option<Singleton>>, x: Singleton) {
    Some(x) in vs && x.Type.disposeFault == NoFault
  }

  /** The trace entries a drain of `vs` appends. */
  function DisposeTrace(vs: seq<Option<Singleton>>): seq<TraceEvent>
    decreases |vs|
  {
    if vs == [] then []
    else DisposeTrace(vs[..|vs| - 1]) + (if vs[|vs| - 1].None? then [] else [DisposeCalled(vs[|vs| - 1].value)])
  }

  /** Disposing a sequence appends one `DisposeCalled` per stored instance, in order. */
  lemma {:induction false} DisposedAllTrace(s: Snapshot, vs: seq<Option<Singleton>>)
    ensures DisposedAll(s, vs).trace == s.trace + DisposeTrace(vs)
    decreases |vs|
  {
    if vs != [] {
      DisposedAllTrace(s, vs[..|vs| - 1]);
    }
  }

  /** Disposing a sequence never touches the scheduler's own subscriptions or the reload event. */
  lemma {:induction false} DisposedAllKeepsSystem(s: Snapshot, vs: seq<Option<Singleton>>)
    ensures SystemHandlers(DisposedAll(s, vs).onLoad) == SystemHandlers(s.onLoad)
    ensures SystemHandlers(DisposedAll(s, vs).onUnLoad) == SystemHandlers(s.onUnLoad)
    ensures DisposedAll(s, vs).onReLoad == s.onReLoad
    decreases |vs|
  {
    if vs != [] {
      var init := vs[..|vs| - 1];
      var v := vs[|vs| - 1];
      DisposedAllKeepsSystem(s, init);
      var mid := DisposedAll(s, init);
      if v.Some? && v.value.Type.disposeFault == NoFault {
        RemoveInstanceKeepsSystem(mid.onLoad, InstanceLoad(v.value));
        RemoveInstanceKeepsSystem(mid.onUnLoad, InstanceUnLoad(v.value));
      }
    }
  }

  /** After a drain, the `Instance` slot of every successfully disposed instance's `T` is null. */
  lemma {:induction false} DisposedAllClearsSlots(s: Snapshot, vs: seq<Option<Singleton>>, x: Singleton)
    requires DisposedIn(vs, x)
    ensures InstanceOf(DisposedAll(s, vs), x.Type.singletonArg) == null
    decreases |vs|
  {
    var init := vs[..|vs| - 1];
    var v := vs[|vs| - 1];
    assert vs == init + [v];
    if Some(x) != v {
      DisposedAllClearsSlots(s, init, x);
    }
  }

  // ---------------------------------------------------------------------------
  // Building a group's instances (Load)

  /**
   * A type whose pass of `Load` runs to the end: it is constructed, a register
   * hook is found, and neither `Initialize` nor the `Load` override throws.
   */
  predicate Completes(t: TypeDesc) {
    t.ctorFault == NoFault && HasRegisterHook(t) && t.initializeFault == NoFault && t.isSingletonArg
    && t.loadFault == NoFault
  }

  /**
   * A type whose pass throws out of `Load`: from its constructor, or, once a
   * hook is found, from `Initialize`, from the cast in `RegisterSingleton` or
   * from its `Load` override.
   */
  predicate Throws(t: TypeDesc) {
    t.ctorFault != NoFault
    || (HasRegisterHook(t) && (t.initializeFault != NoFault || !t.isSingletonArg || t.loadFault != NoFault))
  }

  /** A type whose `Load` override throws: its instance is registered and subscribed but never filed nor put in the rotation. */
  predicate Strays(t: TypeDesc) {
    t.ctorFault == NoFault && HasRegisterHook(t) && t.initializeFault == NoFault && t.isSingletonArg
    && t.loadFault != NoFault
  }

  /** How many leading types complete their pass: `Load` files these and stops at the first other. */
  function CompletedCount(ts: seq<TypeDesc>): (n: nat)
    ensures n <= |ts|
    ensures forall j :: 0 <= j < n ==> Completes(ts[j])
    ensures n < |ts| ==> !Completes(ts[n])
    decreases |ts|
  {
    if ts == [] || !Completes(ts[0]) then 0 else 1 + CompletedCount(ts[1..])
  }

  /** The static fields after creating, registering and notifying `x` for group `key`. */
  function Loaded(s: Snapshot, x: Singleton, key: int): Snapshot {
    Registered(s, x).(trace := s.trace + [Created(x.Type), LoadInvoked(x, key)])
  }

  /** The static fields after `Loaded` for each of `xs` in order. */
  function LoadedAll(s: Snapshot, xs: seq<Singleton>, key: int): Snapshot
    decreases |xs|
  {
    if xs == [] then s else Loaded(LoadedAll(s, xs[..|xs| - 1], key), xs[|xs| - 1], key)
  }

  /**
   * The trace left by the type `ts[n]` that stops the loop, unless its
   * instance strays (then `LoadedAll` accounts for it): a type without a hook,
   * or whose `Initialize` or `T` cast throws, is constructed and abandoned; a constructor
   * that throws leaves nothing.
   */
  function Aborted(s: Snapshot, ts: seq<TypeDesc>, n: nat): Snapshot {
    if n < |ts| && ts[n].ctorFault == NoFault && !Strays(ts[n]) then s.(trace := s.trace + [Created(ts[n])]) else s
  }

  /** The trace entries `LoadedAll` appends. */
  function LoadTrace(xs: seq<Singleton>, key: int): seq<TraceEvent>
    decreases |xs|
  {
    if xs == [] then [] else LoadTrace(xs[..|xs| - 1], key) + [Created(xs[|xs| - 1].Type), LoadInvoked(xs[|xs| - 1], key)]
  }

  /** Loading appends only creation and load entries, one pair per instance, and subscribes each instance once. */
  lemma {:induction false} LoadedAllEffect(s: Snapshot, xs: seq<Singleton>, key: int)
    ensures LoadedAll(s, xs, key).trace == s.trace + LoadTrace(xs, key)
    ensures SystemHandlers(LoadedAll(s, xs, key).onLoad) == SystemHandlers(s.onLoad)
    ensures SystemHandlers(LoadedAll(s, xs, key).onUnLoad) == SystemHandlers(s.onUnLoad)
    ensures LoadedAll(s, xs, key).onReLoad == s.onReLoad
    decreases |xs|
  {
    if xs != [] {
      var init := xs[..|xs| - 1];
      LoadedAllEffect(s, init, key);
      var mid := LoadedAll(s, init, key);
      var x := xs[|xs| - 1];
      SystemHandlersSnoc(mid.onLoad, InstanceLoad(x));
      SystemHandlersSnoc(mid.onUnLoad, InstanceUnLoad(x));
    }
  }

  /** The contents after filing `xs` under a key that was absent: the key appears only when `xs` is not empty. */
  function Grouped(m: map<int, seq<Option<Singleton>>>, key: int, xs: seq<Singleton>): map<int, seq<Option<Singleton>>> {
    if xs == [] then m else m[key := Somes(xs)]
  }

  /** Filing one more instance under the group. */
  lemma GroupedSnoc(m: map<int, seq<Option<Singleton>>>, key: int, xs: seq<Singleton>, x: Singleton)
    requires key !in m
    ensures var g := Grouped(m, key, xs); g[key := QueueAt(g, key) + [Some(x)]] == Grouped(m, key, xs + [x])
  {
    LoadedSnoc(Snapshot([], [], [], map[], []), xs, x, key);
  }

  /** A completing type just past a completing prefix extends the prefix. */
  lemma NextCompleted(ts: seq<TypeDesc>, i: nat)
    requires i <= CompletedCount(ts) && i < |ts| && Completes(ts[i])
    ensures i + 1 <= CompletedCount(ts) && ts[..i + 1] == ts[..i] + [ts[i]]
  {
    PrefixSnoc(ts, i);
    assert CompletedCount(ts) != i;
  }

  /** A prefix one longer ends with the next element. */
  lemma PrefixSnoc<T>(s: seq<T>, i: nat)
    requires i < |s|
    ensures s[..i + 1] == s[..i] + [s[i]]
  {
  }

  /** The types of `xs`, in order. */
  function Types(xs: seq<Singleton>): seq<TypeDesc>
    decreases |xs|
  {
    if xs == [] then [] else Types(xs[..|xs| - 1]) + [xs[|xs| - 1].Type]
  }

  /** One more loaded instance, seen on the trace, the groups and the rotation. */
  lemma LoadStep(s: Snapshot, m: map<int, seq<Option<Singleton>>>, rot: seq<Singleton>, xs: seq<Singleton>, x: Singleton, key: int)
    requires key !in m
    ensures Loaded(LoadedAll(s, xs, key), x, key) == LoadedAll(s, xs + [x], key)
    ensures var g := Grouped(m, key, xs); g[key := QueueAt(g, key) + [Some(x)]] == Grouped(m, key, xs + [x])
    ensures rot + Updatables(xs) + (if IsUpdatable(x.Type) then [x] else []) == rot + Updatables(xs + [x])
    ensures Types(xs + [x]) == Types(xs) + [x.Type]
  {
    LoadedSnoc(s, xs, x, key);
    GroupedSnoc(m, key, xs, x);
  }

  /**
   * A group filed on top of `m` holds exactly the instances built, in order,
   * every other group is untouched, and the key is present iff something was built.
   */
  lemma GroupedContents(m: map<int, seq<Option<Singleton>>>, key: int, xs: seq<Singleton>)
    requires key !in m
    ensures Values(QueueAt(Grouped(m, key, xs), key)) == xs
    ensures |QueueAt(Grouped(m, key, xs), key)| == |xs|
    ensures Grouped(m, key, xs) - {key} == m
    ensures key in Grouped(m, key, xs) <==> xs != []
  {
    ValuesSomes(xs);
  }

  /** One more instance built by `Load`, seen on the specification functions. */
  lemma LoadedSnoc(s: Snapshot, xs: seq<Singleton>, x: Singleton, key: int)
    ensures LoadedAll(s, xs + [x], key) == Loaded(LoadedAll(s, xs, key), x, key)
    ensures Updatables(xs + [x]) == Updatables(xs) + (if IsUpdatable(x.Type) then [x] else [])
    ensures Somes(xs + [x]) == Somes(xs) + [Some(x)]
  {
    assert (xs + [x])[..|xs|] == xs;
  }

  /** No trace entry of a disposal is a creation entry. */
  lemma {:induction false} DisposeTraceHasNoCreation(vs: seq<Option<Singleton>>, i: nat)
    requires i < |DisposeTrace(vs)|
    ensures DisposeTrace(vs)[i].DisposeCalled?
    decreases |vs|
  {
    if vs != [] {
      var init := vs[..|vs| - 1];
      if i < |DisposeTrace(init)| {
        DisposeTraceHasNoCreation(init, i);
      }
    }
  }

  /**
   * Reload ordering: in the trace of one `Load`, every disposal of the
   * group's old instances comes before the creation of any new one.
   */
  lemma DisposalsPrecedeCreations(s: Snapshot, vs: seq<Option<Singleton>>, xs: seq<Singleton>, key: int, i: nat, j: nat)
    requires var t := LoadedAll(DisposedAll(s, vs), xs, key).trace;
             |s.trace| <= i < |t| && |s.trace| <= j < |t| && t[i].DisposeCalled? && t[j].Created?
    ensures i < j
  {
    DisposedAllTrace(s, vs);
    LoadedAllEffect(DisposedAll(s, vs), xs, key);
    var d, l := DisposeTrace(vs), LoadTrace(xs, key);
    forall k | 0 <= k < |d|
      ensures d[k].DisposeCalled?
    {
      DisposeTraceHasNoCreation(vs, k);
    }
    forall k | 0 <= k < |l|
      ensures !l[k].DisposeCalled?
    {
      LoadTraceHasNoDisposal(xs, key, k);
    }
    TraceOrder(LoadedAll(DisposedAll(s, vs), xs, key).trace, s.trace, d, l, i, j);
  }

  /** In a trace made of disposals followed by entries that are not disposals, a disposal precedes any creation. */
  lemma TraceOrder(t: seq<TraceEvent>, a: seq<TraceEvent>, d: seq<TraceEvent>, l: seq<TraceEvent>, i: nat, j: nat)
    requires t == a + d + l
    requires |a| <= i < |t| && |a| <= j < |t| && t[i].DisposeCalled? && t[j].Created?
    requires forall k :: 0 <= k < |d| ==> d[k].DisposeCalled?
    requires forall k :: 0 <= k < |l| ==> !l[k].DisposeCalled?
    ensures i < j
  {
    assert forall k :: |a| <= k < |a| + |d| ==> t[k] == d[k - |a|];
    assert forall k :: |a| + |d| <= k < |t| ==> t[k] == l[k - |a| - |d|];
  }

  /** No trace entry of a load is a disposal entry. */
  lemma {:induction false} LoadTraceHasNoDisposal(xs: seq<Singleton>, key: int, i: nat)
    requires i < |LoadTrace(xs, key)|
    ensures !LoadTrace(xs, key)[i].DisposeCalled?
    decreases |xs|
  {
    if xs != [] {
      var init := xs[..|xs| - 1];
      if i < |LoadTrace(init, key)| {
        LoadTraceHasNoDisposal(init, key, i);
      }
    }
  }

  /** The instances held by queue values, in order (null values dropped). */
  function Values(vs: seq<Option<Singleton>>): seq<Singleton>
    decreases |vs|
  {
    if vs == [] then []
    else Values(vs[..|vs| - 1]) + (if vs[|vs| - 1].None? then [] else [vs[|vs| - 1].value])
  }

  /** The queue values of `xs`. */
  function Somes(xs: seq<Singleton>): (r: seq<Option<Singleton>>)
    ensures |r| == |xs|
    decreases |xs|
  {
    if xs == [] then [] else Somes(xs[..|xs| - 1]) + [Some(xs[|xs| - 1])]
  }

  lemma {:induction false} ValuesSomes(xs: seq<Singleton>)
    ensures Values(Somes(xs)) == xs
    decreases |xs|
  {
    if xs != [] {
      var init := xs[..|xs| - 1];
      ValuesSomes(init);
      assert xs == init + [xs[|xs| - 1]];
    }
  }

  /** The instances of `xs` that are IUpdateSingleton, in order. */
  function Updatables(xs: seq<Singleton>): seq<Singleton>
    decreases |xs|
  {
    if xs == [] then []
    else Updatables(xs[..|xs| - 1]) + (if IsUpdatable(xs[|xs| - 1].Type) then [xs[|xs| - 1]] else [])
  }

  /** `Updatables` keeps exactly the IUpdateSingleton instances. */
  lemma {:induction false} UpdatablesMembers(xs: seq<Singleton>, x: Singleton)
    ensures x in Updatables(xs) <==> x in xs && IsUpdatable(x.Type)
    decreases |xs|
  {
    if xs != [] {
      var init := xs[..|xs| - 1];
      assert xs == init + [xs[|xs| - 1]];
      UpdatablesMembers(init, x);
    }
  }

  /** Every entry of `xs` belongs to `inst`. */
  ghost predicate AllIn(xs: seq<Singleton>, inst: set<Singleton>) {
    forall i :: 0 <= i < |xs| ==> xs[i] in inst
  }

  lemma {:induction false} UpdatablesAllIn(xs: seq<Singleton>, inst: set<Singleton>)
    requires AllIn(xs, inst)
    ensures AllIn(Updatables(xs), inst)
    decreases |xs|
  {
    if xs != [] {
      UpdatablesAllIn(xs[..|xs| - 1], inst);
    }
  }

  // ---------------------------------------------------------------------------
  // The per-frame rotation (Update)

  /** The instances among `inst` that are disposed: read once when a tick starts. */
  ghost function Gone(inst: set<Singleton>): set<Singleton>
    reads inst
  {
    set x | x in inst && x.IsDisposed
  }

  /**
   * Visiting `x` escapes the tick: it is live (not in `gone`) and its
   * `Update` throws something other than a GameFrameworkException.
   */
  predicate UpdateEscapes(x: Singleton, gone: set<Singleton>) {
    x !in gone && x.Type.updateFault == OtherFault
  }

  /** How many entries of the rotation one tick takes: all, or up to and including the first escaping one. */
  function Visited(rot: seq<Singleton>, gone: set<Singleton>): (n: nat)
    ensures n <= |rot|
    decreases |rot|
  {
    if rot == [] then 0 else if UpdateEscapes(rot[0], gone) then 1 else 1 + Visited(rot[1..], gone)
  }

  lemma {:induction false} VisitedAt(rot: seq<Singleton>, gone: set<Singleton>, i: nat)
    requires i <= |rot|
    requires forall j :: 0 <= j < i ==> !UpdateEscapes(rot[j], gone)
    ensures i < |rot| && UpdateEscapes(rot[i], gone) ==> Visited(rot, gone) == i + 1
    ensures i == |rot| ==> Visited(rot, gone) == |rot|
    decreases i
  {
    if i > 0 {
      VisitedAt(rot[1..], gone, i - 1);
    }
  }

  /** The live entries of `rot` (those not in `gone`), in order. */
  function Live(rot: seq<Singleton>, gone: set<Singleton>): (r: seq<Singleton>)
    ensures |r| <= |rot|
    decreases |rot|
  {
    if rot == [] then []
    else Live(rot[..|rot| - 1], gone) + (if rot[|rot| - 1] in gone then [] else [rot[|rot| - 1]])
  }

  /** The trace entries of one `Update` call per instance of `xs`, in order. */
  function UpdateTrace(xs: seq<Singleton>): seq<TraceEvent>
    decreases |xs|
  {
    if xs == [] then [] else UpdateTrace(xs[..|xs| - 1]) + [UpdateCalled(xs[|xs| - 1])]
  }

  /** `Gone` holds exactly the disposed instances. */
  lemma GoneMembers(inst: set<Singleton>, x: Singleton)
    requires x in inst
    ensures x in Gone(inst) <==> x.IsDisposed
  {
  }

  /** `Live` keeps exactly the entries that are not disposed. */
  lemma {:induction false} LiveMembers(rot: seq<Singleton>, gone: set<Singleton>, x: Singleton)
    ensures x in Live(rot, gone) <==> x in rot && x !in gone
    decreases |rot|
  {
    if rot != [] {
      var init := rot[..|rot| - 1];
      assert rot == init + [rot[|rot| - 1]];
      LiveMembers(init, gone, x);
    }
  }

  lemma {:induction false} LiveAllIn(rot: seq<Singleton>, gone: set<Singleton>, inst: set<Singleton>)
    requires AllIn(rot, inst)
    ensures AllIn(Live(rot, gone), inst)
    decreases |rot|
  {
    if rot != [] {
      LiveAllIn(rot[..|rot| - 1], gone, inst);
    }
  }

  lemma LiveSnoc(xs: seq<Singleton>, gone: set<Singleton>, x: Singleton)
    ensures Live(xs + [x], gone) == Live(xs, gone) + (if x in gone then [] else [x])
  {
    assert (xs + [x])[..|xs|] == xs;
  }

  /** One turn of the rotation loop, seen on the prefixes and suffixes of `rot`. */
  lemma RotateStep(rot: seq<Singleton>, gone: set<Singleton>, i: nat)
    requires i < |rot|
    ensures var q := rot[i..] + Live(rot[..i], gone);
      q[0] == rot[i] && q[1..] == rot[i + 1..] + Live(rot[..i], gone)
    ensures Live(rot[..i + 1], gone) == Live(rot[..i], gone) + (if rot[i] in gone then [] else [rot[i]])
  {
    assert rot[..i + 1] == rot[..i] + [rot[i]];
    LiveSnoc(rot[..i], gone, rot[i]);
    var q := rot[i..] + Live(rot[..i], gone);
    assert q[1..] == rot[i + 1..] + Live(rot[..i], gone);
  }

  lemma UpdateTraceSnoc(xs: seq<Singleton>, x: Singleton)
    ensures UpdateTrace(xs + [x]) == UpdateTrace(xs) + [UpdateCalled(x)]
  {
    assert (xs + [x])[..|xs|] == xs;
  }

  /** A rotation whose entries are all live is its own live part. */
  lemma {:induction false} LiveOfAllLive(rot: seq<Singleton>, gone: set<Singleton>)
    requires forall j :: 0 <= j < |rot| ==> rot[j] !in gone
    ensures Live(rot, gone) == rot
    decreases |rot|
  {
    if rot != [] {
      LiveOfAllLive(rot[..|rot| - 1], gone);
      assert rot[..|rot| - 1] + [rot[|rot| - 1]] == rot;
    }
  }

  /** Dropping disposed entries twice drops nothing more. */
  lemma {:induction false} LiveIdempotent(rot: seq<Singleton>, gone: set<Singleton>)
    ensures Live(Live(rot, gone), gone) == Live(rot, gone)
    decreases |rot|
  {
    if rot != [] {
      var init := rot[..|rot| - 1];
      var x := rot[|rot| - 1];
      LiveIdempotent(init, gone);
      var l := Live(init, gone);
      assert rot == init + [x];
      LiveSnoc(init, gone, x);
      if x !in gone {
        LiveSnoc(l, gone, x);
        assert Live(rot, gone) == l + [x];
      } else {
        assert Live(rot, gone) == l;
      }
    }
  }

  /** `UpdateCalled` entries name exactly the instances updated, each as often as it occurs. */
  lemma {:induction false} UpdateTraceCounts(xs: seq<Singleton>, x: Singleton)
    ensures multiset(UpdateTrace(xs))[UpdateCalled(x)] == multiset(xs)[x]
    decreases |xs|
  {
    if xs != [] {
      var init := xs[..|xs| - 1];
      UpdateTraceCounts(init, x);
      assert xs == init + [xs[|xs| - 1]];
    }
  }

  /** Every value of `vs` is a non-null instance from `inst`. */
  ghost predicate Holds(vs: seq<Option<Singleton>>, inst: set<Singleton>) {
    forall i :: 0 <= i < |vs| ==> vs[i].Some? && vs[i].value in inst
  }

  /** Every non-null value of `vs` is an instance from `inst`. */
  ghost predicate Owned(vs: seq<Option<Singleton>>, inst: set<Singleton>) {
    forall i :: 0 <= i < |vs| && vs[i].Some? ==> vs[i].value in inst
  }

  lemma HoldsSuffix(vs: seq<Option<Singleton>>, inst: set<Singleton>, n: nat)
    requires Holds(vs, inst) && n <= |vs|
    ensures Holds(vs[n..], inst)
  {
  }

  /** `p` is how a pass over type `t` ends. */
  predicate PassOf(p: Pass, t: TypeDesc) {
    && (p.Filed? <==> Completes(t))
    && (p.NoHook? <==> t.ctorFault == NoFault && !HasRegisterHook(t))
    && (p.Threw? <==> Throws(t))
    && (p.Threw? ==> (p.stray.Some? <==> Strays(t)))
  }

  /**
   * How one pass of the loop of `Load` ends: its instance filed, the early
   * `return` for a type without a register hook, or an exception thrown out of
   * user code, with the instance left registered when it was the `Load`
   * override that threw.
   */
  datatype Pass = Filed(instance: Singleton) | NoHook | Threw(stray: Option<Singleton>)

  class SingletonSystem {
    /** `updateSingletons`: the rotation, front first. */
    var updateSingletons: seq<Singleton>
    /** `singletons`: each group key's instances, in creation order. */
    const singletons: OneToManyQueue<int, Singleton>
    /** The static fields shared with the registry and the instances. */
    const statics: StaticFields
    /** Every instance this scheduler has created. */
    ghost var Instances: set<Singleton>

    ghost predicate Valid()
      reads this, singletons, singletons.Repr
    {
      && singletons.Valid()
      && (forall k :: k in singletons.buckets ==> Holds(singletons.buckets[k].items, Instances))
      && AllIn(updateSingletons, Instances)
    }

    ghost function Contents(): (m: map<int, seq<Option<Singleton>>>)
      reads this, singletons, singletons.Repr
      requires Valid()
      ensures forall k :: k in m ==> Holds(m[k], Instances)
    {
      singletons.Contents()
    }

    constructor (g: StaticFields)
      ensures Valid() && fresh(singletons) && fresh(singletons.Repr)
      ensures statics == g && updateSingletons == [] && Contents() == map[] && Instances == {}
      ensures singletons.recyclingLimit == 0
    {
      updateSingletons := [];
      singletons := new OneToManyQueue<int, Singleton>(0);
      statics := g;
      Instances := {};
    }

    /** Subscribes the scheduler's `Load` and `UnLoad` to the registry's load and unload events. */
    method Initialize()
      modifies statics
      ensures statics.Snap() == old(statics.Snap()).(onLoad := old(statics.OnLoadAssemblyEvent) + [SystemLoad],
                                                     onUnLoad := old(statics.OnUnLoadAssemblyEvent) + [SystemUnLoad])
    {
      statics.OnLoadAssemblyEvent := statics.OnLoadAssemblyEvent + [SystemLoad];
      statics.OnUnLoadAssemblyEvent := statics.OnUnLoadAssemblyEvent + [SystemUnLoad];
    }

    /**
     * Takes every value off `queue`, disposing each; a GameFrameworkException
     * from one `Dispose` is caught and the drain goes on, anything else ends it.
     */
    method UnLoadQueue(queue: Queue?<Option<Singleton>>) returns (escaped: bool)
      requires queue != null ==> Owned(queue.items, Instances)
      modifies queue, Instances, statics
      ensures queue == null ==> !escaped && statics.Snap() == old(statics.Snap())
      ensures queue == null ==> forall x :: x in Instances ==> x.IsDisposed == old(x.IsDisposed)
      ensures queue != null ==>
        var vs := old(queue.items);
        var d := Drained(vs);
        && queue.items == vs[|d|..]
        && escaped == Escapes(vs)
        && statics.Snap() == DisposedAll(old(statics.Snap()), d)
        && forall x :: x in Instances ==> x.IsDisposed == (old(x.IsDisposed) || DisposedIn(d, x))
    {
      escaped := false;
      if queue == null {
        return;
      }
      ghost var vs, s0 := queue.items, statics.Snap();
      ghost var was := map x | x in Instances :: x.IsDisposed;
      ghost var i := 0;
      while |queue.items| > 0
        invariant 0 <= i <= |vs| && queue.items == vs[i..]
        invariant forall j :: 0 <= j < i ==> ItemFault(vs[j]) != OtherFault
        invariant statics.Snap() == DisposedAll(s0, vs[..i])
        invariant Owned(vs, Instances) && Instances == old(Instances)
        invariant Disposals(Instances, was, vs[..i])
      {
        var item := queue.items[0];
        queue.items := queue.items[1..];
        DrainStep(s0, vs, i);
        assert item == vs[i] && (item.Some? ==> item.value in Instances);
        i := i + 1;
        escaped := DisposeNext(item, was, vs[..i - 1]);
        if escaped {
          DrainedAt(vs, i - 1);
          return;
        }
      }
      DrainedAt(vs, i);
      assert vs[..i] == vs;
    }

    /** `DisposeValue` seen on the drain so far: the instances disposed are those of `done + [item]`. */
    method DisposeNext(item: Option<Singleton>, ghost was: map<Singleton, bool>, ghost done: seq<Option<Singleton>>) returns (escaped: bool)
      requires item.Some? ==> item.value in Instances
      requires Disposals(Instances, was, done)
      modifies Instances, statics
      ensures escaped == (ItemFault(item) == OtherFault)
      ensures statics.Snap() == DisposedItem(old(statics.Snap()), item)
      ensures Disposals(Instances, was, done + [item])
    {
      escaped := DisposeValue(item);
    }

    /**
     * `queue.Dequeue().Dispose()` for one value: a null value throws
     * NullReferenceException; a GameFrameworkException from `Dispose` is
     * caught and logged; anything else escapes.
     */
    method DisposeValue(item: Option<Singleton>) returns (escaped: bool)
      requires item.Some? ==> item.value in Instances
      modifies Instances, statics
      ensures escaped == (ItemFault(item) == OtherFault)
      ensures statics.Snap() == DisposedItem(old(statics.Snap()), item)
      ensures forall x :: x in Instances ==> x.IsDisposed == (old(x.IsDisposed) || DisposedIn([item], x))
    {
      if item.None? {
        escaped := true;
      } else {
        var fault := item.value.Dispose(statics);
        escaped := fault == OtherFault;
      }
    }

    /** Disposes and removes every instance filed under `assemblyName`; no effect when there are none. */
    method UnLoad(assemblyName: int) returns (escaped: bool)
      requires Valid()
      modifies singletons, singletons.Repr, Instances, statics
      ensures Valid() && singletons.Repr == old(singletons.Repr)
      ensures var vs := QueueAt(old(Contents()), assemblyName);
        var d := Drained(vs);
        && escaped == Escapes(vs)
        && Contents() == (if escaped then old(Contents())[assemblyName := vs[|d|..]] else old(Contents()) - {assemblyName})
        && statics.Snap() == DisposedAll(old(statics.Snap()), d)
        && forall x :: x in old(Instances) ==> x.IsDisposed == (old(x.IsDisposed) || DisposedIn(d, x))
    {
      if assemblyName !in singletons.buckets {
        assert QueueAt(old(Contents()), assemblyName) == [];
        return false;
      }
      escaped := DrainGroup(assemblyName);
      if escaped {
        return;
      }
      DrainedAll(QueueAt(old(Contents()), assemblyName));
      Forget(assemblyName);
    }

    /** `singletons.RemoveKey(assemblyName)`: the group's queue goes back to the pool, nothing else changes. */
    method Forget(assemblyName: int)
      requires Valid()
      modifies singletons, singletons.Repr
      ensures Valid() && singletons.Repr == old(singletons.Repr)
      ensures Contents() == old(Contents()) - {assemblyName}
    {
      singletons.RemoveKey(assemblyName);
    }

    /** `UnLoad(queue)` on the queue filed under `assemblyName`, which stays filed. */
    method DrainGroup(assemblyName: int) returns (escaped: bool)
      requires Valid() && assemblyName in Contents()
      modifies singletons.Repr, Instances, statics
      ensures Valid()
      ensures var vs := old(Contents())[assemblyName];
        var d := Drained(vs);
        && escaped == Escapes(vs)
        && Contents() == old(Contents())[assemblyName := vs[|d|..]]
        && statics.Snap() == DisposedAll(old(statics.Snap()), d)
        && forall x :: x in Instances ==> x.IsDisposed == (old(x.IsDisposed) || DisposedIn(d, x))
    {
      var queue := singletons.buckets[assemblyName];
      ghost var vs := queue.items;
      escaped := UnLoadQueue(queue);
      singletons.ItemsUpdated(assemblyName);
      HoldsSuffix(vs, Instances, |Drained(vs)|);
    }

    /**
     * The loop of `Load` for a key with no instances: one instance per type, in
     * order, each registered, filed under the key and, when updatable, put in
     * the rotation. It returns at the first type without a register hook and
     * is left by the first exception out of a constructor, `Initialize` or a
     * `Load` override; `created` then ends with the instance left registered
     * but unfiled when that override threw.
     */
    method LoadTypes(assemblyName: int, singletonTypes: seq<TypeDesc>) returns (escaped: bool, ghost created: seq<Singleton>)
      requires Valid() && assemblyName !in Contents()
      modifies this, singletons, singletons.Repr, statics
      ensures Valid() && fresh(singletons.Repr - old(singletons.Repr)) && old(Instances) <= Instances
      ensures var n := CompletedCount(singletonTypes);
        && escaped == (n < |singletonTypes| && Throws(singletonTypes[n]))
        && |created| == (if n < |singletonTypes| && Strays(singletonTypes[n]) then n + 1 else n)
        && Contents() == Grouped(old(Contents()), assemblyName, created[..n])
        && updateSingletons == old(updateSingletons) + Updatables(created[..n])
        && (n < |created| ==> created[n] !in Instances)
      ensures Types(created) == singletonTypes[..|created|]
      ensures forall j :: 0 <= j < |created| ==> fresh(created[j]) && !created[j].IsDisposed
      ensures statics.Snap() == Aborted(LoadedAll(old(statics.Snap()), created, assemblyName), singletonTypes, CompletedCount(singletonTypes))
    {
      ghost var m0, s0, rot0 := Contents(), statics.Snap(), updateSingletons;
      var i, stopped, pass;
      i, stopped, pass, created := LoadPasses(assemblyName, singletonTypes);
      assert created[..i] == created;
      escaped := stopped && pass.Threw?;
      if escaped && pass.stray.Some? {
        var y := pass.stray.value;
        LoadStep(s0, m0, rot0, created, y, assemblyName);
        PrefixSnoc(singletonTypes, i);
        created := created + [y];
        assert created[..i] == created[..|created| - 1];
      }
    }

    /**
     * The loop of `Load`: passes over the types in order while each completes;
     * `pass` is how the pass over `singletonTypes[i]` ended when one did not.
     */
    method LoadPasses(assemblyName: int, singletonTypes: seq<TypeDesc>) returns (i: nat, stopped: bool, pass: Pass, ghost created: seq<Singleton>)
      requires Valid() && assemblyName !in Contents()
      modifies this, singletons, singletons.Repr, statics
      ensures i == CompletedCount(singletonTypes) && |created| == i
      ensures stopped <==> i < |singletonTypes|
      ensures stopped ==> !pass.Filed? && PassOf(pass, singletonTypes[i])
      ensures Valid() && fresh(singletons.Repr - old(singletons.Repr)) && old(Instances) <= Instances
      ensures Types(created) == singletonTypes[..i]
      ensures forall j :: 0 <= j < |created| ==> fresh(created[j]) && !created[j].IsDisposed
      ensures Contents() == Grouped(old(Contents()), assemblyName, created)
      ensures updateSingletons == old(updateSingletons) + Updatables(created)
      ensures !stopped ==> statics.Snap() == LoadedAll(old(statics.Snap()), created, assemblyName)
      ensures stopped && pass.Threw? && pass.stray.Some? ==>
        var y := pass.stray.value;
        && fresh(y) && !y.IsDisposed && y !in Instances && y.Type == singletonTypes[i]
        && statics.Snap() == Loaded(LoadedAll(old(statics.Snap()), created, assemblyName), y, assemblyName)
      ensures stopped && !(pass.Threw? && pass.stray.Some?) ==>
        statics.Snap() == Aborted(LoadedAll(old(statics.Snap()), created, assemblyName), [singletonTypes[i]], 0)
    {
      ghost var m0, s0, rot0, inst0 := Contents(), statics.Snap(), updateSingletons, Instances;
      created := [];
      i, stopped, pass := 0, false, NoHook;
      while i < |singletonTypes|
        invariant 0 <= i <= CompletedCount(singletonTypes) && |created| == i
        invariant Valid() && fresh(singletons.Repr - old(singletons.Repr)) && inst0 <= Instances
        invariant Types(created) == singletonTypes[..i]
        invariant forall j :: 0 <= j < |created| ==> fresh(created[j])
        invariant forall j :: 0 <= j < |created| ==> !created[j].IsDisposed
        invariant Contents() == Grouped(m0, assemblyName, created)
        invariant updateSingletons == rot0 + Updatables(created)
        invariant statics.Snap() == LoadedAll(s0, created, assemblyName)
      {
        pass := LoadNext(assemblyName, singletonTypes[i], created);
        if !pass.Filed? {
          stopped := true;
          break;
        }
        LoadStep(s0, m0, rot0, created, pass.instance, assemblyName);
        NextCompleted(singletonTypes, i);
        created := created + [pass.instance];
        i := i + 1;
      }
    }

    /**
     * One pass of the loop of `Load`: `LoadOne`, then filing the instance when
     * the pass completed. The instances `made` earlier keep their state.
     */
    method LoadNext(assemblyName: int, singletonType: TypeDesc, ghost made: seq<Singleton>) returns (pass: Pass)
      requires Valid()
      modifies this, singletons, singletons.Repr, statics
      ensures PassOf(pass, singletonType)
      ensures Valid() && fresh(singletons.Repr - old(singletons.Repr)) && old(Instances) <= Instances
      ensures forall j :: 0 <= j < |made| ==> made[j].IsDisposed == old(made[j].IsDisposed)
      ensures pass.Filed? ==>
        var x := pass.instance;
        && fresh(x) && x.Type == singletonType && !x.IsDisposed
        && Contents() == old(Contents())[assemblyName := QueueAt(old(Contents()), assemblyName) + [Some(x)]]
        && updateSingletons == old(updateSingletons) + (if IsUpdatable(x.Type) then [x] else [])
        && statics.Snap() == Loaded(old(statics.Snap()), x, assemblyName)
      ensures !pass.Filed? ==> Contents() == old(Contents()) && updateSingletons == old(updateSingletons) && Instances == old(Instances)
      ensures pass.Threw? && pass.stray.Some? ==>
        var y := pass.stray.value;
        && fresh(y) && y.Type == singletonType && !y.IsDisposed && y !in Instances
        && statics.Snap() == Loaded(old(statics.Snap()), y, assemblyName)
      ensures pass.NoHook? || pass == Threw(None) ==>
        statics.Snap() == Aborted(old(statics.Snap()), [singletonType], 0)
    {
      pass := LoadOne(assemblyName, singletonType);
      if pass.Filed? {
        Track(assemblyName, pass.instance);
      }
    }

    /** `Activator.CreateInstance(singletonType)`: a new instance, or nothing when the constructor throws. */
    method Create(singletonType: TypeDesc) returns (instance: Option<Singleton>)
      modifies statics
      ensures instance.None? <==> singletonType.ctorFault != NoFault
      ensures instance.Some? ==> fresh(instance.value) && instance.value.Type == singletonType && !instance.value.IsDisposed
      ensures statics.Snap() == if instance.None? then old(statics.Snap())
                                else old(statics.Snap()).(trace := old(statics.trace) + [Created(singletonType)])
    {
      if singletonType.ctorFault != NoFault {
        return None;
      }
      var x := new Singleton(singletonType);
      statics.Record(Created(singletonType));
      instance := Some(x);
    }

    /**
     * One pass of the loop of `Load` up to filing: creates an instance, looks
     * for the `RegisterSingleton` hook on the base type or the one above,
     * calls `Initialize`, registers the instance and invokes its `Load`.
     */
    method LoadOne(assemblyName: int, singletonType: TypeDesc) returns (pass: Pass)
      modifies statics
      ensures PassOf(pass, singletonType)
      ensures pass.Filed? || (pass.Threw? && pass.stray.Some?) ==>
        var x := if pass.Filed? then pass.instance else pass.stray.value;
        && fresh(x) && x.Type == singletonType && !x.IsDisposed
        && statics.Snap() == Loaded(old(statics.Snap()), x, assemblyName)
      ensures pass.NoHook? || pass == Threw(None) ==>
        statics.Snap() == Aborted(old(statics.Snap()), [singletonType], 0)
    {
      var created := Create(singletonType);
      if created.None? {
        return Threw(None);
      }
      var instance := created.value;
      if !HasRegisterHook(singletonType) {
        return NoHook;
      }
      var fault := instance.Initialize();
      if fault != NoFault {
        return Threw(None);
      }
      fault := instance.RegisterSingleton(statics);
      if fault != NoFault {
        return Threw(None);
      }
      fault := instance.Load(statics, assemblyName);
      if fault != NoFault {
        return Threw(Some(instance));
      }
      pass := Filed(instance);
    }

    /** Adds a new instance to the rotation when it is an IUpdateSingleton and files it under its group. */
    method Track(assemblyName: int, instance: Singleton)
      requires Valid() && instance !in Instances
      modifies this, singletons, singletons.Repr
      ensures Valid() && fresh(singletons.Repr - old(singletons.Repr)) && Instances == old(Instances) + {instance}
      ensures Contents() == old(Contents())[assemblyName := QueueAt(old(Contents()), assemblyName) + [Some(instance)]]
      ensures updateSingletons == old(updateSingletons) + (if IsUpdatable(instance.Type) then [instance] else [])
    {
      ghost var m, inst, rot := Contents(), Instances, updateSingletons;
      if IsUpdatable(instance.Type) {
        updateSingletons := updateSingletons + [instance];
      }
      assert unchanged(singletons) && unchanged(singletons.Repr);
      assert singletons.Contents() == m;
      singletons.Enqueue(assemblyName, Some(instance));
      Instances := Instances + {instance};
      TrackedValid(m, inst, rot, assemblyName, instance);
    }

    /**
     * Filing `x` under `key` of the owned contents `m`, and appending it to
     * the rotation `rot` when it is updatable, keeps the scheduler valid once
     * `x` is among `Instances`.
     */
    lemma TrackedValid(m: map<int, seq<Option<Singleton>>>, inst: set<Singleton>, rot: seq<Singleton>, key: int, x: Singleton)
      requires forall k :: k in m ==> Holds(m[k], inst)
      requires AllIn(rot, inst) && Instances == inst + {x}
      requires updateSingletons == rot + (if IsUpdatable(x.Type) then [x] else [])
      requires singletons.Valid() && singletons.Contents() == m[key := QueueAt(m, key) + [Some(x)]]
      ensures Valid()
    {
      var c := singletons.Contents();
      forall k | k in singletons.buckets
        ensures Holds(singletons.buckets[k].items, Instances)
      {
        assert singletons.buckets[k].items == c[k];
        if k in m {
          assert Holds(m[k], inst);
        }
      }
    }

    /**
     * Reacts to a group being loaded: first disposes and removes the group's
     * old instances, then builds new ones from `singletonTypes` (the registry's
     * `Foreach(assemblyName, ISingleton)`).
     */
    method Load(assemblyName: int, singletonTypes: seq<TypeDesc>) returns (escaped: bool, ghost created: seq<Singleton>)
      requires Valid()
      modifies this, singletons, singletons.Repr, Instances, statics
      ensures Valid() && fresh(singletons.Repr - old(singletons.Repr)) && old(Instances) <= Instances
      ensures var vs := QueueAt(old(Contents()), assemblyName);
        var d := Drained(vs);
        && (forall x :: x in old(Instances) ==> x.IsDisposed == (old(x.IsDisposed) || DisposedIn(d, x)))
        && (Escapes(vs) ==> escaped && created == [] && Contents() == old(Contents())[assemblyName := vs[|d|..]]
                            && statics.Snap() == DisposedAll(old(statics.Snap()), d)
                            && updateSingletons == old(updateSingletons))
        && (!Escapes(vs) ==>
              var n := CompletedCount(singletonTypes);
              && escaped == (n < |singletonTypes| && Throws(singletonTypes[n]))
              && |created| == (if n < |singletonTypes| && Strays(singletonTypes[n]) then n + 1 else n)
              && Contents() == Grouped(old(Contents()) - {assemblyName}, assemblyName, created[..n])
              && Types(created) == singletonTypes[..|created|]
              && (forall j :: 0 <= j < |created| ==> fresh(created[j]) && !created[j].IsDisposed)
              && (n < |created| ==> created[n] !in Instances)
              && updateSingletons == old(updateSingletons) + Updatables(created[..n])
              && statics.Snap() == Aborted(LoadedAll(DisposedAll(old(statics.Snap()), vs), created, assemblyName), singletonTypes, n))
    {
      created := [];
      escaped := UnLoad(assemblyName);
      if escaped {
        return;
      }
      DrainedAll(QueueAt(old(Contents()), assemblyName));
      escaped, created := LoadTypes(assemblyName, singletonTypes);
    }

    /**
     * One frame: visits exactly the instances in the rotation at the start of
     * the call; a disposed one is dropped, a live one is put back at the end
     * before its `Update` runs. A GameFrameworkException from `Update` is
     * caught; any other exception ends the frame.
     */
    method Update() returns (escaped: bool)
      requires Valid()
      modifies this, statics
      ensures Valid() && singletons.Repr == old(singletons.Repr) && Instances == old(Instances) && Contents() == old(Contents())
      ensures var rot := old(updateSingletons);
        var gone := old(Gone(Instances));
        var n := Visited(rot, gone);
        && updateSingletons == rot[n..] + Live(rot[..n], gone)
        && statics.Snap() == old(statics.Snap()).(trace := old(statics.trace) + UpdateTrace(Live(rot[..n], gone)))
        && (escaped <==> exists j :: 0 <= j < |rot| && UpdateEscapes(rot[j], gone))
    {
      ghost var gone := Gone(Instances);
      forall j | 0 <= j < |updateSingletons|
        ensures updateSingletons[j] in gone <==> updateSingletons[j].IsDisposed
      {
        GoneMembers(Instances, updateSingletons[j]);
      }
      var rotation, updated;
      rotation, updated, escaped := Rotate(updateSingletons, gone);
      LiveAllIn(old(updateSingletons)[..Visited(old(updateSingletons), gone)], gone, Instances);
      updateSingletons := rotation;
      statics.trace := statics.trace + UpdateTrace(updated);
    }

    /**
     * Disposes every stored instance, group by group in dictionary order
     * (unspecified: `order` is the order taken), then empties the rotation
     * and the key map through the dictionary's public `Clear` (the free-list
     * is kept) and unsubscribes. An exception that escapes one group's drain
     * ends the call there.
     */
    method Dispose() returns (escaped: bool, ghost order: seq<int>)
      requires Valid()
      modifies this, singletons, singletons.Repr, Instances, statics
      ensures Valid()
      ensures var m := old(Contents());
        var taken := Taken(m, order);
        && (forall k :: k in order ==> k in m)
        && (forall i, j :: 0 <= i < j < |order| ==> order[i] != order[j])
        && (forall j :: 0 <= j < |order| - 1 ==> !Escapes(m[order[j]]))
        && (escaped <==> order != [] && Escapes(m[order[|order| - 1]]))
        && (forall x :: x in old(Instances) ==> x.IsDisposed == (old(x.IsDisposed) || DisposedIn(taken, x)))
        && (escaped ==>
              && Contents() == Remaining(m, order) && updateSingletons == old(updateSingletons)
              && statics.Snap() == DisposedAll(old(statics.Snap()), taken))
        && (!escaped ==>
              && (forall k :: k in m ==> k in order)
              && updateSingletons == [] && Contents() == map[] && singletons.pool == old(singletons.pool)
              && statics.Snap() == Unsubscribed(DisposedAll(old(statics.Snap()), taken)))
    {
      var keys := KeyOrder();
      escaped, order := DrainAll(keys);
      assert forall j :: 0 <= j < |order| ==> order[j] == keys[j];
      if !escaped {
        ghost var drained := statics.Snap();
        Clear();
        assert statics.Snap() == Unsubscribed(drained);
      }
    }

    /** The end of `Dispose`: empties the rotation and the key map, then unsubscribes `Load` and `UnLoad`. */
    method Clear()
      requires Valid()
      modifies this, singletons, statics
      ensures Valid() && Instances == old(Instances) && singletons.Repr == old(singletons.Repr)
      ensures forall x :: x in Instances ==> x.IsDisposed == old(x.IsDisposed)
      ensures updateSingletons == [] && Contents() == map[] && singletons.pool == old(singletons.pool)
      ensures statics.Snap() == Unsubscribed(old(statics.Snap()))
    {
      updateSingletons := [];
      singletons.DictionaryClear();
      statics.OnLoadAssemblyEvent := RemoveLast(statics.OnLoadAssemblyEvent, SystemLoad);
      statics.OnUnLoadAssemblyEvent := RemoveLast(statics.OnUnLoadAssemblyEvent, SystemUnLoad);
    }

    /** The dictionary's enumeration order: every key once, in an order the dictionary does not promise. */
    method KeyOrder() returns (keys: seq<int>)
      requires Valid()
      ensures forall k :: k in keys <==> k in Contents()
      ensures forall j :: 0 <= j < |keys| ==> keys[j] in Contents()
      ensures forall i, j :: 0 <= i < j < |keys| ==> keys[i] != keys[j]
    {
      keys := [];
      var rest := singletons.buckets.Keys;
      while rest != {}
        invariant forall k :: k in keys || k in rest <==> k in singletons.buckets
        invariant forall k :: k in keys ==> k !in rest
        invariant forall i, j :: 0 <= i < j < |keys| ==> keys[i] != keys[j]
        decreases |rest|
      {
        EmptyOrMember(rest);
        var key :| key in rest;
        keys := keys + [key];
        rest := rest - {key};
      }
    }

    /** The `foreach` of `Dispose`: `UnLoad(queue)` on each group's queue, in the order `keys`. */
    method DrainAll(keys: seq<int>) returns (escaped: bool, ghost order: seq<int>)
      requires Valid()
      requires forall j :: 0 <= j < |keys| ==> keys[j] in Contents()
      requires forall i, j :: 0 <= i < j < |keys| ==> keys[i] != keys[j]
      modifies singletons.Repr, Instances, statics
      ensures Valid()
      ensures var m := old(Contents());
        var taken := Taken(m, order);
        && order <= keys
        && (forall j :: 0 <= j < |order| - 1 ==> !Escapes(m[order[j]]))
        && (escaped <==> order != [] && Escapes(m[order[|order| - 1]]))
        && (!escaped ==> order == keys)
        && (forall x :: x in Instances ==> x.IsDisposed == (old(x.IsDisposed) || DisposedIn(taken, x)))
        && Contents() == Remaining(m, order)
        && statics.Snap() == DisposedAll(old(statics.Snap()), taken)
    {
      ghost var m0 := Contents();
      ghost var was: map<Singleton, bool> := map x | x in Instances :: x.IsDisposed;
      var i;
      ghost var done;
      escaped, i, done := DrainKeys(keys, was);
      order := keys[..i];
      assert keys[..|keys|] == keys;
      assert forall j :: 0 <= j < |order| ==> order[j] == keys[j];
      forall x | x in Instances
        ensures x.IsDisposed == (old(x.IsDisposed) || DisposedIn(Taken(m0, order), x))
      {
        assert was[x] == old(x.IsDisposed);
      }
    }

    /** The loop of `DrainAll`: `i` groups of `keys` drained, what their drains took being `done`. */
    method DrainKeys(keys: seq<int>, ghost was: map<Singleton, bool>)
      returns (escaped: bool, i: nat, ghost done: seq<Option<Singleton>>)
      requires Valid() && Disposals(Instances, was, [])
      requires forall j :: 0 <= j < |keys| ==> keys[j] in Contents()
      requires forall i, j :: 0 <= i < j < |keys| ==> keys[i] != keys[j]
      modifies singletons.Repr, Instances, statics
      ensures Valid() && i <= |keys|
      ensures forall j :: 0 <= j < i - 1 ==> !Escapes(old(Contents())[keys[j]])
      ensures escaped ==> 0 < i && Escapes(old(Contents())[keys[i - 1]])
      ensures !escaped ==> i == |keys| && forall j :: 0 <= j < i ==> !Escapes(old(Contents())[keys[j]])
      ensures done == Taken(old(Contents()), keys[..i])
      ensures Contents() == Remaining(old(Contents()), keys[..i])
      ensures statics.Snap() == DisposedAll(old(statics.Snap()), done)
      ensures Disposals(Instances, was, done)
    {
      ghost var m0, s0 := Contents(), statics.Snap();
      escaped := false;
      i := 0;
      done := [];
      assert keys[..i] == [];
      while i < |keys|
        invariant 0 <= i <= |keys| && Valid()
        invariant forall j :: 0 <= j < |keys| ==> keys[j] in m0
        invariant forall j :: i <= j < |keys| ==> keys[j] in Contents() && Contents()[keys[j]] == m0[keys[j]]
        invariant forall j :: 0 <= j < i ==> !Escapes(m0[keys[j]])
        invariant done == Taken(m0, keys[..i])
        invariant Contents() == Remaining(m0, keys[..i])
        invariant statics.Snap() == DisposedAll(s0, done)
        invariant Disposals(Instances, was, done)
      {
        escaped, i, done := DrainKey(keys, i, m0, s0, was, done);
        if escaped {
          break;
        }
      }
    }

    /** One turn of the `foreach` of `Dispose`: drains the group `keys[i]`, leaving the later groups alone,
        and moves on to `next`. */
    method DrainKey(keys: seq<int>, i: nat, ghost m0: map<int, seq<Option<Singleton>>>, ghost s0: Snapshot, ghost was: map<Singleton, bool>,
                     ghost before: seq<Option<Singleton>>)
      returns (escaped: bool, next: nat, ghost after: seq<Option<Singleton>>)
      requires Valid() && i < |keys|
      requires forall j :: 0 <= j < |keys| ==> keys[j] in m0
      requires forall j :: i <= j < |keys| ==> keys[j] in Contents() && Contents()[keys[j]] == m0[keys[j]]
      requires forall i, j :: 0 <= i < j < |keys| ==> keys[i] != keys[j]
      requires forall j :: 0 <= j < i ==> !Escapes(m0[keys[j]])
      requires before == Taken(m0, keys[..i])
      requires Contents() == Remaining(m0, keys[..i])
      requires statics.Snap() == DisposedAll(s0, before)
      requires Disposals(Instances, was, before)
      modifies singletons.Repr, Instances, statics
      ensures Valid() && escaped == Escapes(m0[keys[i]]) && next == i + 1
      ensures !escaped ==> forall j :: 0 <= j < next ==> !Escapes(m0[keys[j]])
      ensures after == Taken(m0, keys[..next])
      ensures Contents() == Remaining(m0, keys[..next])
      ensures statics.Snap() == DisposedAll(s0, after)
      ensures Disposals(Instances, was, after)
      ensures forall j :: next <= j < |keys| ==> keys[j] in Contents() && Contents()[keys[j]] == m0[keys[j]]
    {
      next := i + 1;
      ghost var c := Contents();
      escaped := DrainGroup(keys[i]);
      LaterGroups(c, m0, keys, i, Contents()[keys[i]]);
      TakenStep(s0, m0, keys, i);
      ghost var d := Drained(m0[keys[i]]);
      after := before + d;
      DisposedInAppend(before, d);
      forall x | x in Instances
        ensures x in was && x.IsDisposed == (was[x] || DisposedIn(before + d, x))
      {
        assert old(x.IsDisposed) == (was[x] || DisposedIn(before, x));
      }
    }
  }

  /** Replacing the group `keys[i]` leaves the later groups of distinct `keys` as they were. */
  lemma LaterGroups(c: map<int, seq<Option<Singleton>>>, m0: map<int, seq<Option<Singleton>>>, keys: seq<int>, i: nat, v: seq<Option<Singleton>>)
    requires i < |keys|
    requires forall j :: 0 <= j < |keys| ==> keys[j] in m0
    requires forall j :: i <= j < |keys| ==> keys[j] in c && c[keys[j]] == m0[keys[j]]
    requires forall a, b :: 0 <= a < b < |keys| ==> keys[a] != keys[b]
    ensures forall j :: i < j < |keys| ==> keys[j] in c[keys[i] := v] && c[keys[i] := v][keys[j]] == m0[keys[j]]
  {
  }

  /** An instance's `Dispose` completed for one of `a + b` iff it did for one of `a` or one of `b`. */
  lemma DisposedInAppend(a: seq<Option<Singleton>>, b: seq<Option<Singleton>>)
    ensures forall x :: DisposedIn(a + b, x) <==> DisposedIn(a, x) || DisposedIn(b, x)
  {
  }

  /** The values the drains of `Dispose` take, group by group in `order`. */
  function Taken(m: map<int, seq<Option<Singleton>>>, order: seq<int>): seq<Option<Singleton>>
    decreases |order|
  {
    if order == [] then [] else Taken(m, order[..|order| - 1]) + Drained(QueueAt(m, order[|order| - 1]))
  }

  /** What the drains of `Dispose` leave filed, group by group in `order`: each group keeps what its drain did not take. */
  function Remaining(m: map<int, seq<Option<Singleton>>>, order: seq<int>): map<int, seq<Option<Singleton>>>
    decreases |order|
  {
    if order == [] then m
    else
      var k := order[|order| - 1];
      var vs := QueueAt(m, k);
      Remaining(m, order[..|order| - 1])[k := vs[|Drained(vs)|..]]
  }

  /**
   * After the drains in `order`, every key is still filed: a group drained
   * without an escape is left empty, a drained group keeps the values after
   * the one whose disposal escaped, and a group not in `order` is untouched.
   */
  lemma {:induction false} RemainingAt(m: map<int, seq<Option<Singleton>>>, order: seq<int>)
    requires forall j :: 0 <= j < |order| ==> order[j] in m
    ensures Remaining(m, order).Keys == m.Keys
    ensures forall k :: k in m && k !in order ==> Remaining(m, order)[k] == m[k]
    ensures forall j :: 0 <= j < |order| ==>
      Remaining(m, order)[order[j]] == m[order[j]][|Drained(m[order[j]])|..]
    ensures forall j :: 0 <= j < |order| && !Escapes(m[order[j]]) ==> Remaining(m, order)[order[j]] == []
    decreases |order|
  {
    if order != [] {
      var init, last := order[..|order| - 1], order[|order| - 1];
      assert forall j :: 0 <= j < |init| ==> init[j] == order[j];
      RemainingAt(m, init);
      forall j | 0 <= j < |order|
        ensures Remaining(m, order)[order[j]] == m[order[j]][|Drained(m[order[j]])|..]
      {
        if j < |order| - 1 {
          assert order[j] == init[j];
        }
      }
      forall k | k in m && k !in order
        ensures Remaining(m, order)[k] == m[k]
      {
        assert k != last;
      }
      forall j | 0 <= j < |order| && !Escapes(m[order[j]])
        ensures Remaining(m, order)[order[j]] == []
      {
        DrainedAll(m[order[j]]);
      }
    }
  }

  /** The static fields after `Dispose` removes the scheduler's own `Load` and `UnLoad` subscriptions. */
  function Unsubscribed(s: Snapshot): Snapshot {
    s.(onLoad := RemoveLast(s.onLoad, SystemLoad), onUnLoad := RemoveLast(s.onUnLoad, SystemUnLoad))
  }

  /** One more drained group, seen on the values taken and on the static fields. */
  lemma TakenStep(s: Snapshot, m: map<int, seq<Option<Singleton>>>, keys: seq<int>, i: nat)
    requires i < |keys| && keys[i] in m
    ensures keys[..i + 1][..i] == keys[..i] && keys[..i + 1][i] == keys[i]
    ensures forall k :: k in keys[..i + 1] <==> k in keys[..i] || k == keys[i]
    ensures Taken(m, keys[..i + 1]) == Taken(m, keys[..i]) + Drained(m[keys[i]])
    ensures Remaining(m, keys[..i + 1]) == Remaining(m, keys[..i])[keys[i] := m[keys[i]][|Drained(m[keys[i]])|..]]
    ensures DisposedAll(s, Taken(m, keys[..i + 1])) == DisposedAll(DisposedAll(s, Taken(m, keys[..i])), Drained(m[keys[i]]))
  {
    assert keys[..i + 1] == keys[..i] + [keys[i]];
    DisposedAllAppend(s, Taken(m, keys[..i]), Drained(m[keys[i]]));
  }

  /** A set is empty or has a member. */
  lemma EmptyOrMember(s: set<int>)
    ensures s == {} || exists k :: k in s
  {
    if forall k :: k !in s {
      assert s == {};
    }
  }

  /** Disposing `a + b` is disposing `a`, then `b`. */
  lemma {:induction false} DisposedAllAppend(s: Snapshot, a: seq<Option<Singleton>>, b: seq<Option<Singleton>>)
    ensures DisposedAll(s, a + b) == DisposedAll(DisposedAll(s, a), b)
    decreases |b|
  {
    if b == [] {
      assert a + b == a;
    } else {
      var init := b[..|b| - 1];
      assert (a + b)[..|a + b| - 1] == a + init && (a + b)[|a + b| - 1] == b[|b| - 1];
      DisposedAllAppend(s, a, init);
    }
  }

  /**
   * The loop of `Update`: takes `updateCount` entries off the front of the
   * rotation; a disposed one is dropped, a live one is put back at the end
   * and its `Update` runs. A GameFrameworkException from `Update` is caught;
   * any other exception ends the frame. `gone` is the set of disposed
   * entries; `updated` lists the instances whose `Update` ran, in order.
   */
  method Rotate(updateSingletons: seq<Singleton>, ghost gone: set<Singleton>)
      returns (rotation: seq<Singleton>, updated: seq<Singleton>, escaped: bool)
    requires forall j :: 0 <= j < |updateSingletons| ==> (updateSingletons[j] in gone <==> updateSingletons[j].IsDisposed)
    ensures var n := Visited(updateSingletons, gone);
      && updated == Live(updateSingletons[..n], gone)
      && rotation == updateSingletons[n..] + updated
    ensures escaped <==> exists j :: 0 <= j < |updateSingletons| && UpdateEscapes(updateSingletons[j], gone)
  {
    escaped := false;
    ghost var rot := updateSingletons;
    ghost var i := 0;
    updated := [];
    rotation := updateSingletons;
    var updateCount := |rotation|;
    while updateCount > 0
      invariant 0 <= i <= |rot| && i + updateCount == |rot|
      invariant updated == Live(rot[..i], gone)
      invariant rotation == rot[i..] + updated
      invariant forall j :: 0 <= j < i ==> !UpdateEscapes(rot[j], gone)
    {
      updateCount := updateCount - 1;
      var updateSingleton := rotation[0];
      rotation := rotation[1..];
      RotateStep(rot, gone, i);
      assert updateSingleton == rot[i] && rotation == rot[i + 1..] + updated;
      i := i + 1;
      if !updateSingleton.IsDisposed {
        rotation := rotation + [updateSingleton];
        updated := updated + [updateSingleton];
        if updateSingleton.Type.updateFault == OtherFault {
          VisitedAt(rot, gone, i - 1);
          escaped := true;
          return;
        }
      }
    }
    VisitedAt(rot, gone, i);
    assert rot[..i] == rot;
  }

  /** Every stored instance of a drained queue has a `DisposeCalled` entry. */
  lemma {:induction false} DisposeTraceMentions(vs: seq<Option<Singleton>>)
    ensures forall x :: Some(x) in vs ==> DisposeCalled(x) in DisposeTrace(vs)
    decreases |vs|
  {
    if vs != [] {
      var init := vs[..|vs| - 1];
      DisposeTraceMentions(init);
      assert vs == init + [vs[|vs| - 1]];
    }
  }

  /** Every instance stored under a key of `order` is among the values its drains take. */
  lemma {:induction false} TakenMentions(m: map<int, seq<Option<Singleton>>>, order: seq<int>)
    requires forall k :: k in order ==> k in m
    requires forall k :: k in order ==> !Escapes(m[k])
    ensures forall k, x :: k in order && Some(x) in m[k] ==> Some(x) in Taken(m, order)
    decreases |order|
  {
    if order != [] {
      var init := order[..|order| - 1];
      var last := order[|order| - 1];
      assert order == init + [last];
      TakenMentions(m, init);
      DrainedAll(m[last]);
    }
  }

  /**
   * What a `Dispose` that no exception escapes leaves in the static fields:
   * every stored instance was asked to dispose itself, and the scheduler's
   * own `Load` and `UnLoad` subscriptions lost one occurrence each while
   * the reload event was left alone.
   */
  lemma DisposeEffect(s: Snapshot, m: map<int, seq<Option<Singleton>>>, order: seq<int>)
    requires forall k :: k in order <==> k in m
    requires forall k :: k in order ==> !Escapes(m[k])
    ensures var after := Unsubscribed(DisposedAll(s, Taken(m, order)));
      && (forall k, x :: k in m && Some(x) in m[k] ==> DisposeCalled(x) in after.trace)
      && SystemHandlers(after.onLoad) == RemoveLast(SystemHandlers(s.onLoad), SystemLoad)
      && SystemHandlers(after.onUnLoad) == RemoveLast(SystemHandlers(s.onUnLoad), SystemUnLoad)
      && after.onReLoad == s.onReLoad
  {
    var taken := Taken(m, order);
    var mid := DisposedAll(s, taken);
    TakenMentions(m, order);
    DisposedAllTrace(s, taken);
    DisposeTraceMentions(taken);
    DisposedAllKeepsSystem(s, taken);
    RemoveSystemCommutes(mid.onLoad, SystemLoad);
    RemoveSystemCommutes(mid.onUnLoad, SystemUnLoad);
  }
}
