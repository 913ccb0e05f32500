/**
 * AssemblyManager: the registry of loaded groups. It maps an integer group
 * key to one AssemblyInfo snapshot, raises the unload, load and reload
 * notifications on the three static events, and answers queries over the
 * groups by key and by capability.
 *
 * The dictionary only ever gains keys (`Add`) or loses all of them
 * (`Clear`), so it enumerates in insertion order; `order` records it.
 * A notification is modelled as a `Fired` trace entry, written when the
 * event has at least one subscriber (a C# event with none is null).
 */
module Registry {
  import opened Wrappers
  import opened Reflection
  import opened Assemblies
  import opened Statics

  /** What one AssemblyInfo holds. */
  datatype Entry = Entry(assembly: Option<Assembly>, typeList: seq<TypeDesc>, typeGroups: CapabilityIndex)

  /** The registry's contents: the keys in enumeration order, and each key's snapshot. */
  datatype View = View(order: seq<int>, groups: map<int, Entry>)

  /** Every key is enumerated exactly once. */
  ghost predicate WellFormedView(v: View) {
    && (forall k :: k in v.order <==> k in v.groups)
    && (forall i, j :: 0 <= i < j < |v.order| ==> v.order[i] != v.order[j])
  }

  /** The snapshot a fresh `LoadAssembly(k, asm)` or a reload leaves under `k`. */
  function LoadedEntry(asm: Assembly): Entry {
    Entry(Some(asm), asm.types, Indexed(map[], asm.types))
  }

  // ---------------------------------------------------------------------------
  // The queries

  /** `ForeachAssemblyName`: every registered key, once each. */
  function ForeachAssemblyName(v: View): (names: seq<int>)
    requires WellFormedView(v)
    ensures forall k :: k in names <==> k in v.groups
    ensures forall i, j :: 0 <= i < j < |names| ==> names[i] != names[j]
    ensures |names| == |v.groups.Keys|
  {
    DistinctCard(v.order, v.groups.Keys);
    v.order
  }

  /** A second update of the same key overrides the first. */
  lemma UpdateTwice(m: map<int, Entry>, k: int, a: Entry, b: Entry)
    ensures m[k := a][k := b] == m[k := b]
  {
  }

  /** The snapshot under `k`, or an empty one when `k` is not a key. */
  function EntryAt(groups: map<int, Entry>, k: int): Entry {
    if k in groups then groups[k] else Entry(None, [], map[])
  }

  /** `Foreach()`: the type lists of the groups `keys`, one after another. */
  function AllTypes(groups: map<int, Entry>, keys: seq<int>): seq<TypeDesc>
    decreases |keys|
  {
    if keys == [] then []
    else AllTypes(groups, keys[..|keys| - 1]) + EntryAt(groups, keys[|keys| - 1]).typeList
  }

  /** `Foreach(assemblyName)`: the group's type list; nothing for an unknown key. */
  function ForeachIn(v: View, k: int): seq<TypeDesc> {
    EntryAt(v.groups, k).typeList
  }

  /**
   * `Foreach(findType)`: the implementers of `c` group by group, in
   * enumeration order, stopping altogether at the first group whose index
   * has no entry for `c`.
   */
  function ForeachCapability(groups: map<int, Entry>, keys: seq<int>, c: TypeName): seq<TypeDesc>
    decreases |keys|
  {
    if keys == [] then []
    else if c !in EntryAt(groups, keys[0]).typeGroups then []
    else EntryAt(groups, keys[0]).typeGroups[c] + ForeachCapability(groups, keys[1..], c)
  }

  /** `Foreach(assemblyName, findType)`: nothing for an unknown key or an unknown capability. */
  function ForeachOf(v: View, k: int, c: TypeName): seq<TypeDesc> {
    if k !in v.groups || c !in v.groups[k].typeGroups then [] else v.groups[k].typeGroups[c]
  }

  /** `GetAssembly`: null for an unknown key, else the group's `Assembly`. */
  function GetAssembly(v: View, k: int): Option<Assembly> {
    if k in v.groups then v.groups[k].assembly else None
  }

  // ---------------------------------------------------------------------------
  // Reference definitions and the lemmas that tie the queries to them

  /** Group `k` has an entry for `c`. */
  predicate Offers(groups: map<int, Entry>, k: int, c: TypeName) {
    c in EntryAt(groups, k).typeGroups
  }

  /** How many leading groups of `keys` have an entry for `c`. */
  function Reached(groups: map<int, Entry>, keys: seq<int>, c: TypeName): (n: nat)
    ensures n <= |keys|
    ensures forall j :: 0 <= j < n ==> Offers(groups, keys[j], c)
    ensures n < |keys| ==> !Offers(groups, keys[n], c)
    decreases |keys|
  {
    if keys == [] || !Offers(groups, keys[0], c) then 0 else 1 + Reached(groups, keys[1..], c)
  }

  /** `Reached` is the first position whose group lacks `c`, or the length when none does. */
  lemma ReachedAt(groups: map<int, Entry>, keys: seq<int>, c: TypeName, n: nat)
    requires n <= |keys|
    requires forall j :: 0 <= j < n ==> Offers(groups, keys[j], c)
    requires n < |keys| ==> !Offers(groups, keys[n], c)
    ensures Reached(groups, keys, c) == n
  {
  }

  /** The implementers of `c` in each of the groups `keys`, one group after another. */
  function Implementing(groups: map<int, Entry>, keys: seq<int>, c: TypeName): seq<TypeDesc>
    decreases |keys|
  {
    if keys == [] then []
    else Implementing(groups, keys[..|keys| - 1], c) + Lookup(EntryAt(groups, keys[|keys| - 1]).typeGroups, c)
  }

  /** `Implementing` of a list with one more key at the end. */
  lemma ImplementingSnoc(groups: map<int, Entry>, keys: seq<int>, k: int, c: TypeName)
    ensures Implementing(groups, keys + [k], c) == Implementing(groups, keys, c) + Lookup(EntryAt(groups, k).typeGroups, c)
  {
    assert (keys + [k])[..|keys|] == keys;
  }

  /** `Implementing` of a list with one more key at the front. */
  lemma {:induction false} ImplementingCons(groups: map<int, Entry>, k: int, keys: seq<int>, c: TypeName)
    ensures Implementing(groups, [k] + keys, c) == Lookup(EntryAt(groups, k).typeGroups, c) + Implementing(groups, keys, c)
    decreases |keys|
  {
    if keys == [] {
      assert [k] + keys == [] + [k];
      ImplementingSnoc(groups, [], k, c);
    } else {
      var init := keys[..|keys| - 1];
      var last := keys[|keys| - 1];
      var front, back := Lookup(EntryAt(groups, k).typeGroups, c), Lookup(EntryAt(groups, last).typeGroups, c);
      calc {
        Implementing(groups, [k] + keys, c);
      == { assert [k] + keys == ([k] + init) + [last]; ImplementingSnoc(groups, [k] + init, last, c); }
        Implementing(groups, [k] + init, c) + back;
      == { ImplementingCons(groups, k, init, c); }
        (front + Implementing(groups, init, c)) + back;
      ==
        front + (Implementing(groups, init, c) + back);
      == { assert keys == init + [last]; ImplementingSnoc(groups, init, last, c); }
        front + Implementing(groups, keys, c);
      }
    }
  }

  /**
   * The cross-group query lists exactly the implementers of `c` in the
   * groups before the first one that lacks `c`; the groups from that one on
   * are never searched.
   */
  lemma {:induction false} ForeachCapabilityStops(groups: map<int, Entry>, keys: seq<int>, c: TypeName)
    ensures ForeachCapability(groups, keys, c) == Implementing(groups, keys[..Reached(groups, keys, c)], c)
    decreases |keys|
  {
    var n := Reached(groups, keys, c);
    if keys == [] || !Offers(groups, keys[0], c) {
      assert keys[..n] == [];
    } else {
      var rest := keys[1..];
      ForeachCapabilityStops(groups, rest, c);
      assert keys[..n] == [keys[0]] + rest[..n - 1];
      ImplementingCons(groups, keys[0], rest[..n - 1], c);
    }
  }

  /** When every group has an entry for `c`, the cross-group query lists every group's implementers. */
  lemma ForeachCapabilityComplete(groups: map<int, Entry>, keys: seq<int>, c: TypeName)
    requires forall j :: 0 <= j < |keys| ==> Offers(groups, keys[j], c)
    ensures ForeachCapability(groups, keys, c) == Implementing(groups, keys, c)
  {
    ForeachCapabilityStops(groups, keys, c);
    ReachedAt(groups, keys, c, |keys|);
    assert keys[..|keys|] == keys;
  }

  /** A group that lacks `c` hides every group after it: those can hold anything. */
  lemma ForeachCapabilityIgnoresLater(groups: map<int, Entry>, keys: seq<int>, later: seq<int>, c: TypeName)
    requires exists j :: 0 <= j < |keys| && !Offers(groups, keys[j], c)
    ensures ForeachCapability(groups, keys + later, c) == ForeachCapability(groups, keys, c)
  {
    var all := keys + later;
    var n := Reached(groups, keys, c);
    var i :| 0 <= i < |keys| && !Offers(groups, keys[i], c);
    assert n <= i;
    assert forall j :: 0 <= j <= n ==> all[j] == keys[j];
    ReachedAt(groups, all, c, n);
    assert all[..n] == keys[..n];
    ForeachCapabilityStops(groups, all, c);
    ForeachCapabilityStops(groups, keys, c);
  }

  /** `Foreach()` over one more group: that group's type list comes after all the earlier ones, in order. */
  lemma AllTypesSnoc(groups: map<int, Entry>, keys: seq<int>, k: int)
    ensures AllTypes(groups, keys + [k]) == AllTypes(groups, keys) + EntryAt(groups, k).typeList
  {
    assert (keys + [k])[..|keys|] == keys;
  }

  /** `Foreach()` with one more group in front: that group's type list comes first, in order. */
  lemma {:induction false} AllTypesCons(groups: map<int, Entry>, k: int, keys: seq<int>)
    ensures AllTypes(groups, [k] + keys) == EntryAt(groups, k).typeList + AllTypes(groups, keys)
    decreases |keys|
  {
    if keys == [] {
      assert [k] + keys == [] + [k];
      AllTypesSnoc(groups, [], k);
    } else {
      var init := keys[..|keys| - 1];
      var last := keys[|keys| - 1];
      assert [k] + keys == ([k] + init) + [last];
      AllTypesSnoc(groups, [k] + init, last);
      AllTypesCons(groups, k, init);
      assert keys == init + [last];
      AllTypesSnoc(groups, init, last);
    }
  }

  /** `Foreach()` lists each type of each group, and nothing else. */
  lemma {:induction false} AllTypesMembers(groups: map<int, Entry>, keys: seq<int>, t: TypeDesc)
    ensures t in AllTypes(groups, keys) <==> exists k :: k in keys && t in EntryAt(groups, k).typeList
    decreases |keys|
  {
    if keys != [] {
      var init := keys[..|keys| - 1];
      var last := keys[|keys| - 1];
      assert keys == init + [last];
      AllTypesMembers(groups, init, t);
      if t in EntryAt(groups, last).typeList {
        assert last in keys;
      }
      if exists k :: k in keys && t in EntryAt(groups, k).typeList {
        var k :| k in keys && t in EntryAt(groups, k).typeList;
        if k != last {
          assert k in init;
        }
      }
    }
  }

  /** A list without repeats has as many elements as the set it enumerates. */
  lemma {:induction false} DistinctCard(xs: seq<int>, s: set<int>)
    requires forall k :: k in xs <==> k in s
    requires forall i, j :: 0 <= i < j < |xs| ==> xs[i] != xs[j]
    ensures |xs| == |s|
    decreases |xs|
  {
    if xs == [] {
      var e: set<int> := {};
      assert s == e by {
        forall k
          ensures k in s <==> k in e
        {
          assert k in xs <==> k in s;
        }
      }
    } else {
      var init := xs[..|xs| - 1];
      var last := xs[|xs| - 1];
      assert xs == init + [last];
      forall i | 0 <= i < |init|
        ensures init[i] != last
      {
        assert init[i] == xs[i];
      }
      forall i, j | 0 <= i < j < |init|
        ensures init[i] != init[j]
      {
        assert init[i] == xs[i] && init[j] == xs[j];
      }
      forall k
        ensures k in init <==> k in s - {last}
      {
        assert k in xs <==> k in init || k == last;
      }
      DistinctCard(init, s - {last});
      assert s == (s - {last}) + {last};
    }
  }

  // ---------------------------------------------------------------------------
  // Unsubscribing every delegate of an event (Dispose)

  /** `event -= d` for each `d` of `ds`, first to last. */
  function RemoveEach(hs: seq<Handler>, ds: seq<Handler>): seq<Handler>
    decreases |ds|
  {
    if ds == [] then hs else RemoveLast(RemoveEach(hs, ds[..|ds| - 1]), ds[|ds| - 1])
  }

  /** Removing each of `ds` takes away exactly the multiset of `ds`. */
  lemma {:induction false} RemoveEachCount(hs: seq<Handler>, ds: seq<Handler>)
    requires multiset(ds) <= multiset(hs)
    ensures multiset(RemoveEach(hs, ds)) == multiset(hs) - multiset(ds)
    decreases |ds|
  {
    if ds != [] {
      var init := ds[..|ds| - 1];
      var last := ds[|ds| - 1];
      assert ds == init + [last];
      assert multiset(ds) == multiset(init) + multiset{last};
      RemoveEachCount(hs, init);
      RemoveLastRemovesOne(RemoveEach(hs, init), last);
    }
  }

  /** Unsubscribing every delegate of the invocation list leaves the event without subscribers. */
  lemma RemoveEachOwn(hs: seq<Handler>)
    ensures RemoveEach(hs, hs) == []
  {
    RemoveEachCount(hs, hs);
    var r := RemoveEach(hs, hs);
    assert |multiset(r)| == |r|;
  }

  /** The loop `foreach (var d in ev.GetInvocationList()) ev -= d;` on a subscription list. */
  method UnsubscribeAll(hs: seq<Handler>) returns (r: seq<Handler>)
    ensures r == RemoveEach(hs, hs) && r == []
  {
    var invocationList := hs;
    r := hs;
    var i := 0;
    while i < |invocationList|
      invariant 0 <= i <= |invocationList|
      invariant r == RemoveEach(hs, invocationList[..i])
    {
      assert invocationList[..i + 1][..i] == invocationList[..i];
      r := RemoveLast(r, invocationList[i]);
      i := i + 1;
    }
    assert invocationList[..i] == hs;
    RemoveEachOwn(hs);
  }

  // ---------------------------------------------------------------------------
  // The registry

  /** One notification, raised only when `b` holds (the event has subscribers). */
  function Raised(b: bool, e: TraceEvent): seq<TraceEvent> {
    if b then [e] else []
  }

  /** The notifications `LoadAssembly(k, …)` raises, given the subscriptions at the start of the call. */
  function Notifications(isReload: bool, s: Snapshot, k: int): seq<TraceEvent> {
    Raised(isReload && s.onUnLoad != [], Fired(UnLoadEvent, k))
    + Raised(s.onLoad != [], Fired(LoadEvent, k))
    + Raised(isReload && s.onReLoad != [], Fired(ReLoadEvent, k))
  }

  /** A first load raises the load notification alone; a reload raises unload, load and reload, in that order. */
  lemma NotificationOrder(s: Snapshot, k: int)
    requires s.onLoad != [] && s.onUnLoad != [] && s.onReLoad != []
    ensures Notifications(false, s, k) == [Fired(LoadEvent, k)]
    ensures Notifications(true, s, k) == [Fired(UnLoadEvent, k), Fired(LoadEvent, k), Fired(ReLoadEvent, k)]
    ensures forall b: bool, e :: e in Notifications(b, s, k) ==> e.Fired? && e.key == k
  {
  }

  class AssemblyManager {
    /** `AssemblyList`. */
    var assemblyList: map<int, AssemblyInfo>
    /** The keys of `AssemblyList` in the order the dictionary enumerates them. */
    var order: seq<int>
    /** The three events live among the static fields shared with the scheduler. */
    const statics: StaticFields
    /** The snapshots this registry owns. */
    ghost var Repr: set<AssemblyInfo>

    ghost predicate Valid()
      reads this, Repr
    {
      && (forall k :: k in order <==> k in assemblyList)
      && (forall j :: 0 <= j < |order| ==> order[j] in assemblyList)
      && (forall i, j :: 0 <= i < j < |order| ==> order[i] != order[j])
      && (forall k :: k in assemblyList ==> assemblyList[k] in Repr && assemblyList[k].Valid())
      && (forall k, k' :: k in assemblyList && k' in assemblyList && k != k' ==> assemblyList[k] != assemblyList[k'])
    }

    /** The registry's contents. */
    function Contents(): (v: View)
      reads this, Repr
      requires Valid()
      ensures WellFormedView(v)
    {
      View(order, map k | k in assemblyList :: Entry(assemblyList[k].assembly, assemblyList[k].typeList, assemblyList[k].typeGroups))
    }

    constructor (g: StaticFields)
      ensures Valid() && Contents() == View([], map[]) && statics == g
    {
      assemblyList := map[];
      order := [];
      statics := g;
      Repr := {};
    }

    /**
     * Creates the group's snapshot on first sight, or clears the existing
     * one and raises the unload notification; loads `asm` into it; raises
     * the load notification, and the reload notification on a reload.
     */
    method LoadAssembly(assemblyName: int, asm: Assembly)
      requires Valid()
      modifies this, Repr, statics
      ensures Valid() && fresh(Repr - old(Repr))
      ensures var isReload := assemblyName in old(Contents()).groups;
        && Contents().order == old(Contents()).order + (if isReload then [] else [assemblyName])
        && Contents().groups == old(Contents()).groups[assemblyName := LoadedEntry(asm)]
        && statics.Snap() == old(statics.Snap()).(trace := old(statics.trace) + Notifications(isReload, old(statics.Snap()), assemblyName))
    {
      ghost var s0 := statics.Snap();
      var isReload := Open(assemblyName, asm);
      RaiseLoaded(assemblyName, isReload);
      ghost var u, l, r := Raised(isReload && s0.onUnLoad != [], Fired(UnLoadEvent, assemblyName)),
        Raised(s0.onLoad != [], Fired(LoadEvent, assemblyName)), Raised(isReload && s0.onReLoad != [], Fired(ReLoadEvent, assemblyName));
      assert statics.trace == s0.trace + u + l + r;
      ConcatAssoc(s0.trace, u, l);
      ConcatAssoc(s0.trace, u + l, r);
    }

    /** The part of `LoadAssembly` up to and including `Load`: files and loads the snapshot. */
    method Open(assemblyName: int, asm: Assembly) returns (isReload: bool)
      requires Valid()
      modifies this, Repr, statics
      ensures Valid() && fresh(Repr - old(Repr))
      ensures isReload == (assemblyName in old(Contents()).groups)
      ensures Contents().order == old(Contents()).order + (if isReload then [] else [assemblyName])
      ensures Contents().groups == old(Contents()).groups[assemblyName := LoadedEntry(asm)]
      ensures statics.Snap() == old(statics.Snap()).(trace := old(statics.trace) + Raised(isReload && old(statics.OnUnLoadAssemblyEvent) != [], Fired(UnLoadEvent, assemblyName)))
    {
      isReload := false;
      if assemblyName !in assemblyList {
        Create(assemblyName, asm);
      } else {
        isReload := true;
        Reopen(assemblyName, asm);
      }
    }

    /** The tail of `LoadAssembly`: the load notification, and the reload notification on a reload. */
    method RaiseLoaded(assemblyName: int, isReload: bool)
      modifies statics
      ensures statics.Snap() == old(statics.Snap()).(trace := old(statics.trace)
        + Raised(old(statics.OnLoadAssemblyEvent) != [], Fired(LoadEvent, assemblyName))
        + Raised(isReload && old(statics.OnReLoadAssemblyEvent) != [], Fired(ReLoadEvent, assemblyName)))
    {
      if statics.OnLoadAssemblyEvent != [] {
        statics.Record(Fired(LoadEvent, assemblyName));
      }
      if isReload && statics.OnReLoadAssemblyEvent != [] {
        statics.Record(Fired(ReLoadEvent, assemblyName));
      }
    }

    /** The first-sight branch of `LoadAssembly`: a new snapshot is filed under the key and loaded with `asm`. */
    method Create(assemblyName: int, asm: Assembly)
      requires Valid() && assemblyName !in assemblyList
      modifies this
      ensures Valid() && fresh(Repr - old(Repr))
      ensures Contents().order == old(Contents()).order + [assemblyName]
      ensures Contents().groups == old(Contents()).groups[assemblyName := LoadedEntry(asm)]
    {
      ghost var v0 := Contents();
      var assemblyInfo := new AssemblyInfo();
      Insert(assemblyName, assemblyInfo);
      Fill(assemblyName, asm);
      UpdateTwice(v0.groups, assemblyName, Entry(None, [], map[]), LoadedEntry(asm));
    }

    /** `AssemblyList.Add(k, info)` for a fresh, empty snapshot. */
    method Insert(k: int, info: AssemblyInfo)
      requires Valid() && k !in assemblyList && info !in Repr
      requires info.Valid() && info.assembly == None && info.typeList == [] && info.typeGroups == map[]
      modifies this
      ensures Valid() && Repr == old(Repr) + {info} && assemblyList == old(assemblyList)[k := info]
      ensures Contents().order == old(Contents()).order + [k]
      ensures Contents().groups == old(Contents()).groups[k := Entry(None, [], map[])]
    {
      ghost var v0 := Contents();
      assemblyList := assemblyList[k := info];
      order := order + [k];
      Repr := Repr + {info};
      assert Valid();
      ghost var w := Contents().groups;
      ghost var e := v0.groups[k := Entry(None, [], map[])];
      assert w.Keys == e.Keys;
      forall k' | k' in w
        ensures w[k'] == e[k']
      {
        if k' != k {
          assert assemblyList[k'] == old(assemblyList[k']);
        }
      }
    }

    /**
     * The reload branch of `LoadAssembly`: clears the key's snapshot, raises
     * the unload notification, then loads `asm` into the same snapshot.
     */
    method Reopen(assemblyName: int, asm: Assembly)
      requires Valid() && assemblyName in assemblyList
      modifies Repr, statics
      ensures Valid()
      ensures Contents().groups == old(Contents()).groups[assemblyName := LoadedEntry(asm)]
      ensures statics.Snap() == old(statics.Snap()).(trace := old(statics.trace) + Raised(old(statics.OnUnLoadAssemblyEvent) != [], Fired(UnLoadEvent, assemblyName)))
    {
      ghost var v0 := Contents();
      Clear(assemblyName);
      ghost var v1 := Contents();
      if statics.OnUnLoadAssemblyEvent != [] {
        statics.Record(Fired(UnLoadEvent, assemblyName));
      }
      assert Valid() && Contents() == v1;
      Fill(assemblyName, asm);
      UpdateTwice(v0.groups, assemblyName, v1.groups[assemblyName], LoadedEntry(asm));
    }

    /** `UnLoad` on the snapshot under `k`: it keeps its assembly and loses its types. */
    method Clear(k: int)
      requires Valid() && k in assemblyList
      modifies assemblyList[k]
      ensures Valid()
      ensures Contents().groups == old(Contents()).groups[k := Entry(old(assemblyList[k].assembly), [], map[])]
    {
      ghost var v0 := Contents();
      assemblyList[k].UnLoad();
      forall k' | k' in assemblyList && k' != k
        ensures assemblyList[k'].Valid()
      {
        assert unchanged(assemblyList[k']);
      }
      assert Valid();
      ghost var w := Contents().groups;
      ghost var e := v0.groups[k := Entry(old(assemblyList[k].assembly), [], map[])];
      assert w.Keys == e.Keys;
      forall k' | k' in w
        ensures w[k'] == e[k']
      {
        if k' != k {
          assert unchanged(assemblyList[k']);
        }
      }
    }

    /** `Load(asm)` on the empty snapshot under `k`: it now holds exactly `asm`. */
    method Fill(k: int, asm: Assembly)
      requires Valid() && k in assemblyList
      requires assemblyList[k].typeList == [] && assemblyList[k].typeGroups == map[]
      modifies assemblyList[k]
      ensures Valid()
      ensures Contents().groups == old(Contents()).groups[k := LoadedEntry(asm)]
    {
      ghost var v0 := Contents();
      assemblyList[k].Load(asm);
      assert [] + asm.types == asm.types;
      forall k' | k' in assemblyList && k' != k
        ensures assemblyList[k'].Valid()
      {
        assert unchanged(assemblyList[k']);
      }
      assert Valid();
      ghost var w := Contents().groups;
      ghost var e := v0.groups[k := LoadedEntry(asm)];
      assert w.Keys == e.Keys;
      forall k' | k' in w
        ensures w[k'] == e[k']
      {
        if k' != k {
          assert unchanged(assemblyList[k']);
        }
      }
    }

    /**
     * Unloads every snapshot, empties the map and unsubscribes every delegate
     * of the three events, which end without subscribers.
     */
    method Dispose()
      requires Valid()
      modifies this, Repr, statics
      ensures Valid() && Contents() == View([], map[]) && Repr == {}
      ensures forall k :: k in old(assemblyList) ==> old(assemblyList)[k].typeList == [] && old(assemblyList)[k].typeGroups == map[]
      ensures statics.Snap() == old(statics.Snap()).(onLoad := [], onUnLoad := [], onReLoad := [])
    {
      UnLoadAll();
      assemblyList := map[];
      order := [];
      Repr := {};
      var onLoad := UnsubscribeAll(statics.OnLoadAssemblyEvent);
      statics.OnLoadAssemblyEvent := onLoad;
      var onUnLoad := UnsubscribeAll(statics.OnUnLoadAssemblyEvent);
      statics.OnUnLoadAssemblyEvent := onUnLoad;
      var onReLoad := UnsubscribeAll(statics.OnReLoadAssemblyEvent);
      statics.OnReLoadAssemblyEvent := onReLoad;
      statics.OnLoadAssemblyEvent := [];
      statics.OnUnLoadAssemblyEvent := [];
      statics.OnReLoadAssemblyEvent := [];
    }

    /** The first loop of `Dispose`: `UnLoad` on every snapshot. */
    method UnLoadAll()
      requires Valid()
      modifies Repr
      ensures Valid()
      ensures forall k :: k in assemblyList ==> assemblyList[k].typeList == [] && assemblyList[k].typeGroups == map[]
    {
      var i := 0;
      while i < |order|
        invariant 0 <= i <= |order| && Valid()
        invariant forall j :: 0 <= j < |order| ==> order[j] in assemblyList
        invariant forall k :: k in assemblyList ==> assemblyList[k] in Repr
        invariant forall j :: 0 <= j < i ==> assemblyList[order[j]].typeList == [] && assemblyList[order[j]].typeGroups == map[]
      {
        assemblyList[order[i]].UnLoad();
        i := i + 1;
      }
      forall k | k in assemblyList
        ensures assemblyList[k].typeList == [] && assemblyList[k].typeGroups == map[]
      {
        var j :| 0 <= j < |order| && order[j] == k;
      }
    }
  }

  /** After `LoadAssembly(k, asm)` the key's queries see exactly `asm`: no leftovers from an earlier version. */
  lemma LoadedQueries(v: View, k: int, asm: Assembly, c: TypeName)
    requires forall t :: t in asm.types ==> WellFormed(t)
    ensures var after := View(v.order, v.groups[k := LoadedEntry(asm)]);
      && ForeachIn(after, k) == asm.types
      && ForeachOf(after, k, c) == Implementers(asm.types, c)
      && GetAssembly(after, k) == Some(asm)
  {
    FreshLoad(asm, c);
  }

  /** A second `Dispose` finds nothing to unload or unsubscribe and leaves the same state. */
  method DisposeTwice(m: AssemblyManager)
    requires m.Valid()
    modifies m, m.Repr, m.statics
    ensures m.Valid() && m.Contents() == View([], map[])
    ensures m.statics.Snap() == old(m.statics.Snap()).(onLoad := [], onUnLoad := [], onReLoad := [])
  {
    m.Dispose();
    ghost var once := m.statics.Snap();
    m.Dispose();
    assert m.statics.Snap() == once;
  }
}
