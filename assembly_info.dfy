/**
 * AssemblyInfo: the per-group snapshot of one loaded assembly, holding the flat
 * list of every type the assembly declares and a capability index from
 * interface name to the concrete types implementing it (a multi-dictionary
 * that appends in insertion order and never removes duplicates).
 */
module Assemblies {
  import opened Wrappers
  import opened Reflection

  /** The capability index: interface name to its implementers, in insertion order. */
  type CapabilityIndex = map<TypeName, seq<TypeDesc>>

  /** The implementers recorded under `c`, or none when `c` is not a key. */
  function Lookup(g: CapabilityIndex, c: TypeName): seq<TypeDesc> {
    if c in g then g[c] else []
  }

  /** `AssemblyTypeGroupList.Add(c, t)`. */
  function Add(g: CapabilityIndex, c: TypeName, t: TypeDesc): CapabilityIndex {
    g[c := Lookup(g, c) + [t]]
  }

  /** The inner loop: `t` added under each of `cs`, first to last. */
  function AddUnder(g: CapabilityIndex, t: TypeDesc, cs: seq<TypeName>): CapabilityIndex
    decreases |cs|
  {
    if cs == [] then g else Add(AddUnder(g, t, cs[..|cs| - 1]), cs[|cs| - 1], t)
  }

  /** Concatenation regroups freely. */
  lemma ConcatAssoc<T>(a: seq<T>, b: seq<T>, c: seq<T>)
    ensures a + b + c == a + (b + c)
  {
  }

  /** One pass of the outer loop: abstract and interface types are skipped. */
  function IndexType(g: CapabilityIndex, t: TypeDesc): CapabilityIndex {
    if IsConcrete(t) then AddUnder(g, t, t.interfaces) else g
  }

  /** The whole outer loop over `ts`, first to last. */
  function Indexed(g: CapabilityIndex, ts: seq<TypeDesc>): CapabilityIndex
    decreases |ts|
  {
    if ts == [] then g else IndexType(Indexed(g, ts[..|ts| - 1]), ts[|ts| - 1])
  }

  /** Reference definition: the concrete types of `ts` that implement `c`, in order. */
  function Implementers(ts: seq<TypeDesc>, c: TypeName): (r: seq<TypeDesc>)
    ensures forall x :: x in r ==> x in ts && IsConcrete(x) && c in x.interfaces
    ensures forall x :: x in ts && IsConcrete(x) && c in x.interfaces ==> x in r
    ensures |r| <= |ts|
    decreases |ts|
  {
    if ts == [] then []
    else
      var rest := Implementers(ts[..|ts| - 1], c);
      var t := ts[|ts| - 1];
      assert ts == ts[..|ts| - 1] + [t];
      if IsConcrete(t) && c in t.interfaces then rest + [t] else rest
  }

  /** Adding `t` under a list of distinct interfaces appends it once to each of them and touches nothing else. */
  lemma {:induction false} AddUnderLookup(g: CapabilityIndex, t: TypeDesc, cs: seq<TypeName>, c: TypeName)
    requires forall i, j :: 0 <= i < j < |cs| ==> cs[i] != cs[j]
    ensures Lookup(AddUnder(g, t, cs), c) == Lookup(g, c) + (if c in cs then [t] else [])
    ensures c in AddUnder(g, t, cs) <==> c in g || c in cs
    decreases |cs|
  {
    if cs != [] {
      var init := cs[..|cs| - 1];
      assert cs == init + [cs[|cs| - 1]];
      AddUnderLookup(g, t, init, c);
      if c == cs[|cs| - 1] {
        assert c !in init;
      }
    }
  }

  /**
   * The capability index built from `ts` on top of `g` lists, under every
   * capability, exactly the old entries followed by the concrete implementers
   * in scan order; a capability is a key iff it was one or has an implementer.
   */
  lemma {:induction false} IndexedLookup(g: CapabilityIndex, ts: seq<TypeDesc>, c: TypeName)
    requires forall t :: t in ts ==> WellFormed(t)
    ensures Lookup(Indexed(g, ts), c) == Lookup(g, c) + Implementers(ts, c)
    ensures c in Indexed(g, ts) <==> c in g || Implementers(ts, c) != []
    decreases |ts|
  {
    if ts != [] {
      var init := ts[..|ts| - 1];
      var t := ts[|ts| - 1];
      assert ts == init + [t];
      IndexedLookup(g, init, c);
      assert t in ts;
      var tail := if IsConcrete(t) && c in t.interfaces then [t] else [];
      assert Implementers(ts, c) == Implementers(init, c) + tail;
      if IsConcrete(t) {
        AddUnderLookup(Indexed(g, init), t, t.interfaces, c);
      }
      assert Lookup(Indexed(g, ts), c) == Lookup(Indexed(g, init), c) + tail;
      ConcatAssoc(Lookup(g, c), Implementers(init, c), tail);
    }
  }

  /** Abstract and interface types add no entry under any capability. */
  lemma NonConcreteNotIndexed(g: CapabilityIndex, ts: seq<TypeDesc>, c: TypeName, t: TypeDesc)
    requires forall x :: x in ts ==> WellFormed(x)
    requires !IsConcrete(t) && t !in Lookup(g, c)
    ensures t !in Lookup(Indexed(g, ts), c)
  {
    IndexedLookup(g, ts, c);
  }

  class AssemblyInfo {
    /** `Assembly`: null until the first `Load`. */
    var assembly: Option<Assembly>
    /** `AssemblyTypeList`: every scanned type, abstract and interface ones included. */
    var typeList: seq<TypeDesc>
    /** `AssemblyTypeGroupList`. */
    var typeGroups: CapabilityIndex

    /** Every capability key holds at least one implementer. */
    ghost predicate Valid()
      reads this
    {
      forall c :: c in typeGroups ==> typeGroups[c] != []
    }

    constructor ()
      ensures Valid()
      ensures assembly == None && typeList == [] && typeGroups == map[]
    {
      assembly := None;
      typeList := [];
      typeGroups := map[];
    }

    /** Scans `asm` and appends to both the type list and the capability index, without clearing either. */
    method Load(asm: Assembly)
      requires Valid()
      modifies this
      ensures Valid()
      ensures assembly == Some(asm)
      ensures typeList == old(typeList) + asm.types
      ensures typeGroups == Indexed(old(typeGroups), asm.types)
    {
      assembly := Some(asm);
      var assemblyTypes := asm.types;
      var i := 0;
      while i < |assemblyTypes|
        invariant 0 <= i <= |assemblyTypes|
        invariant typeGroups == Indexed(old(typeGroups), assemblyTypes[..i])
        invariant Valid() && assembly == Some(asm) && typeList == old(typeList)
      {
        var t := assemblyTypes[i];
        assert assemblyTypes[..i + 1] == assemblyTypes[..i] + [t];
        if t.isAbstract || t.isInterface {
          i := i + 1;
          continue;
        }
        var interfaces := t.interfaces;
        var j := 0;
        while j < |interfaces|
          invariant 0 <= j <= |interfaces|
          invariant typeGroups == AddUnder(Indexed(old(typeGroups), assemblyTypes[..i]), t, interfaces[..j])
          invariant Valid() && assembly == Some(asm) && typeList == old(typeList)
        {
          assert interfaces[..j + 1] == interfaces[..j] + [interfaces[j]];
          typeGroups := Add(typeGroups, interfaces[j], t);
          j := j + 1;
        }
        assert interfaces[..j] == interfaces;
        i := i + 1;
      }
      assert assemblyTypes[..i] == assemblyTypes;
      typeList := typeList + assemblyTypes;
    }

    /** Empties the type list and the capability index; `Assembly` is kept. */
    method UnLoad()
      modifies this
      ensures Valid()
      ensures typeList == [] && typeGroups == map[]
      ensures assembly == old(assembly)
    {
      typeList := [];
      typeGroups := map[];
    }
  }

  /**
   * A fresh snapshot loaded with `asm` lists every type of `asm`, and its index
   * lists under each capability exactly the concrete implementers of it.
   */
  lemma FreshLoad(asm: Assembly, c: TypeName)
    requires forall t :: t in asm.types ==> WellFormed(t)
    ensures Lookup(Indexed(map[], asm.types), c) == Implementers(asm.types, c)
    ensures c in Indexed(map[], asm.types) <==> Implementers(asm.types, c) != []
  {
    IndexedLookup(map[], asm.types, c);
  }

  /** Two `Load`s of the same assembly with no `UnLoad` between them list every implementer twice. */
  lemma LoadTwiceDuplicates(asm: Assembly, c: TypeName)
    requires forall t :: t in asm.types ==> WellFormed(t)
    ensures Lookup(Indexed(Indexed(map[], asm.types), asm.types), c)
         == Implementers(asm.types, c) + Implementers(asm.types, c)
  {
    IndexedLookup(map[], asm.types, c);
    IndexedLookup(Indexed(map[], asm.types), asm.types, c);
  }
}
