/**
 * `ComponentAutoBindTool.GetBindComponent<T>`: a bounds- and type-checked
 * lookup in the list of components bound in the editor.
 */
module Binding {
  import opened Wrappers

  /** The name of a component class. */
  type ComponentType = string

  /**
   * A bound component: an identity, every class it is an instance of (its own
   * class and its bases), and whether the engine object behind it has been
   * destroyed (the managed reference then survives, but compares equal to null).
   */
  datatype Component = Component(id: nat, kinds: set<ComponentType>, destroyed: bool)

  /** The two errors the lookup logs before returning null. */
  datatype Fault = InvalidIndex | InvalidType

  /** What a call can end in. */
  datatype BindResult =
    | Bound(com: Component)
    /** `null`, after logging `why`. */
    | Null(why: Fault)
    /** The list indexer throws: the index is negative. */
    | OutOfRange

  /** The `as T` cast: the same reference when it is an instance of `t`, null otherwise (null included). */
  function As(o: Option<Component>, t: ComponentType): (r: Option<Component>)
    ensures r.Some? <==> o.Some? && t in o.value.kinds
    ensures r.Some? ==> r == o
  {
    match o
    case Some(c) => if t in c.kinds then o else None
    case None => None
  }

  /** The engine's overloaded `== null`: true of a missing reference and of a destroyed component. */
  predicate IsNull(o: Option<Component>)
  {
    o.None? || o.value.destroyed
  }

  /**
   * `GetBindComponent<T>(index)` on the list `bindComs` (an unassigned slot
   * is `None`). Only the upper bound is checked before indexing; the cast keeps
   * a destroyed component, which the null test then rejects.
   */
  function GetBindComponent(bindComs: seq<Option<Component>>, t: ComponentType, index: int): (r: BindResult)
    ensures r == Null(InvalidIndex) <==> index >= |bindComs|
    ensures r == OutOfRange <==> index < 0
    ensures r == Null(InvalidType) <==>
      0 <= index < |bindComs| && (IsNull(bindComs[index]) || t !in bindComs[index].value.kinds)
    ensures r.Bound? <==>
      0 <= index < |bindComs| && !IsNull(bindComs[index]) && t in bindComs[index].value.kinds
    ensures r.Bound? ==> !r.com.destroyed
    ensures r.Bound? ==> Some(r.com) == bindComs[index]
  {
    if index >= |bindComs| then
      Null(InvalidIndex)
    else if index < 0 then
      OutOfRange
    else
      var bindCom := As(bindComs[index], t);
      if IsNull(bindCom) then Null(InvalidType) else Bound(bindCom.value)
  }

  /** A component found under `t` is found under every base class it has, and always the same one. */
  lemma BoundUnderEveryKind(bindComs: seq<Option<Component>>, t: ComponentType, u: ComponentType, index: int)
    requires GetBindComponent(bindComs, t, index).Bound?
    requires u in GetBindComponent(bindComs, t, index).com.kinds
    ensures GetBindComponent(bindComs, u, index) == GetBindComponent(bindComs, t, index)
  {
  }

  /** Lookups at other positions ignore what is stored at `index`: replacing it changes nothing there. */
  lemma LookupIsLocal(bindComs: seq<Option<Component>>, t: ComponentType, index: int, j: int, o: Option<Component>)
    requires 0 <= j < |bindComs| && j != index
    ensures GetBindComponent(bindComs[j := o], t, index) == GetBindComponent(bindComs, t, index)
  {
  }

  /** Destroying the component at `index` makes its lookup fail as an invalid type, whatever it was bound as. */
  lemma DestroyedIsInvalid(bindComs: seq<Option<Component>>, t: ComponentType, index: int)
    requires 0 <= index < |bindComs| && bindComs[index].Some?
    ensures var dead := bindComs[index := Some(bindComs[index].value.(destroyed := true))];
      GetBindComponent(dead, t, index) == Null(InvalidType)
  {
  }
}
