/**
 * Abstract stand-ins for the reflection data the runtime reads:
 * a type descriptor carries what `Type.IsAbstract`, `Type.IsInterface`,
 * `Type.GetInterfaces()` and the base-type walk for `RegisterSingleton`
 * would report, plus how the type's user-written overrides end.
 */
module Reflection {
  /** A type's full name; capabilities (interfaces) are named the same way. */
  type TypeName = string

  /** The base module capability (ISingleton.cs). */
  const ISingleton: TypeName := "GameFramework.ISingleton"
  /** The optional per-frame capability (IUpdateSingleton.cs). */
  const IUpdateSingleton: TypeName := "GameFramework.IUpdateSingleton"

  /**
   * How a call into user-written code ends: normally, by throwing a
   * GameFrameworkException (the only exception the scheduler catches),
   * or by throwing any other exception (which nobody catches).
   */
  datatype Fault = NoFault | FrameworkFault | OtherFault

  datatype TypeDesc = TypeDesc(
    name: TypeName,
    isAbstract: bool,
    isInterface: bool,
    /** Every interface the type implements, as `GetInterfaces()` lists them. */
    interfaces: seq<TypeName>,
    /** `RegisterSingleton` is found on the base type ... */
    baseHasRegister: bool,
    /** ... or on the base type's base type. */
    grandBaseHasRegister: bool,
    /** The `T` of the `Singleton<T>` the type derives from: the slot of its static `Instance`. */
    singletonArg: TypeName,
    /**
     * The type is an instance of that `T`, so the cast `(T)singleton` in
     * `RegisterSingleton` succeeds; `where T : ISingleton, new()` does not
     * force it, and otherwise the cast throws an InvalidCastException.
     */
    isSingletonArg: bool,
    /**
     * How the type's constructor, its `Initialize` (the synchronous part of the
     * call; a fault kept inside the returned task is not modelled) and its
     * `Load(int)` override end when the scheduler calls them by reflection.
     * Reflection wraps whatever they throw in a TargetInvocationException, so
     * any fault there escapes, whatever its kind.
     */
    ctorFault: Fault,
    initializeFault: Fault,
    loadFault: Fault,
    /** How the type's `Update(float, float)` ends. */
    updateFault: Fault,
    /** How the type's `Dispose()` override ends; a faulting override throws before the base `Dispose` runs. */
    disposeFault: Fault)

  /** A loaded assembly: its identity and the types `GetTypes()` returns, in order. */
  datatype Assembly = Assembly(name: string, types: seq<TypeDesc>)

  /** Neither abstract nor an interface: the only types that enter the capability index. */
  predicate IsConcrete(t: TypeDesc) {
    !t.isAbstract && !t.isInterface
  }

  /** `GetInterfaces()` never lists an interface twice. */
  predicate WellFormed(t: TypeDesc) {
    forall i, j :: 0 <= i < j < |t.interfaces| ==> t.interfaces[i] != t.interfaces[j]
  }

  /** The two-level base-type search for the register hook succeeds. */
  predicate HasRegisterHook(t: TypeDesc) {
    t.baseHasRegister || t.grandBaseHasRegister
  }

  /** An instance of `t` is an IUpdateSingleton (the `switch (instance)` type test). */
  predicate IsUpdatable(t: TypeDesc) {
    IUpdateSingleton in t.interfaces
  }
}
