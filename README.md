# HotfixGameFramework core, modelled in Dafny

This project models the hot-reload core of HotfixGameFramework, a Unity
framework whose game code lives in assemblies that are loaded and replaced at
run time:

- **AssemblyManager** (`Registry`): a registry of loaded assemblies keyed by an
  integer group name. Each group holds one **AssemblyInfo** snapshot
  (`Assemblies`): the assembly's type list and a capability index from each
  interface to its concrete implementers. Loading a key that is already
  registered is a reload: the snapshot is emptied, the unload event fires,
  the snapshot is refilled, then the load and reload events fire. The
  queries enumerate the keys, all types, one group's types, every
  implementer of a capability (stopping at the first group that lacks it)
  and one group's implementers.
- **SingletonSystem** (`Scheduling`): the scheduler of modules. On a group's
  load it disposes the group's previous modules, then creates every type of
  the group that implements `ISingleton`, registers it and calls its `Load`.
  It drives the per-frame rotation of `IUpdateSingleton` modules and
  disposes everything on shutdown. Exceptions from user code are modelled
  per type. In the drains and the frame update a GameFrameworkException is
  caught and logged, and any other exception ends the call. In `Load`, user
  code is called through reflection and nothing is caught, so every
  exception ends the call.
- **Singleton&lt;T&gt;** (`Singletons`): registration publishes the instance as
  the static `Instance` of its `T` and subscribes its `Load`/`UnLoad`;
  `Dispose` undoes both.
- **GameFrameworkOneToManyQueue** (`Pooling`): a dictionary from a key to a
  FIFO queue, with a free-list of cleared queue containers bounded by
  `recyclingLimit`.
- The static fields shared by these classes (`Statics`): the three events as
  subscription lists, the `Instance` slots, and a trace of observable calls.
- **EntityExtension.GenerateSerialId** and **EntityData** (`Entities`): a
  decrementing 32-bit serial id counter, and a poolable record.
- **ComponentAutoBindTool.GetBindComponent** (`Binding`): a checked lookup in
  the list of editor-bound components.
- **ByteConversionGBMBKB** (`ByteSizes`): the size label of the data-table
  inspector.

Reflection is abstracted in `Reflection`. A type descriptor carries:

- whether the type is abstract or an interface;
- the interfaces it implements;
- where the `RegisterSingleton` hook is found;
- the `T` of its `Singleton<T>`, and whether the type is a `T`;
- how its constructor, `Initialize`, `Load`, `Update` and `Dispose` end.

The dictionary that backs `AssemblyList` only ever gains keys or is cleared,
so it enumerates in insertion order. `View.order` records that order.
SingletonSystem's key order on `Dispose` is left unspecified: the method
returns, as a ghost value, the order it took.

Some behaviour that follows directly from the code:

- `Recycle` rejects a container only when the free-list is already longer
  than the limit. The free-list can therefore hold `recyclingLimit + 1`
  containers. A negative limit keeps none.
- `SingletonSystem.Dispose` calls `singletons.Clear()`. The queue's own
  `Clear` is `protected new`, so this call resolves to the inherited
  dictionary `Clear`, and the free-list survives (`DictionaryClear`).
- `GetBindComponent` checks only the upper bound, so a negative index
  reaches the list indexer, which throws (`OutOfRange`).
- `Singleton<T>` only demands `T : ISingleton, new()`, so a module type need
  not be a `T`. For such a type the `(T)` cast in `RegisterSingleton` throws,
  after `Initialize` has run, and the exception ends `Load`.
- After 2^31 calls the serial counter wraps to `int.MaxValue`: a positive id.
- The exact quotient of a scaled size label stays below 1024 under GB, but
  the printed value is rounded to two decimals and can reach 1024: a size of
  1048575 bytes is shown as "1024KB".
- `Foreach(findType)` stops at the first group without the capability. It
  does not skip that group.

## Model

Source paths are relative to the repository root.

| member | source | states |
|---|---|---|
| Pooling.RetainsBound | Assets/UnityGameFramework/Scripts/Runtime/GameFramework/Base/GameFrameworkOneToManyQueue.cs:84 | A zero limit always keeps a vacated container; a non-zero limit keeps it only while the free-list holds at most `limit` entries, so the free-list never exceeds `limit + 1`; a negative limit keeps nothing |
| Pooling.OneToManyQueue.constructor | Assets/UnityGameFramework/Scripts/Runtime/GameFramework/Base/GameFrameworkOneToManyQueue.cs:18-21 | Starts with no keys, an empty free-list and the given limit |
| Pooling.OneToManyQueue.Contains | Assets/UnityGameFramework/Scripts/Runtime/GameFramework/Base/GameFrameworkOneToManyQueue.cs:23-28 | True exactly when the key is present and its queue holds the value |
| Pooling.OneToManyQueue.Fetch | Assets/UnityGameFramework/Scripts/Runtime/GameFramework/Base/GameFrameworkOneToManyQueue.cs:75-78 | Returns an empty container: the oldest pooled one, removed from the free-list, or a fresh one when the free-list is empty; never one that a key uses |
| Pooling.OneToManyQueue.Recycle | Assets/UnityGameFramework/Scripts/Runtime/GameFramework/Base/GameFrameworkOneToManyQueue.cs:80-87 | Empties the container and appends it to the free-list exactly when `Retains` holds; the keys are unchanged |
| Pooling.OneToManyQueue.Enqueue | Assets/UnityGameFramework/Scripts/Runtime/GameFramework/Base/GameFrameworkOneToManyQueue.cs:30-41 | Appends the value to the key's queue, creating the key when absent; a new key takes the oldest pooled container, or a fresh one |
| Pooling.OneToManyQueue.RemoveKey | Assets/UnityGameFramework/Scripts/Runtime/GameFramework/Base/GameFrameworkOneToManyQueue.cs:67-73 | Removes the key and recycles its container, subject to the limit; an absent key changes nothing |
| Pooling.OneToManyQueue.Dequeue | Assets/UnityGameFramework/Scripts/Runtime/GameFramework/Base/GameFrameworkOneToManyQueue.cs:43-58 | Returns the front of the key's queue, or null for an absent or empty queue; emptying a queue removes the key and recycles its container |
| Pooling.OneToManyQueue.TryDequeue | Assets/UnityGameFramework/Scripts/Runtime/GameFramework/Base/GameFrameworkOneToManyQueue.cs:60-65 | Succeeds exactly when the front value exists and is not null; it still dequeues a null front |
| Pooling.OneToManyQueue.Clear | Assets/UnityGameFramework/Scripts/Runtime/GameFramework/Base/GameFrameworkOneToManyQueue.cs:89-93 | Leaves no keys and an empty free-list |
| Pooling.OneToManyQueue.DictionaryClear | Assets/UnityGameFramework/Scripts/Runtime/GameFramework/Base/Singleton/SingletonSystem.cs:123 | The inherited dictionary `Clear`: leaves no keys and keeps the free-list |
| Pooling.FifoRoundTrip | Assets/UnityGameFramework/Scripts/Runtime/GameFramework/Base/GameFrameworkOneToManyQueue.cs:30-58 | Enqueueing a sequence under a new key and then dequeueing it returns that sequence in order, and the key is gone again |
| Pooling.EnqueueAll | Assets/UnityGameFramework/Scripts/Runtime/GameFramework/Base/GameFrameworkOneToManyQueue.cs:30-41 | Enqueueing a sequence under a new key files exactly that sequence under it |
| Pooling.DequeueAll | Assets/UnityGameFramework/Scripts/Runtime/GameFramework/Base/GameFrameworkOneToManyQueue.cs:43-58 | Dequeueing a queue to the end yields its contents front first and removes the key |
| Assemblies.Implementers | Assets/UnityGameFramework/Scripts/Runtime/GameFramework/Base/Assembly/AssemblyInfo.cs:19-28 | The implementers of a capability are exactly the concrete types of the list that implement it |
| Assemblies.AddUnderLookup | Assets/UnityGameFramework/Scripts/Runtime/GameFramework/Base/Assembly/AssemblyInfo.cs:24-27 | Adding a type under each of its interfaces appends it to the group of every interface it has, and creates no other group |
| Assemblies.IndexedLookup | Assets/UnityGameFramework/Scripts/Runtime/GameFramework/Base/Assembly/AssemblyInfo.cs:19-28 | Indexing a type list appends, under each capability, its implementers in list order; a group exists exactly when it existed or gained an implementer |
| Assemblies.NonConcreteNotIndexed | Assets/UnityGameFramework/Scripts/Runtime/GameFramework/Base/Assembly/AssemblyInfo.cs:21-22 | Abstract types and interfaces never enter the index |
| Assemblies.AssemblyInfo.constructor | Assets/UnityGameFramework/Scripts/Runtime/GameFramework/Base/Assembly/AssemblyInfo.cs:11-13 | No assembly, an empty type list and an empty index |
| Assemblies.AssemblyInfo.Load | Assets/UnityGameFramework/Scripts/Runtime/GameFramework/Base/Assembly/AssemblyInfo.cs:15-30 | Records the assembly, appends all of its types, abstract ones included, to the type list, and indexes its concrete types |
| Assemblies.AssemblyInfo.UnLoad | Assets/UnityGameFramework/Scripts/Runtime/GameFramework/Base/Assembly/AssemblyInfo.cs:32-36 | Empties the type list and the index and keeps the assembly |
| Assemblies.FreshLoad | Assets/UnityGameFramework/Scripts/Runtime/GameFramework/Base/Assembly/AssemblyInfo.cs:15-30 | Loading into an empty snapshot indexes exactly the implementers of each capability |
| Assemblies.LoadTwiceDuplicates | Assets/UnityGameFramework/Scripts/Runtime/GameFramework/Base/Assembly/AssemblyInfo.cs:15-30 | Loading twice without `UnLoad` lists every implementer twice, which is why a reload unloads first |
| Registry.ForeachAssemblyName | Assets/UnityGameFramework/Scripts/Runtime/GameFramework/Base/Assembly/AssemblyManager.cs:45-51 | Yields every registered key exactly once, and nothing else |
| Registry.Reached | Assets/UnityGameFramework/Scripts/Runtime/GameFramework/Base/Assembly/AssemblyManager.cs:70-73 | The number of leading groups that have the capability; the next group lacks it |
| Registry.ReachedAt | Assets/UnityGameFramework/Scripts/Runtime/GameFramework/Base/Assembly/AssemblyManager.cs:70-73 | `Reached` is exactly the position of the first group without the capability |
| Registry.ForeachCapabilityStops | Assets/UnityGameFramework/Scripts/Runtime/GameFramework/Base/Assembly/AssemblyManager.cs:68-80 | `Foreach(findType)` yields the implementers of the groups before the first group without the capability, and nothing after it |
| Registry.ForeachCapabilityComplete | Assets/UnityGameFramework/Scripts/Runtime/GameFramework/Base/Assembly/AssemblyManager.cs:68-80 | When every group has the capability, `Foreach(findType)` yields all their implementers group by group |
| Registry.ForeachCapabilityIgnoresLater | Assets/UnityGameFramework/Scripts/Runtime/GameFramework/Base/Assembly/AssemblyManager.cs:72-73 | Once some group lacks the capability, groups registered later never change the result |
| Registry.AllTypesMembers | Assets/UnityGameFramework/Scripts/Runtime/GameFramework/Base/Assembly/AssemblyManager.cs:52-61 | `Foreach()` yields exactly the types in the type lists of the registered groups |
| Registry.AllTypesSnoc | Assets/UnityGameFramework/Scripts/Runtime/GameFramework/Base/Assembly/AssemblyManager.cs:52-61 | `Foreach()` over one more group lists that group's types after all earlier ones, in order |
| Registry.AllTypesCons | Assets/UnityGameFramework/Scripts/Runtime/GameFramework/Base/Assembly/AssemblyManager.cs:52-61 | `Foreach()` with one more group in front lists that group's types first, then the others in order |
| Registry.LoadedQueries | Assets/UnityGameFramework/Scripts/Runtime/GameFramework/Base/Assembly/AssemblyManager.cs:62-95 | After a (re)load of a key, `Foreach(key)` is the assembly's type list, `Foreach(key, c)` its implementers of `c`, and `GetAssembly(key)` the assembly |
| Registry.RemoveEachCount | Assets/UnityGameFramework/Scripts/Runtime/GameFramework/Base/Assembly/AssemblyManager.cs:107-110 | Removing each delegate of a list takes away exactly that multiset of delegates |
| Registry.RemoveEachOwn | Assets/UnityGameFramework/Scripts/Runtime/GameFramework/Base/Assembly/AssemblyManager.cs:105-127 | Removing every delegate of an event's own invocation list leaves no subscribers |
| Registry.UnsubscribeAll | Assets/UnityGameFramework/Scripts/Runtime/GameFramework/Base/Assembly/AssemblyManager.cs:107-110 | The unsubscribe loop over the invocation list ends with an empty list |
| Registry.NotificationOrder | Assets/UnityGameFramework/Scripts/Runtime/GameFramework/Base/Assembly/AssemblyManager.cs:25-43 | A first load fires only the load event; a reload fires unload, then load, then reload, all for the loaded key |
| Registry.AssemblyManager.constructor | Assets/UnityGameFramework/Scripts/Runtime/GameFramework/Base/Assembly/AssemblyManager.cs:14 | An empty registry over the shared static fields |
| Registry.AssemblyManager.LoadAssembly | Assets/UnityGameFramework/Scripts/Runtime/GameFramework/Base/Assembly/AssemblyManager.cs:15-44 | A new key is appended to the enumeration order and a known key keeps its place; the key's snapshot becomes the loaded assembly; the fired notifications are exactly `Notifications(isReload, …)`; the subscriptions are unchanged |
| Registry.AssemblyManager.Open | Assets/UnityGameFramework/Scripts/Runtime/GameFramework/Base/Assembly/AssemblyManager.cs:17-33 | Reports a reload exactly when the key was known, loads the snapshot, and fires the unload event only on a reload with subscribers |
| Registry.AssemblyManager.RaiseLoaded | Assets/UnityGameFramework/Scripts/Runtime/GameFramework/Base/Assembly/AssemblyManager.cs:35-43 | Fires the load event when it has subscribers, then the reload event on a reload with subscribers |
| Registry.AssemblyManager.Create | Assets/UnityGameFramework/Scripts/Runtime/GameFramework/Base/Assembly/AssemblyManager.cs:18-22 | A new key gets a fresh snapshot, appended to the enumeration order, and then loaded |
| Registry.AssemblyManager.Insert | Assets/UnityGameFramework/Scripts/Runtime/GameFramework/Base/Assembly/AssemblyManager.cs:20-21 | `AssemblyList.Add`: the key is added with an empty snapshot, at the end of the order |
| Registry.AssemblyManager.Reopen | Assets/UnityGameFramework/Scripts/Runtime/GameFramework/Base/Assembly/AssemblyManager.cs:24-33 | A known key's snapshot is emptied, the unload event fires if subscribed, and the snapshot is reloaded with the new assembly |
| Registry.AssemblyManager.Clear | Assets/UnityGameFramework/Scripts/Runtime/GameFramework/Base/Assembly/AssemblyManager.cs:26 | Empties one group's snapshot and keeps its assembly; the other groups are untouched |
| Registry.AssemblyManager.Fill | Assets/UnityGameFramework/Scripts/Runtime/GameFramework/Base/Assembly/AssemblyManager.cs:33 | An emptied snapshot loaded with an assembly equals a freshly loaded one |
| Registry.AssemblyManager.Dispose | Assets/UnityGameFramework/Scripts/Runtime/GameFramework/Base/Assembly/AssemblyManager.cs:96-132 | Every snapshot is emptied, the registry is empty, all three events lose every subscriber, and the `Instance` slots and trace are unchanged |
| Registry.AssemblyManager.UnLoadAll | Assets/UnityGameFramework/Scripts/Runtime/GameFramework/Base/Assembly/AssemblyManager.cs:98-101 | Every registered snapshot ends with an empty type list and index |
| Registry.DisposeTwice | Assets/UnityGameFramework/Scripts/Runtime/GameFramework/Base/Assembly/AssemblyManager.cs:96-132 | Disposing twice leaves the same state as disposing once |
| Statics.RemoveLastRemovesOne | Assets/UnityGameFramework/Scripts/Runtime/GameFramework/Base/Singleton/Singleton.cs:29-30 | `event -= h` removes exactly one occurrence of `h` when there is one, and nothing otherwise |
| Statics.RemoveOnlyOccurrence | Assets/UnityGameFramework/Scripts/Runtime/GameFramework/Base/Singleton/Singleton.cs:29-30 | Removing a delegate that was subscribed at most once removes it entirely, and a second removal changes nothing |
| Statics.SystemHandlersFilter | Assets/UnityGameFramework/Scripts/Runtime/GameFramework/Base/Singleton/SingletonSystem.cs:20-21 | The scheduler's own subscriptions are exactly the system delegates of the list |
| Statics.RemoveInstanceKeepsSystem | Assets/UnityGameFramework/Scripts/Runtime/GameFramework/Base/Singleton/Singleton.cs:29-30 | An instance unsubscribing never disturbs the scheduler's subscriptions |
| Statics.RemoveSystemCommutes | Assets/UnityGameFramework/Scripts/Runtime/GameFramework/Base/Singleton/SingletonSystem.cs:124-125 | The scheduler unsubscribing removes its last system delegate and nothing else of the scheduler's |
| Statics.SubscribeUnsubscribe | Assets/UnityGameFramework/Scripts/Runtime/GameFramework/Base/Singleton/Singleton.cs:14-30 | Subscribing and later unsubscribing a delegate restores the list, with later subscriptions kept in order |
| Statics.StaticFields.constructor | Assets/UnityGameFramework/Scripts/Runtime/GameFramework/Base/Assembly/AssemblyManager.cs:11-13 | The events start without subscribers, the `Instance` slots empty, and the trace empty |
| Singletons.Singleton.constructor | Assets/UnityGameFramework/Scripts/Runtime/GameFramework/Base/Singleton/Singleton.cs:7 | A new instance of the given type is not disposed |
| Singletons.Singleton.RegisterSingleton | Assets/UnityGameFramework/Scripts/Runtime/GameFramework/Base/Singleton/Singleton.cs:10-16 | Publishes the instance as `Instance` of its `T`, clears `IsDisposed` and subscribes its `Load` and `UnLoad`; when the type is not a `T`, the cast throws first and nothing changes |
| Singletons.Singleton.Initialize | Assets/UnityGameFramework/Scripts/Runtime/GameFramework/Base/Singleton/Singleton.cs:21-24 | Ends exactly as the type's `Initialize` is described to end: the default one completes, an override may throw |
| Singletons.Singleton.Load | Assets/UnityGameFramework/Scripts/Runtime/GameFramework/Base/Singleton/Singleton.cs:19 | The type's `Load(int)` override, called with the key: the call is recorded, nothing else changes, and it ends as the type's override is described to end |
| Singletons.Singleton.Dispose | Assets/UnityGameFramework/Scripts/Runtime/GameFramework/Base/Singleton/Singleton.cs:25-31 | Marks the instance disposed, clears its `Instance` slot and unsubscribes both handlers; an override that throws first changes nothing but the trace |
| Singletons.RegisterThenDispose | Assets/UnityGameFramework/Scripts/Runtime/GameFramework/Base/Singleton/Singleton.cs:10-31 | Registering and then disposing restores both subscription lists, later subscriptions included, and leaves the slot null |
| Singletons.DisposeTwice | Assets/UnityGameFramework/Scripts/Runtime/GameFramework/Base/Singleton/Singleton.cs:25-31 | A second `Dispose` changes nothing but the trace |
| Singletons.DisposeClearsSharedSlot | Assets/UnityGameFramework/Scripts/Runtime/GameFramework/Base/Singleton/Singleton.cs:8-31 | Disposing any instance with the same `T` nulls the slot, even when a newer instance holds it |
| Scheduling.Drained | Assets/UnityGameFramework/Scripts/Runtime/GameFramework/Base/Singleton/SingletonSystem.cs:102-112 | The values a drain disposes are a prefix of the queue |
| Scheduling.DrainedAt | Assets/UnityGameFramework/Scripts/Runtime/GameFramework/Base/Singleton/SingletonSystem.cs:102-112 | A drain takes the queue up to and including the first value whose disposal throws an uncaught exception, or the whole queue |
| Scheduling.DrainedAll | Assets/UnityGameFramework/Scripts/Runtime/GameFramework/Base/Singleton/SingletonSystem.cs:102-112 | Without an uncaught exception the whole queue is drained |
| Scheduling.DisposedAllTrace | Assets/UnityGameFramework/Scripts/Runtime/GameFramework/Base/Singleton/SingletonSystem.cs:106 | Draining appends one `Dispose` call per value taken, in queue order |
| Scheduling.DisposedAllKeepsSystem | Assets/UnityGameFramework/Scripts/Runtime/GameFramework/Base/Singleton/SingletonSystem.cs:98-113 | Draining never disturbs the scheduler's subscriptions or the reload event |
| Scheduling.DisposedAllClearsSlots | Assets/UnityGameFramework/Scripts/Runtime/GameFramework/Base/Singleton/SingletonSystem.cs:98-113 | After a drain, the slot of every cleanly disposed instance is null |
| Scheduling.CompletedCount | Assets/UnityGameFramework/Scripts/Runtime/GameFramework/Base/Singleton/SingletonSystem.cs:37-73 | The number of leading types whose pass runs to the end (constructed, register hook found, and neither `Initialize`, the `T` cast nor `Load` throws); the next type does not |
| Scheduling.LoadedAllEffect | Assets/UnityGameFramework/Scripts/Runtime/GameFramework/Base/Singleton/SingletonSystem.cs:37-73 | Loading appends one creation and one `Load` call per instance and keeps the scheduler's subscriptions and the reload event |
| Scheduling.GroupedContents | Assets/UnityGameFramework/Scripts/Runtime/GameFramework/Base/Singleton/SingletonSystem.cs:72 | The group filed by a load holds exactly the created instances in creation order, and no other group changes |
| Scheduling.DisposalsPrecedeCreations | Assets/UnityGameFramework/Scripts/Runtime/GameFramework/Base/Singleton/SingletonSystem.cs:32-39 | In one `Load`, every disposal of the old group precedes every creation of the new one |
| Scheduling.DisposeTraceHasNoCreation | Assets/UnityGameFramework/Scripts/Runtime/GameFramework/Base/Singleton/SingletonSystem.cs:106 | A drain records only `Dispose` calls |
| Scheduling.LoadTraceHasNoDisposal | Assets/UnityGameFramework/Scripts/Runtime/GameFramework/Base/Singleton/SingletonSystem.cs:37-73 | Loading records no `Dispose` call |
| Scheduling.ValuesSomes | Assets/UnityGameFramework/Scripts/Runtime/GameFramework/Base/Singleton/SingletonSystem.cs:72 | The non-null values of the filed instances are the instances |
| Scheduling.UpdatablesMembers | Assets/UnityGameFramework/Scripts/Runtime/GameFramework/Base/Singleton/SingletonSystem.cs:63-70 | The instances entered into the rotation are exactly the created ones that are `IUpdateSingleton` |
| Scheduling.UpdatablesAllIn | Assets/UnityGameFramework/Scripts/Runtime/GameFramework/Base/Singleton/SingletonSystem.cs:63-70 | The rotation gains only tracked instances |
| Scheduling.Visited | Assets/UnityGameFramework/Scripts/Runtime/GameFramework/Base/Singleton/SingletonSystem.cs:80-95 | A frame visits at most the entries of the rotation |
| Scheduling.VisitedAt | Assets/UnityGameFramework/Scripts/Runtime/GameFramework/Base/Singleton/SingletonSystem.cs:80-95 | A frame visits the rotation up to and including the first live entry whose `Update` throws an uncaught exception, or the whole rotation |
| Scheduling.Live | Assets/UnityGameFramework/Scripts/Runtime/GameFramework/Base/Singleton/SingletonSystem.cs:84-86 | Dropping disposed entries never lengthens the rotation |
| Scheduling.LiveMembers | Assets/UnityGameFramework/Scripts/Runtime/GameFramework/Base/Singleton/SingletonSystem.cs:84-86 | An entry survives a frame's visit exactly when it is not disposed |
| Scheduling.LiveAllIn | Assets/UnityGameFramework/Scripts/Runtime/GameFramework/Base/Singleton/SingletonSystem.cs:84-86 | The survivors are tracked instances |
| Scheduling.LiveOfAllLive | Assets/UnityGameFramework/Scripts/Runtime/GameFramework/Base/Singleton/SingletonSystem.cs:84-86 | A rotation with no disposed entry survives a visit unchanged |
| Scheduling.LiveIdempotent | Assets/UnityGameFramework/Scripts/Runtime/GameFramework/Base/Singleton/SingletonSystem.cs:84-86 | A second visit drops nothing more |
| Scheduling.UpdateTraceCounts | Assets/UnityGameFramework/Scripts/Runtime/GameFramework/Base/Singleton/SingletonSystem.cs:89 | Each survivor is updated once for each time it occurs in the rotation |
| Scheduling.DisposeTraceMentions | Assets/UnityGameFramework/Scripts/Runtime/GameFramework/Base/Singleton/SingletonSystem.cs:106 | Every instance in a drained queue has its `Dispose` called |
| Scheduling.TakenMentions | Assets/UnityGameFramework/Scripts/Runtime/GameFramework/Base/Singleton/SingletonSystem.cs:117-120 | Draining the groups in order takes every instance of every group |
| Scheduling.RemainingAt | Assets/UnityGameFramework/Scripts/Runtime/GameFramework/Base/Singleton/SingletonSystem.cs:102-120 | After the drains every key is still filed: a group drained without an escape is empty, a group whose drain escaped keeps the values after the failing one, and an undrained group is untouched |
| Scheduling.DisposeEffect | Assets/UnityGameFramework/Scripts/Runtime/GameFramework/Base/Singleton/SingletonSystem.cs:115-126 | A complete `Dispose` calls `Dispose` on every stored instance, removes the scheduler's two subscriptions and keeps the reload event |
| Scheduling.SingletonSystem.constructor | Assets/UnityGameFramework/Scripts/Runtime/GameFramework/Base/Singleton/SingletonSystem.cs:12-15 | An empty rotation and an empty key map with no recycling limit |
| Scheduling.SingletonSystem.Initialize | Assets/UnityGameFramework/Scripts/Runtime/GameFramework/Base/Singleton/SingletonSystem.cs:18-22 | Subscribes the scheduler's `Load` and `UnLoad` to the load and unload events |
| Scheduling.SingletonSystem.UnLoadQueue | Assets/UnityGameFramework/Scripts/Runtime/GameFramework/Base/Singleton/SingletonSystem.cs:98-113 | A null queue changes nothing; otherwise the drained prefix is disposed in order, the queue keeps the rest, and it escapes exactly when some disposal throws an uncaught exception |
| Scheduling.SingletonSystem.DisposeValue | Assets/UnityGameFramework/Scripts/Runtime/GameFramework/Base/Singleton/SingletonSystem.cs:104-111 | One dequeued value is disposed; a null value or an uncaught exception escapes, and a GameFrameworkException is caught |
| Scheduling.SingletonSystem.DisposeNext | Assets/UnityGameFramework/Scripts/Runtime/GameFramework/Base/Singleton/SingletonSystem.cs:104-111 | One step of a drain: the value's disposal, with every tracked instance disposed exactly when it was before or its `Dispose` completed in the drain so far |
| Scheduling.SingletonSystem.UnLoad | Assets/UnityGameFramework/Scripts/Runtime/GameFramework/Base/Singleton/SingletonSystem.cs:24-30 | An unknown key changes nothing; otherwise the group is drained and then removed, unless an exception escaped, in which case the rest stays filed |
| Scheduling.SingletonSystem.Forget | Assets/UnityGameFramework/Scripts/Runtime/GameFramework/Base/Singleton/SingletonSystem.cs:29 | `RemoveKey`: the key leaves the key map and nothing else is filed differently |
| Scheduling.SingletonSystem.DrainGroup | Assets/UnityGameFramework/Scripts/Runtime/GameFramework/Base/Singleton/SingletonSystem.cs:26-28 | Drains the group's queue in place; the key stays filed with whatever is left |
| Scheduling.SingletonSystem.LoadTypes | Assets/UnityGameFramework/Scripts/Runtime/GameFramework/Base/Singleton/SingletonSystem.cs:37-73 | The `foreach` over the types: the leading types that complete are created, registered, loaded, put in the rotation when updatable and filed under the key, in order; at the first other type the loop ends, and the call throws exactly when that type's constructor, `Initialize`, `T` cast or `Load` throws (a type without hook returns); an instance whose `Load` threw stays registered and subscribed but is neither filed nor in the rotation; the trace holds exactly these steps |
| Scheduling.SingletonSystem.LoadPasses | Assets/UnityGameFramework/Scripts/Runtime/GameFramework/Base/Singleton/SingletonSystem.cs:37-73 | The loop itself: it stops at the first type that does not complete, reporting how that type's pass ended, after filing every earlier one |
| Scheduling.SingletonSystem.LoadNext | Assets/UnityGameFramework/Scripts/Runtime/GameFramework/Base/Singleton/SingletonSystem.cs:39-72 | One pass filed when it completes; otherwise the key map, the rotation and the tracked instances are unchanged |
| Scheduling.SingletonSystem.Create | Assets/UnityGameFramework/Scripts/Runtime/GameFramework/Base/Singleton/SingletonSystem.cs:39 | `Activator.CreateInstance`: fails exactly when the constructor throws, leaving no trace; otherwise a fresh, undisposed instance of the type, recorded in the trace |
| Scheduling.SingletonSystem.LoadOne | Assets/UnityGameFramework/Scripts/Runtime/GameFramework/Base/Singleton/SingletonSystem.cs:39-61 | One pass: a throwing constructor, `Initialize` or `T` cast leaves only the creation (or nothing), a missing hook leaves the created instance unregistered, a throwing `Load` leaves the instance registered with its `Load` recorded, and a complete pass registers and loads the instance |
| Scheduling.SingletonSystem.Track | Assets/UnityGameFramework/Scripts/Runtime/GameFramework/Base/Singleton/SingletonSystem.cs:63-72 | The instance enters the rotation when updatable, and is appended to its group's queue |
| Scheduling.SingletonSystem.Load | Assets/UnityGameFramework/Scripts/Runtime/GameFramework/Base/Singleton/SingletonSystem.cs:32-76 | Unloads the key's old group first; if that throws nothing is created; otherwise the old group is disposed and removed and `LoadTypes` runs on the types, with the same outcome per type |
| Scheduling.SingletonSystem.Update | Assets/UnityGameFramework/Scripts/Runtime/GameFramework/Base/Singleton/SingletonSystem.cs:78-96 | One frame: the visited entries lose their disposed members, the survivors move to the back in order and are updated, and the frame escapes exactly when some live entry's `Update` throws an uncaught exception |
| Scheduling.Rotate | Assets/UnityGameFramework/Scripts/Runtime/GameFramework/Base/Singleton/SingletonSystem.cs:80-95 | The rotation loop: the result is the unvisited tail followed by the visited survivors |
| Scheduling.SingletonSystem.Dispose | Assets/UnityGameFramework/Scripts/Runtime/GameFramework/Base/Singleton/SingletonSystem.cs:115-126 | Drains the groups one key at a time, each key once; on an escape it stops there, leaving the rotation as it was and every group as its drain left it (`Remaining`); otherwise it empties the rotation and the key map, keeps the free-list, and unsubscribes the scheduler |
| Scheduling.SingletonSystem.Clear | Assets/UnityGameFramework/Scripts/Runtime/GameFramework/Base/Singleton/SingletonSystem.cs:122-125 | Empties the rotation and the key map, keeps the free-list, and removes the scheduler's two subscriptions |
| Scheduling.SingletonSystem.KeyOrder | Assets/UnityGameFramework/Scripts/Runtime/GameFramework/Base/Singleton/SingletonSystem.cs:117 | Enumerates every key exactly once |
| Scheduling.SingletonSystem.DrainAll | Assets/UnityGameFramework/Scripts/Runtime/GameFramework/Base/Singleton/SingletonSystem.cs:117-120 | Drains the groups in the given order, stopping after the first group whose drain escapes; the key map is then `Remaining` of the groups drained |
| Scheduling.SingletonSystem.DrainKeys | Assets/UnityGameFramework/Scripts/Runtime/GameFramework/Base/Singleton/SingletonSystem.cs:117-120 | The loop of the drains: every group before the last drained one drained completely, an escape only from the last one, all keys drained when nothing escaped, and the key map `Remaining` of the groups drained |
| Scheduling.SingletonSystem.DrainKey | Assets/UnityGameFramework/Scripts/Runtime/GameFramework/Base/Singleton/SingletonSystem.cs:119 | One loop step: drains one group, which keeps exactly what its drain did not take, moves to the next key and leaves the groups still to come untouched |
| Entities.Decrement | Assets/GameMain/Scripts/Runtime/Entity/EntityExtension.cs:13 | `--` on an `int` is subtraction reduced modulo 2^32 into the 32-bit range |
| Entities.SerialAfterValue | Assets/GameMain/Scripts/Runtime/Entity/EntityExtension.cs:7-15 | Until the counter wraps, the `n`-th id is `-n` |
| Entities.FirstSerials | Assets/GameMain/Scripts/Runtime/Entity/EntityExtension.cs:7-15 | The first id is -1, and each later id is one less than the one before |
| Entities.SerialsDistinct | Assets/GameMain/Scripts/Runtime/Entity/EntityExtension.cs:7-15 | The first 2^31 ids are negative and pairwise distinct |
| Entities.SerialWraps | Assets/GameMain/Scripts/Runtime/Entity/EntityExtension.cs:13 | The call after the 2^31-th returns `int.MaxValue` |
| Entities.EntityExtension.constructor | Assets/GameMain/Scripts/Runtime/Entity/EntityExtension.cs:7 | The counter starts at 0 with no ids issued |
| Entities.EntityExtension.GenerateSerialId | Assets/GameMain/Scripts/Runtime/Entity/EntityExtension.cs:9-15 | Decrements the shared counter and returns its new value; up to 2^31 calls, the id is negative and differs from every earlier one |
| Entities.EntityData.constructor | Assets/GameMain/Scripts/Runtime/Entity/EntityData.cs:29-35 | Id and table id 0, position zero, rotation identity |
| Entities.EntityData.Fill | Assets/GameMain/Scripts/Runtime/Entity/EntityData.cs:37-41 | Sets the id and the table id; position and rotation are kept |
| Entities.EntityData.Clear | Assets/GameMain/Scripts/Runtime/Entity/EntityData.cs:43-49 | Restores the state of a new record |
| Entities.EntityData.SetPosition | Assets/GameMain/Scripts/Runtime/Entity/EntityData.cs:17-21 | Sets the position only |
| Entities.EntityData.SetRotation | Assets/GameMain/Scripts/Runtime/Entity/EntityData.cs:23-27 | Sets the rotation only |
| Entities.ReuseAfterClear | Assets/GameMain/Scripts/Runtime/Entity/EntityData.cs:29-49 | A cleared and refilled record equals a new record filled the same way |
| Binding.As | Assets/GameMain/Scripts/Runtime/Extension/Bind/ComponentAutoBindTool.cs:48 | `as T` yields the same reference exactly when it is non-null and an instance of `T`, and null otherwise; a destroyed component is still a reference |
| Binding.GetBindComponent | Assets/GameMain/Scripts/Runtime/Extension/Bind/ComponentAutoBindTool.cs:40-57 | Each outcome, with its exact condition: an index at or past the end is logged as invalid, a negative index throws, a null, destroyed or wrongly typed slot is logged as an invalid type, and otherwise the stored live component is returned |
| Binding.BoundUnderEveryKind | Assets/GameMain/Scripts/Runtime/Extension/Bind/ComponentAutoBindTool.cs:50-57 | A component found as `T` is also found, the same one, as any type it is an instance of |
| Binding.LookupIsLocal | Assets/GameMain/Scripts/Runtime/Extension/Bind/ComponentAutoBindTool.cs:40-57 | Replacing another slot never changes a lookup's result |
| Binding.DestroyedIsInvalid | Assets/GameMain/Scripts/Runtime/Extension/Bind/ComponentAutoBindTool.cs:48-53 | Once the component in a slot is destroyed, looking it up fails as an invalid type, under any type |
| ByteSizes.QuotAtLeastOne | Assets/GameMain/Scripts/Editor/Extension/DataTableExtension/LuBanDataTableComponentEditor.cs:31-35 | The truncated quotient is at least 1 exactly when the size reaches the unit |
| ByteSizes.Digits | Assets/GameMain/Scripts/Editor/Extension/DataTableExtension/LuBanDataTableComponentEditor.cs:38 | A non-empty string of decimal digits with no leading zero |
| ByteSizes.DigitsRoundTrip | Assets/GameMain/Scripts/Editor/Extension/DataTableExtension/LuBanDataTableComponentEditor.cs:38 | The digits of a natural number read back as the number |
| ByteSizes.DecimalRoundTrip | Assets/GameMain/Scripts/Editor/Extension/DataTableExtension/LuBanDataTableComponentEditor.cs:38 | The decimal text of any integer, negative ones included, reads back as the integer |
| ByteSizes.ByteConversionGBMBKB | Assets/GameMain/Scripts/Editor/Extension/DataTableExtension/LuBanDataTableComponentEditor.cs:25-39 | Each label, with its exact condition: GB from 1 GB upward, MB from 1 MB to below 1 GB, KB from 1 KB to below 1 MB, and the exact size followed by "Byte" below 1 KB |
| ByteSizes.SmallSizeExact | Assets/GameMain/Scripts/Editor/Extension/DataTableExtension/LuBanDataTableComponentEditor.cs:37-38 | Below 1 KB, zero and negative sizes included, the label is an integer that reads back as the size, followed by "Byte" |
| ByteSizes.ScaledInRange | Assets/GameMain/Scripts/Editor/Extension/DataTableExtension/LuBanDataTableComponentEditor.cs:31-36 | A scaled label's exact quotient, before rounding, is at least 1, and below 1024 unless the unit is GB |

## Left out

- Reflection (`GetTypes`, `GetInterfaces`, `BaseType`, `GetMethod`,
  `Activator.CreateInstance`) is replaced by type descriptors. Each
  descriptor says what reflection would report and how the type's overrides
  end.
- User code (module constructors and `Initialize`/`Load`/`Update`/`Dispose`
  overrides) is opaque. Each type descriptor says how each of them ends:
  normally, with a GameFrameworkException or with another exception. A
  `Load`, `Update` or `Dispose` call records a trace entry. In `Load` of the
  scheduler, any exception escapes, because reflection wraps it. A throwing
  `Dispose` override is taken to throw before the base `Dispose` runs. The
  `UnLoad(int)` overrides are only subscribed, never called, since handlers
  are not run.
- Event dispatch is left out. A raised event is recorded as one `Fired` trace
  entry when it has subscribers; the subscribed handlers are not run. So the
  registry does not call the scheduler's `Load`/`UnLoad`.
- Registry.AssemblyManager.LoadAssembly: does not model the handlers that
  the events invoke.
- Scheduling.SingletonSystem.Load: receives `Foreach(assemblyName,
  typeof(ISingleton))` as its `singletonTypes` argument instead of calling
  the registry.
- Scheduling.SingletonSystem.Load: the early return when a type has no
  register hook ends the loop after creating that type (`Aborted`), as does
  an exception. The logged error is not modelled.
- Singletons.Singleton.Initialize: only how the call itself ends is
  modelled. `Initialize` is asynchronous; a fault inside the returned task
  is not modelled, and `UniTask.WhenAll` is neither awaited nor modelled.
  The default `Initialize` completes at once.
- Scheduling.SingletonSystem.Update: the `float` frame times are not passed,
  and logging is left out.
- Scheduling.SingletonSystem.Update: the update trace is appended after the
  rotation as one block. In the source, entries are interleaved one by one.
  The order of the `Update` calls is the same.
- Scheduling.SingletonSystem.Dispose: the dictionary's enumeration order is
  unspecified. The method returns the order it took as a ghost value instead
  of fixing one.
- Scheduling.SingletonSystem.Dispose: models `foreach` over
  `singletons.Values` as draining key by key. A drain that changes the
  dictionary during enumeration cannot happen here, because `UnLoad(queue)`
  never removes keys.
- Logging (`Debug.LogError`, `Log.Error`) is left out. So is the `lock` in
  `GenerateSerialId`: there is no concurrency in the model, and the lock
  only serialises calls.
- Entities.EntityExtension.GenerateSerialId: the `EntityComponent` receiver
  plays no part and is an empty class.
- Entities.EntityData: `Vector3` and `Quaternion` are stored, never computed
  with, so they are records of `real`s. `IReference` pooling is not part of
  this model.
- ByteSizes.ByteConversionGBMBKB: the quotient is modelled as the exact
  real quotient, before `Math.Round(…, 2)` and before `float` rounding.
  Culture-dependent number formatting is not modelled. `long` is modelled
  as an unbounded integer, which changes no branch.
- Binding: a component is either alive or destroyed. The engine's
  pending destruction within a frame is not modelled.
- Pooling.DequeueAll: requires a non-empty queue, since it is
  a client that dequeues a known count.
- Pooling: `null` values are `None`. `TryDequeue`'s null test is therefore
  exact for reference values. A value-type `TValue`, whose default is not
  null, is not modelled.
- Multicast-delegate invocation semantics (a snapshot of the invocation list
  taken when an event is raised) are not modelled, because handlers are not
  run.
- AssemblyManager's `GameFrameworkMultiDictionary` and
  `GameFrameworkLinkedListRange` are modelled as a map from capability to
  sequence. Their pooling of linked-list nodes is not part of this model.
