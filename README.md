# Iftm.ComputedProperties in Dafny

This project models the core of Iftm.ComputedProperties. That C# library makes computed properties of
`INotifyPropertyChanged` objects fire change notifications by themselves. A computed property is
declared by an expression over the object. The library handles them in these steps:

- **Rewrite.** The dependency collector rewrites the expression so that every observable property
  read also records the pair (source, property) in a per-thread buffer, tagged with a cookie.
- **Reconcile.** After each evaluation the object reconciles the recorded reads with its dependency
  edges (target property, source or "this", source property).
- **Subscribe.** While the object has listeners, it is meant to keep exactly one subscription per
  distinct external source. The code as written can drop a source that is still used (see Findings).
- **Notify.** When a property changes, the notification goes out for it and for every property that
  depends on it, transitively. The subclasses `WithCachedProperties` and
  `WithStoredComputedProperties` also keep a list of valid properties, which a notification
  invalidates.
- **Async bridges.** `TaskModel<T>` and `TaskPropertyChanged<T>` turn a cancellable async factory
  into a notifying object that settles once.

The modules follow the source files:

| module | file | models |
|---|---|---|
| `Types` | `types.dfy` | results, errors, 32-bit wrap-around, object identities |
| `InPlaceLists` | `in_place_list.dfy` | `InPlaceList<T>`: a class over an array and a count |
| `Dependencies` | `dependencies.dfy` | dependency edges, the pure specification of `SetDependencies` (`Scan`, `Replace`, `Reconciled`) |
| `Propagation` | `propagation.dfy` | the transitive closure of notifications (`Visit`, `Seeded`) against the reachability relation |
| `Subscriptions` | `subscriptions.dfy` | the ledger of subscriptions held on other objects and the specification of `UpdateSubscriptions` |
| `ValiditySets` | `validity.dfy` | the valid-property list of the two subclasses |
| `Reconciliation` | `reconciliation.dfy` | the loops of `SetDependencies` and its helpers, proved against `Dependencies` and `Subscriptions` |
| `ComputedObjects` | `computed_object.dfy` | the class `WithComputedProperties`, with `variant` choosing the base class or a subclass |
| `DependencyCollector` | `dependency_collector.dfy` | `DependencyCollection.AddDependency` and the expression rewrite on an expression datatype |
| `ComputedProperties` | `computed_property.dfy` | the per-thread buffer and its cookie, `Eval`, cached `Eval`, `RemoveMatchingInputs` |
| `TaskBridges` | `task_bridge.dfy` | the state machine shared by the two async bridges |
| `TaskModels` | `task_model.dfy` | `TaskModel<T>`, its identity subclass, equality and the `Create` overloads |
| `TaskNotifiers` | `task_property_changed.dfy` | `TaskPropertyChanged<T>` |

Other objects are numbered (`ObjId`). A change notification a listener receives is recorded in the
object's `log`. A subscription to another object's `PropertyChanged` is a count in the ledger
`upstream`. A listener exception is modelled by an optional index: the index of the notification
whose listener throws.

## Model

| member | source | states |
|---|---|---|
| `InPlaceLists.InPlaceList.constructor` | Iftm.ComputedProperties/InPlaceList.cs:10-12 | a new list is empty and has no array (capacity 0) |
| `InPlaceLists.InPlaceList.Expand` | Iftm.ComputedProperties/InPlaceList.cs:86-93 | the first growth allocates 4 slots; a full array doubles; the elements are kept |
| `InPlaceLists.InPlaceList.Add` | Iftm.ComputedProperties/InPlaceList.cs:14-17 | the contents become the old contents followed by the value; capacity follows the growth policy |
| `InPlaceLists.InPlaceList.Get` | Iftm.ComputedProperties/InPlaceList.cs:19-24 | succeeds exactly for an index in range, with the element there; otherwise `IndexOutOfRange` |
| `InPlaceLists.InPlaceList.Set` | Iftm.ComputedProperties/InPlaceList.cs:19-24 | writes the element at an index in range, else fails with `IndexOutOfRange` and changes nothing |
| `InPlaceLists.InPlaceList.Clear` | Iftm.ComputedProperties/InPlaceList.cs:28-33 | empties the list and keeps the array |
| `InPlaceLists.InPlaceList.RemoveRange` | Iftm.ComputedProperties/InPlaceList.cs:35-45 | checks the arguments in the source's order and errors; on success the contents lose exactly `[index, index+n)` |
| `InPlaceLists.InPlaceList.RemoveAt` | Iftm.ComputedProperties/InPlaceList.cs:47-53 | removes exactly the element at an index in range; otherwise `IndexOutOfRange` and no change |
| `InPlaceLists.InPlaceList.AsReadOnlySpan` | Iftm.ComputedProperties/InPlaceList.cs:72-78 | the slice `[start, start+length)` exactly when it is in range; otherwise the source's error for each bad argument |
| `InPlaceLists.InPlaceList.AsReadOnlySpanFrom` | Iftm.ComputedProperties/InPlaceList.cs:80 | the suffix from `start` exactly when `start` is in range |
| `InPlaceLists.InPlaceList.IndexOfRange` | Iftm.ComputedProperties/InPlaceList.cs:55-64 | errors exactly as the span does; otherwise the first position of the value in the range, or -1 when it is absent |
| `InPlaceLists.InPlaceList.IndexOf` | Iftm.ComputedProperties/InPlaceList.cs:66 | the first position of the value, or -1 exactly when it is absent |
| `InPlaceLists.InPlaceList.ContainsRange` | Iftm.ComputedProperties/InPlaceList.cs:68 | whether the value occurs in the range, with the span's errors |
| `InPlaceLists.InPlaceList.Contains` | Iftm.ComputedProperties/InPlaceList.cs:70 | true exactly when the value is in the list |
| `Types.Wrap32` | Iftm.ComputedProperties/ComputedProperty.cs:49 | C# `int` arithmetic: a value in range is unchanged; every result is in range and differs from the mathematical value by a multiple of 2^32 |
| `Types.AsUInt` | Iftm.ComputedProperties/InPlaceList.cs:21 | the `(uint)` cast: a negative index becomes at least 2^31, which is never below a count, so one comparison rejects both bad signs |
| `Dependencies.NullIfThis` | Iftm.ComputedProperties/WithComputedProperties.cs:209-212 | a read of the object itself loses its source; no pair names the object as its source |
| `Dependencies.CookiePairs` | Iftm.ComputedProperties/WithComputedProperties.cs:320-324 | the pairs the write loop takes from the buffer: the `NullIfThis` pair of every entry carrying the cookie, and no other pair |
| `Dependencies.NextCookie` | Iftm.ComputedProperties/WithComputedProperties.cs:216-222 | the next index past `i` holding the cookie, or the end; every entry skipped has another cookie |
| `Dependencies.Scan` | Iftm.ComputedProperties/WithComputedProperties.cs:344-357 | the scan of the target's edges against the reads stops inside the reads |
| `Dependencies.ScanSlots` | Iftm.ComputedProperties/WithComputedProperties.cs:344-357 | the slots the scan marks for removal are strictly ascending, in range and all belong to the target |
| `Dependencies.ReplaceOthers` | Iftm.ComputedProperties/WithComputedProperties.cs:320-335 | replacing the target's edges leaves every edge of other targets in place and in order |
| `Dependencies.ReplaceCount` | Iftm.ComputedProperties/WithComputedProperties.cs:320-335 | replacing adds the new pairs and removes the pairs at the consumed slots, counted pair by pair |
| `Dependencies.ReconciledCount` | Iftm.ComputedProperties/WithComputedProperties.cs:338-362 | after reconciliation the target has each pair exactly as often as the evaluation read it |
| `Dependencies.ReconciledInOrder` | Iftm.ComputedProperties/WithComputedProperties.cs:359-361 | when the edges already list the reads in order, nothing is rewritten |
| `Dependencies.ReconciledViews` | Iftm.ComputedProperties/WithComputedProperties.cs:313-362 | the target's pairs form the multiset of the reads; other targets' edges are unchanged; reads in order change nothing |
| `Propagation.Visit` | Iftm.ComputedProperties/WithComputedProperties.cs:63-73 | the scratch list only grows: the names already collected stay a prefix |
| `Propagation.VisitNoDups` | Iftm.ComputedProperties/WithComputedProperties.cs:64 | the collected names hold no duplicates |
| `Propagation.VisitSound` | Iftm.ComputedProperties/WithComputedProperties.cs:68-72 | every name collected is reachable over this-object edges from the changed name |
| `Propagation.VisitClosed` | Iftm.ComputedProperties/WithComputedProperties.cs:63-73 | the changed name is collected, and the collection is closed under dependents |
| `Propagation.AnnouncedClosure` | Iftm.ComputedProperties/WithComputedProperties.cs:99-115 | the names announced for a change start with it, hold no duplicates and are exactly the names reachable from it |
| `Propagation.VisitRoom` | Iftm.ComputedProperties/WithComputedProperties.cs:63-73 | the collection grows by at most the number of edges not yet listed, which bounds the scratch list |
| `Propagation.Seeded` | Iftm.ComputedProperties/WithComputedProperties.cs:125-131 | the seeding pass only appends to the scratch list |
| `Propagation.SeededSound` | Iftm.ComputedProperties/WithComputedProperties.cs:125-131 | every name seeded is reachable from a target of an edge on the sender that the notification concerns |
| `Propagation.SeededNoDups` | Iftm.ComputedProperties/WithComputedProperties.cs:125-131 | the seeded collection holds no duplicates |
| `Propagation.SeededClosed` | Iftm.ComputedProperties/WithComputedProperties.cs:125-131 | every concerned edge's target is collected, and the collection is closed under dependents |
| `Propagation.UpstreamClosure` | Iftm.ComputedProperties/WithComputedProperties.cs:117-138 | the names announced for an input's change hold no duplicates and are exactly those reachable from a concerned edge's target |
| `Propagation.SimpleAnnounceA` | Iftm.ComputedProperties.Test/ComputedPropertiesTests.cs:70-73 | with `C => A + 1` and `D => B + C`, setting `A` announces `A`, `C`, `D`, in that order |
| `Propagation.SimpleAnnounceB` | Iftm.ComputedProperties.Test/ComputedPropertiesTests.cs:81-84 | setting `B` announces `B`, `D` |
| `Subscriptions.Subscribe` | Iftm.ComputedProperties/WithComputedProperties.cs:165 | `+=` adds one subscription on that source and no other |
| `Subscriptions.Unsubscribe` | Iftm.ComputedProperties/WithComputedProperties.cs:186 | `-=` removes one subscription on that source if there is one, and touches no other |
| `Subscriptions.KeepSources` | Iftm.ComputedProperties/WithComputedProperties.cs:224-238 | the sources left after removing slots are the sources of the kept edges |
| `Subscriptions.ReplaceSources` | Iftm.ComputedProperties/WithComputedProperties.cs:313-336 | after replacement the sources are those of the kept edges plus those of the new reads |
| `Subscriptions.ReplaceKeepsSync` | Iftm.ComputedProperties/WithComputedProperties.cs:240-336 | with the corrected and complete still-used test, a ledger that held one subscription per source of the old edges holds one per source of the new edges |
| `Subscriptions.StaleScan` | Iftm.ComputedProperties/WithComputedProperties.cs:344-357 | on the concrete edges and reads of the finding, the scan removes slot 1 and consumes both reads |
| `Subscriptions.StaleKeepsSource` | Iftm.ComputedProperties/WithComputedProperties.cs:313-336 | on the same input, the reconciled edges still read source 1 |
| `Subscriptions.AsWrittenDropsLiveSource` | Iftm.ComputedProperties/WithComputedProperties.cs:296-309 | on a concrete object, the source test as written reports a source unused although the new edges keep it; the corrected test reports it used |
| `ValiditySets.FirstIndex` | Iftm.ComputedProperties/WithCachedProperties.cs:20 | the first position of a present name |
| `ValiditySets.SwapRemoveMembers` | Iftm.ComputedProperties/WithCachedProperties.cs:20-25 | moving the last name into the removed slot keeps the list free of duplicates and removes exactly that name |
| `ValiditySets.InvalidatedMembers` | Iftm.ComputedProperties/WithCachedProperties.cs:15-26 | a notification for a name leaves exactly the other valid names; for all properties, none |
| `ValiditySets.ValidatedMembers` | Iftm.ComputedProperties/WithCachedProperties.cs:32-34 | marking valid adds the name at most once |
| `ValiditySets.StaysValid` | Iftm.ComputedProperties/WithCachedProperties.cs:15-34 | a name just marked valid stays valid when another name is announced |
| `Reconciliation.IncrementInputIndex` | Iftm.ComputedProperties/WithComputedProperties.cs:216-222 | the do-while loop computes `NextCookie` |
| `Reconciliation.RemoveIndices` | Iftm.ComputedProperties/WithComputedProperties.cs:224-238 | in place, in the same array, the list keeps exactly the elements not at the given ascending indices, in order |
| `Reconciliation.HasSource` | Iftm.ComputedProperties/WithComputedProperties.cs:255-261 | found exactly when an existing edge names the source |
| `Reconciliation.HasPending` | Iftm.ComputedProperties/WithComputedProperties.cs:265-272 | found exactly when an entry between the bounds with the cookie names the source |
| `Reconciliation.HasKeptSource` | Iftm.ComputedProperties/WithComputedProperties.cs:298-304 | found exactly when an edge outside the removed slots names the source (the corrected test) |
| `Reconciliation.SubscribePass` | Iftm.ComputedProperties/WithComputedProperties.cs:245-278 | the ledger gains one subscription for every new source that neither an edge nor an earlier read names |
| `Reconciliation.UnsubscribePass` | Iftm.ComputedProperties/WithComputedProperties.cs:280-310 | the ledger loses one subscription for each removed source that no read and no kept edge still uses |
| `Reconciliation.ScanEdges` | Iftm.ComputedProperties/WithComputedProperties.cs:339-357 | the loop computes the slots to rewrite and the first unmatched read, as `Scan` specifies |
| `Reconciliation.WriteEntries` | Iftm.ComputedProperties/WithComputedProperties.cs:320-333 | writing the remaining reads into the freed slots, then appending, and dropping what is left gives `Replace` |
| `Reconciliation.ReplaceNoSelf` | Iftm.ComputedProperties/WithComputedProperties.cs:320-335 | a reconciled edge never names the object itself as its source |
| `ComputedObjects.NamedEarlier` | Iftm.ComputedProperties/WithComputedProperties.cs:157-163 | true exactly when an earlier edge has the same source |
| `ComputedObjects.AddPropertyWithDependencies` | Iftm.ComputedProperties/WithComputedProperties.cs:63-73 | in the scratch list, the part past `start` becomes the `Visit` closure; what lies before it is kept |
| `ComputedObjects.FollowDependents` | Iftm.ComputedProperties/WithComputedProperties.cs:68-72 | the `foreach` over the edges computes `VisitEdges` |
| `ComputedObjects.CollectSeeded` | Iftm.ComputedProperties/WithComputedProperties.cs:125-131 | the `foreach` over the edges on the sender computes `Seeded` |
| `ComputedObjects.InvalidatedAllMembers` | Iftm.ComputedProperties/WithCachedProperties.cs:15-28 | announcing names one by one leaves exactly the valid names that were not announced |
| `ComputedObjects.ComputedObject.constructor` | Iftm.ComputedProperties/WithComputedProperties.cs:16-30 | a new object has no edges, no listeners, no subscriptions and no valid properties |
| `ComputedObjects.ComputedObject.OnListenersAttached` | Iftm.ComputedProperties/WithComputedProperties.cs:152-168 | one subscription is added on every distinct external source, and on nothing else |
| `ComputedObjects.ComputedObject.OnListenersDetached` | Iftm.ComputedProperties/WithComputedProperties.cs:173-189 | one subscription is removed from every distinct external source |
| `ComputedObjects.ComputedObject.AddHandler` | Iftm.ComputedProperties/WithComputedProperties.cs:195-200 | a null handler is rejected; the first listener subscribes to exactly the sources of the edges |
| `ComputedObjects.ComputedObject.RemoveHandler` | Iftm.ComputedProperties/WithComputedProperties.cs:201-206 | it is ignored without listeners and rejects a null handler; removing the last listener leaves no subscription |
| `ComputedObjects.ComputedObject.Dispose` | Iftm.ComputedProperties/WithComputedProperties.cs:373-378 | drops all listeners and every subscription; it is a no-op without listeners |
| `ComputedObjects.ComputedObject.HasListeners` | Iftm.ComputedProperties/WithComputedProperties.cs:367 | true exactly when some handler is subscribed to `PropertyChanged` |
| `ComputedObjects.ComputedObject.InvalidateValid` | Iftm.ComputedProperties/WithCachedProperties.cs:15-27 | the valid list becomes `Invalidated` of the old list, in the same array |
| `ComputedObjects.ComputedObject.OnPropertyChanged` | Iftm.ComputedProperties/WithComputedProperties.cs:75-93 | the subclasses invalidate first; the name reaches the listeners only if there are some; a throwing listener surfaces |
| `ComputedObjects.ComputedObject.FirePropertyChanged` | Iftm.ComputedProperties/WithComputedProperties.cs:95-97 | the names are announced in order up to the first listener exception, and each announced name is invalidated |
| `ComputedObjects.ComputedObject.OnMyPropertyChanged` | Iftm.ComputedProperties/WithComputedProperties.cs:99-115 | all properties are announced alone; a name is announced with its transitive dependents; the scratch list is restored |
| `ComputedObjects.ComputedObject.FireCollected` | Iftm.ComputedProperties/WithComputedProperties.cs:109-113 | fires the collected names, then cuts the scratch list back, also after a listener exception |
| `ComputedObjects.ComputedObject.SetProperty` | Iftm.ComputedProperties/WithComputedProperties.cs:41-50 | a null name throws; an equal value gives false and changes nothing; otherwise it stores the value, announces the closure and gives true |
| `ComputedObjects.ComputedObject.OnInputPropertyChanged` | Iftm.ComputedProperties/WithComputedProperties.cs:117-138 | it is ignored without listeners; otherwise it announces the closure of the targets of the edges on the sender that the notification concerns |
| `ComputedObjects.ComputedObject.IsPropertyValid` | Iftm.ComputedProperties/WithCachedProperties.cs:31 | true exactly when the name is in the valid list |
| `ComputedObjects.ComputedObject.SetPropertyValid` | Iftm.ComputedProperties/WithCachedProperties.cs:32-34 | the valid list becomes `Validated` of the old list, without duplicates |
| `ComputedObjects.ComputedObject.UpdateSubscriptions` | Iftm.ComputedProperties/WithComputedProperties.cs:240-311 | the ledger changes by the subscribe pass and then the (corrected) unsubscribe pass, source by source |
| `ComputedObjects.ComputedObject.ReplaceDependencies` | Iftm.ComputedProperties/WithComputedProperties.cs:313-336 | the edges become `Replace` of the old edges; with listeners the ledger stays in sync with the sources |
| `ComputedObjects.ComputedObject.SetDependencies` | Iftm.ComputedProperties/WithComputedProperties.cs:338-362 | the edges become `Reconciled`; the stored subclass first marks the target valid; the invariant holds |
| `ComputedProperties.Storage.GetDependencyStorage` | Iftm.ComputedProperties/ComputedProperty.cs:46-50 | creates the buffer on first use; the cookie is the old one plus 1, wrapped to 32 bits |
| `ComputedProperties.Storage.constructor` | Iftm.ComputedProperties/ComputedProperty.cs:40-44 | a thread starts with no buffer and cookie 0 |
| `ComputedProperties.RemoveMatchingInputs` | Iftm.ComputedProperties/ComputedProperty.cs:83-95 | the buffer keeps exactly the entries with other cookies, in order |
| `ComputedProperties.WithoutRecorded` | Iftm.ComputedProperties/ComputedProperty.cs:57-65 | removing an evaluation's cookie undoes the entries it recorded |
| `ComputedProperties.BufferPairs` | Iftm.ComputedProperties/ComputedProperty.cs:57-63 | of a buffer with older entries, the reconciliation sees only this evaluation's reads |
| `ComputedProperties.CallAndGetDependencies` | Iftm.ComputedProperties/ComputedProperty.cs:23-26 | runs the derivation, which appends one entry per read with the cookie |
| `ComputedProperties.Eval` | Iftm.ComputedProperties/ComputedProperty.cs:54-67 | a null name throws first; the edges of the property are reconciled with the reads (also when the derivation throws); with an unwrapped counter the buffer is restored, which implies the `Debug.Assert` |
| `ComputedProperties.FreshEvalViews` | Iftm.ComputedProperties/ComputedProperty.cs:57-65 | with a fresh cookie, the edges of the property hold exactly the multiset of its reads, and nothing else changes |
| `ComputedProperties.EvalCached` | Iftm.ComputedProperties/ComputedProperty.cs:69-81 | a null name throws; a valid property returns the last value untouched; otherwise it evaluates, stores the value and marks the property valid, but not when the derivation throws |
| `DependencyCollector.AddDependency` | Iftm.ComputedProperties/DependencyCollector.cs:21-24 | appends (source, property, cookie) to the storage and returns the source |
| `DependencyCollector.EntryBuffer.constructor` | Iftm.ComputedProperties/ComputedProperty.cs:48 | a new buffer is empty |
| `DependencyCollector.Visit` | Iftm.ComputedProperties/DependencyCollector.cs:51-61 | the rewrite keeps the type of every expression |
| `DependencyCollector.Create` | Iftm.ComputedProperties/DependencyCollector.cs:34-42 | the rewritten body keeps the type of the body |
| `DependencyCollector.CheckRejects` | Iftm.ComputedProperties/DependencyCollector.cs:63-71 | inside a nested lambda, the check fails exactly when the lambda reads an observable property or a static property |
| `DependencyCollector.CheckArgument` | Iftm.ComputedProperties/DependencyCollector.cs:64-67 | without static property reads, a failure is the `ArgumentException` for a nested read |
| `DependencyCollector.Check` | Iftm.ComputedProperties/DependencyCollector.cs:63-71 | checking a nested lambda fails only with the `ArgumentException` for a nested observable read or the `NullReferenceException` of a static property read |
| `DependencyCollector.VisitRejects` | Iftm.ComputedProperties/DependencyCollector.cs:47-61 | the rewrite fails exactly on a static property access or a rejected nested lambda (both directions) |
| `DependencyCollector.VisitArgument` | Iftm.ComputedProperties/DependencyCollector.cs:47-50 | without static property reads, a failure is the nested-lambda `ArgumentException` |
| `DependencyCollector.VisitStrip` | Iftm.ComputedProperties/DependencyCollector.cs:51-61 | erasing the recording calls from the rewrite gives back the erased input |
| `DependencyCollector.WrittenStrip` | Iftm.ComputedProperties/DependencyCollector.cs:51-57 | a tree as the user writes it holds no recording calls, so erasing them gives the tree back unchanged |
| `DependencyCollector.CreateStrip` | Iftm.ComputedProperties/DependencyCollector.cs:34-42 | for a source expression, erasing the recording calls from `Create`'s result gives the expression back |
| `DependencyCollector.VisitTrace` | Iftm.ComputedProperties/DependencyCollector.cs:51-57 | the recording calls of the rewrite are exactly the observable reads outside lambdas, receiver first |
| `DependencyCollector.VisitUnchanged` | Iftm.ComputedProperties/DependencyCollector.cs:58-60 | an expression without observable reads comes back unchanged |
| `TaskBridges.ValueOf` | Iftm.ComputedProperties/TaskModel.cs:63-67 | `Value` rethrows the stored exception exactly when there is one, else gives the stored value |
| `TaskBridges.Start` | Iftm.ComputedProperties/TaskModel.cs:97-102 | starting an attempt numbers it, marks it running and holds its handle, and changes nothing visible |
| `TaskBridges.CancelHandle` | Iftm.ComputedProperties/TaskModel.cs:89-92 | cancelling drops the handle and marks its attempt cancelled; nothing else changes |
| `TaskBridges.Attach` | Iftm.ComputedProperties/TaskModel.cs:75-83 | it is a no-op once settled; a null handler is rejected; the first listener starts exactly one attempt with a new handle; later listeners start nothing |
| `TaskBridges.Detach` | Iftm.ComputedProperties/TaskModel.cs:84-94 | it is a no-op without listeners; a null handler is rejected; the last listener's removal cancels the attempt and drops its handle |
| `TaskBridges.Dispose` | Iftm.ComputedProperties/TaskModel.cs:130-139 | it is a no-op without listeners; otherwise it drops them and cancels the running attempt |
| `TaskBridges.Settled` | Iftm.ComputedProperties/TaskModel.cs:109-113 | settling stores the result, clears the handle, sends one notification to the listeners present and drops them |
| `TaskBridges.Finish` | Iftm.ComputedProperties/TaskModel.cs:104-123 | an attempt that was cancelled, or that ends with cancellation of its own token, changes nothing; any other attempt settles |
| `TaskBridges.FinishAsWritten` | Iftm.ComputedProperties/TaskModel.cs:104-123 | as written: with listeners attached, an attempt that returns, or that was not cancelled, ends as in `Finish`. Any attempt that throws something other than cancellation of its own token settles with that exception, drops the handle and notifies the listeners present. With no listener, an attempt not cancelled that returns stores its value and then the caught `NullReferenceException` of `_propertyChanged!`. An exception escapes exactly when no listener is left and the attempt is not ignored |
| `TaskBridges.InitialInv` | Iftm.ComputedProperties/TaskModel.cs:48-50 | a new bridge satisfies the invariant |
| `TaskBridges.AttachInv` | Iftm.ComputedProperties/TaskModel.cs:75-83 | attaching keeps the invariant: one live attempt at most, holding the handle, and a handle exactly while listeners exist |
| `TaskBridges.DetachInv` | Iftm.ComputedProperties/TaskModel.cs:84-94 | detaching keeps the invariant |
| `TaskBridges.DisposeInv` | Iftm.ComputedProperties/TaskModel.cs:130-139 | disposing keeps the invariant |
| `TaskBridges.FinishInv` | Iftm.ComputedProperties/TaskModel.cs:104-123 | the end of an attempt keeps the invariant |
| `TaskBridges.StartsWithoutHandle` | Iftm.ComputedProperties/TaskModel.cs:98 | an attempt is only started when no handle is held |
| `TaskBridges.FinishSettlesCurrent` | Iftm.ComputedProperties/TaskModel.cs:104-123 | only the attempt holding the handle settles; it notifies a non-empty set of listeners exactly once and `Value` becomes its result |
| `TaskBridges.ValueBeforeSettling` | Iftm.ComputedProperties/TaskModel.cs:58-67 | before settling, `Value` is the default of `T` |
| `TaskBridges.SettledIsFinal` | Iftm.ComputedProperties/TaskModel.cs:26-28 | once settled, attach, detach and dispose change nothing, and no later completion changes `Value` or notifies |
| `TaskBridges.RestartSettles` | Iftm.ComputedProperties.Test/TaskPropertyChangedTests.cs:72-112 | attach, detach, attach: the first attempt is cancelled and ignored; the second settles to its value and notifies once |
| `TaskBridges.LiveAttemptHasListeners` | Iftm.ComputedProperties/TaskModel.cs:84-102 | under the invariant that `Finish` keeps, an attempt that is running and not cancelled has listeners, so its success path has someone to notify |
| `TaskBridges.StaleFaultSettles` | Iftm.ComputedProperties/TaskModel.cs:117-123 | as written, a cancelled attempt that fails settles the bridge with its stale exception, drops the live attempt's handle and breaks the invariant |
| `TaskBridges.StaleFaultThenReturn` | Iftm.ComputedProperties/TaskModel.cs:109-121 | as written, after the stale fault the second attempt, never cancelled, returns on the settled bridge with no listener: `Value` changes from the stale failure to the null-delegate exception, and an exception escapes |
| `TaskBridges.StaleFaultWithoutListeners` | Iftm.ComputedProperties/TaskPropertyChanged.cs:117-123 | as written, a cancelled attempt failing with no listener left runs into the null `_propertyChanged` |
| `TaskBridges.CancelledNeverSettles` | Iftm.ComputedProperties/TaskModel.cs:22-23 | as intended, a cancelled attempt never settles or notifies, whatever it ends with |
| `TaskModels.Equals` | Iftm.ComputedProperties/TaskModel.cs:141 | the base class compares delegates and throws on null; the identity subclass compares identities (TaskModel.cs:157-160) |
| `TaskModels.EqualsObject` | Iftm.ComputedProperties/TaskModel.cs:142 | `Equals(object)` is true exactly for a model that compares equal |
| `TaskModels.OpEquals` | Iftm.ComputedProperties/TaskModel.cs:143 | `==` is `Equals` of the left operand, so a null left operand throws |
| `TaskModels.OpNotEquals` | Iftm.ComputedProperties/TaskModel.cs:144 | `!=` is the negation of `==`, and throws when `==` does |
| `TaskModels.PlainEquality` | Iftm.ComputedProperties/TaskModel.cs:164-165 | models made by `Create(factory)` are equal exactly when they share the delegate |
| `TaskModels.BoundEquality` | Iftm.ComputedProperties/TaskModel.cs:167-180 | models made by `Create(args…, factory)` are equal exactly when the arguments and the factory are, whatever closures they store |
| `TaskModels.EqualsEquivalence` | Iftm.ComputedProperties/TaskModel.cs:141-160 | among models of one kind, `Equals` is reflexive, symmetric and transitive |
| `TaskModels.PlainHashAlike` | Iftm.ComputedProperties/TaskModel.cs:141-145 | for plain models, equal models hash alike, since the hash is that of the compared delegate |
| `TaskModels.HashCode` | Iftm.ComputedProperties/TaskModel.cs:145 | the hash is that of the stored delegate alone; the identity takes no part in it |
| `TaskModels.EqualModelsHashApart` | Iftm.ComputedProperties/TaskModel.cs:145 | as written, two equal models from repeated `Create(arg, factory)` calls hash as their two different closures do; with delegate hashes abstracted by delegate identity, they hash differently |
| `TaskModels.EqualModelsHashAlike` | Iftm.ComputedProperties/TaskModel.cs:157-160 | hashing the identity in the subclass makes equal models hash alike |
| `TaskModels.TaskModel.constructor` | Iftm.ComputedProperties/TaskModel.cs:48-50 | a new model is unsettled, with `Value` the default and no listeners |
| `TaskModels.TaskModel.Value` | Iftm.ComputedProperties/TaskModel.cs:63-67 | returns `ValueOf` the state: the default of `T` before settling |
| `TaskModels.TaskModel.AddPropertyChanged` | Iftm.ComputedProperties/TaskModel.cs:75-83 | the new state is `Attach` of the old one, or the error and no change; the invariant holds |
| `TaskModels.TaskModel.GetTaskResultAsync` | Iftm.ComputedProperties/TaskModel.cs:97-102 | the new state is `Start`: a new handle for a new attempt |
| `TaskModels.TaskModel.Complete` | Iftm.ComputedProperties/TaskModel.cs:104-123 | the new state is `Finish` of the old one, and the invariant holds |
| `TaskModels.TaskModel.RemovePropertyChanged` | Iftm.ComputedProperties/TaskModel.cs:84-94 | the new state is `Detach`, or the error and no change |
| `TaskModels.TaskModel.Dispose` | Iftm.ComputedProperties/TaskModel.cs:130-139 | the new state is `Dispose` of the old one |
| `TaskModels.Create` | Iftm.ComputedProperties/TaskModel.cs:164-165 | rejects a null factory; otherwise gives a new unsettled model keyed by the factory |
| `TaskModels.CreateBound` | Iftm.ComputedProperties/TaskModel.cs:167-180 | a new model keyed by the closure, with the tuple (arguments, factory) as its identity |
| `TaskModels.CreateWithIdentity` | Iftm.ComputedProperties/TaskModel.cs:151-155 | the subclass constructor: rejects a null factory, else a new model with that identity |
| `TaskNotifiers.TaskPropertyChanged.constructor` | Iftm.ComputedProperties/TaskPropertyChanged.cs:46-48 | a new object holds its factory and is unsettled |
| `TaskNotifiers.TaskPropertyChanged.HasValue` | Iftm.ComputedProperties/TaskPropertyChanged.cs:54 | true exactly when the bridge state has settled, which is when the factory has been cleared |
| `TaskNotifiers.TaskPropertyChanged.Value` | Iftm.ComputedProperties/TaskPropertyChanged.cs:61-66 | returns the result or rethrows the exception; before settling, the default of `T` |
| `TaskNotifiers.TaskPropertyChanged.AddPropertyChanged` | Iftm.ComputedProperties/TaskPropertyChanged.cs:73-81 | the new state is `Attach` of the old one; the factory stays |
| `TaskNotifiers.TaskPropertyChanged.GetTaskResultAsync` | Iftm.ComputedProperties/TaskPropertyChanged.cs:95-103 | the new state is `Start`, with the factory still present |
| `TaskNotifiers.TaskPropertyChanged.Complete` | Iftm.ComputedProperties/TaskPropertyChanged.cs:105-123 | the new state is `Finish`; the factory is cleared exactly when the object settles |
| `TaskNotifiers.TaskPropertyChanged.RemovePropertyChanged` | Iftm.ComputedProperties/TaskPropertyChanged.cs:82-92 | the new state is `Detach`; the factory stays |
| `TaskNotifiers.TaskPropertyChanged.Dispose` | Iftm.ComputedProperties/TaskPropertyChanged.cs:130-139 | the new state is `Dispose`; the factory stays |
| `TaskNotifiers.Create` | Iftm.ComputedProperties/TaskPropertyChanged.cs:143-144 | rejects a null factory; otherwise gives a new unsettled object |
| `TaskNotifiers.CreateBound` | Iftm.ComputedProperties/TaskPropertyChanged.cs:146-147 | a new object whose factory is the closure, which is never null |

## Left out

- The event-args cache `_nameToArgs` and `AllPropertiesChanged.EventArgs` are left out. A notification is recorded by its property name, with `None` meaning all properties.
- The thread-static state (`_changedProperties`, the cookie list) is passed in explicitly, as one scratch list and one `Storage` object. Threads are not modelled.
- Listener exceptions are modelled by the index of the notification whose listener throws. Which exception it is, and any listener that runs other code, are not modelled.
- Handlers that throw inside the async bridges' notification are not modelled. In the source, such an exception on the success path is caught and settles the bridge a second time.
- The closure methods (`AddPropertyWithDependencies`, the seeding loop, `NamedEarlier`) work on a snapshot of the edges. The source reads the edge list itself, which these methods do not change.
- The async runtime is replaced by explicit events: `GetTaskResultAsync` up to its first `await`, then `Complete(attempt, completion)`. `Task.Yield`, continuations, synchronization contexts and `ExceptionDispatchInfo` are not modelled. A factory that throws or returns synchronously is the same pair of events in sequence.
- Delegates and argument values are abstract identities. Delegate equality and hashing are equality of the identity.
- `TaskModels.EqualModelsHashApart`: the real hash of a delegate depends on the runtime. Where `Delegate.GetHashCode` takes the delegate's target into account, two closures usually hash apart, but they can collide. Where it hashes by the delegate's type alone, as .NET Framework does, equal models hash alike anyway. No file of the repository fixes the runtime.
- `MaxCount`: lists hold at most 2^30 elements. Callers must leave room for the additions they make, where .NET would fail on memory.
- `Types.Wrap32` models `++_list.Cookie`. `ComputedProperties.Eval` proves the restored-buffer and read-multiset properties only while the counter has not wrapped (`Storage.Fresh`). Past 2^31 - 1 evaluations on one thread the counter wraps, so a new cookie is no longer above the buffered ones. Two buffered entries can share a cookie only after 2^32 evaluations nested inside one outer evaluation.
- `ComputedObjects.ComputedObject.SetDependencies` with `variant == Stored` models the intended behaviour of `WithStoredComputedProperties`. Its `public override SetDependencies` names a method that the base class only implements explicitly, and the class has no `SetPropertyValid`. As written, that file does not compile.
- `ComputedProperties.EvalCached` is modelled for cached objects only (`variant == Cached`). A stored object has no `SetPropertyValid` in the source.
- `ComputedProperties.Storage`: the cookie lives in the storage object. In the source it is a field of `CookieList`, which is the same thing.
- `ComputedProperties.Read`: a read holds a non-null source. A read through a null receiver is modelled as `Read(obj.self, P)`. In the source, `AddDependency` records `(null, P, cookie)` and the member access then throws `NullReferenceException`, which is the derivation's outcome. `NullIfThis` keeps the null, so the edge is `target <- this.P` with no subscription, exactly as for a read of the object itself.
- Nested evaluations inside a derivation (one computed property reading another) are treated as ordinary reads. Each nested `Eval` has its own cookie in the source.
- `DependencyCollector.Visit` models a static property access as written: reading `.Type` of a null expression throws `NullReferenceException`.
- `DependencyCollector.Create`: `Expression.Lambda(...).Compile()` is not modelled. The rewritten expression tree is the result.
- `ComputedObjects.ComputedObject.UpdateSubscriptions` and `Reconciliation.UnsubscribePass` use the corrected still-used test (see Findings), not the one at WithComputedProperties.cs:300.
- `TaskModels.TaskModel.Complete` and `TaskNotifiers.TaskPropertyChanged.Complete` ignore a cancelled attempt that fails. In the source it settles the bridge (see Findings).
- The `#nullable` annotations, `[MaybeNull]` and `[CallerMemberName]` attributes are not modelled. The caller's name is the `Name` argument, and `None` stands for null.
- The WPF demo application (`NuGetModel.cs`, `NuGetSearchModel.cs`) is not part of this model.

## Findings

| source | as written | input that shows it | evidently intended | confidence | as-written member | corrected member |
|---|---|---|---|---|---|---|
| Iftm.ComputedProperties/WithComputedProperties.cs:300 | Before unsubscribing from a removed edge's source, the code checks whether the source is still used. It counts as used only if one of these names it: an unconsumed read with the cookie, an edge of another target, or an edge of this target before the first removed slot. Kept edges of this target after the first removed slot are not consulted. | Object 0 has the edges `T <- this.Flag`, `T <- 1.A` and `T <- 1.B`. `T` is re-evaluated and reads `this.Flag` and `1.B`. The scan removes slot 1 (`1.A`) and consumes both reads. Edge 2 keeps `1.B`, but slot 2 is not before slot 1, so source 1 is judged unused. The object unsubscribes from it while an edge still reads it. | A removed source is still used while an edge outside the removed slots, or an unconsumed read, names it. | medium, not executed | `Subscriptions.AsWrittenDropsLiveSource` | `Subscriptions.ReplaceKeepsSync` |
| Iftm.ComputedProperties/TaskModel.cs:117-123 | The general `catch` does not check whether the attempt's own token was cancelled. A cancelled attempt that fails with another exception still settles the bridge, clears the current handle and invokes `_propertyChanged!`. The same happens at TaskPropertyChanged.cs:117-123. | Attach, detach, attach again, then the first attempt fails. The bridge settles with the stale exception, notifies the new listener and drops the second attempt's handle. If no listener is attached, the null delegate throws. After the stale settling the second attempt still runs uncancelled. When it returns, it overwrites `_value` of the settled bridge, the null `_propertyChanged!` throws, that exception replaces the stored one, and a second one escapes. | Once all listeners detach, the object returns to its initial state (TaskModel.cs:22-23), and a cancelled attempt never settles it. | medium, not executed | `TaskBridges.StaleFaultSettles` | `TaskBridges.CancelledNeverSettles` |
| Iftm.ComputedProperties/TaskModel.cs:145 | `TaskModel<IIdentity, TResult>` overrides `Equals` to compare identities but keeps the base `GetHashCode`. That hashes the closure delegate, which each `Create` call allocates anew. | `Create(a, f)` called twice gives two models that are equal. Their hash codes are those of two different closures, which differ on a runtime whose `Delegate.GetHashCode` depends on the delegate's target (and not on .NET Framework, which hashes by delegate type). | Equal models hash alike. The subclass hashes its identity. | low, not executed | `TaskModels.EqualModelsHashApart` | `TaskModels.EqualModelsHashAlike` |
