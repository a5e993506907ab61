# A verified model of cbt-aggapi

This project models, in Dafny, the parts of the CBT aggregated API server that carry
state, concurrency, aliasing or bounded arithmetic, and proves what they guarantee over
all inputs, all schedules and all runs.

| file | what it models |
|---|---|
| `CreateProtocol.dfy` | the concurrent create protocol of the mock client as a transition system over N workers (the source spawns three), one receiver, main and the context's timer |
| `CreateGoroutines.dfy` | the same protocol as its goroutines execute it: program counters, a WaitGroup, a context error, and a channel with a queue of blocked senders; an object updated in place that refines the transition system |
| `InformerFactory.dfy` | the shared informer factory object: options, lazy construction, start-once tracking, snapshot |
| `InformerRuns.dfy` | runs of a factory used by any number of threads, with `WaitForCacheSync` split into its snapshot and its polls |
| `DeepCopy.dfy`, `Metadata.dfy` | deep copying and in-place defaulting of the API objects on the heap, and of their metadata |
| `EtcdStore.dfy`, `EtcdConcurrency.dfy` | the revisioned store, and the optimistic read/commit loops of concurrent storage calls |
| `RestStore.dfy`, `RestConcurrency.dfy`, `RestHandlers.dfy` | the REST storage provider: the replies and the store over whole runs of requests, the same for requests served concurrently, and its handlers |
| `Decimal.dfy`, `OptionParser.dfy` | bounded decimal parsing and the query options of a Connect request |
| `Router.dfy` | the path router of the mock client |
| `Registration.dfy` | the driver registration retry loop |
| `Basics.dfy`, `Counting.dfy`, `Orders.dfy` | shared types, sums over threads, iteration orders of maps |

## Findings

Where the code departs from what its documentation or its evident purpose asks for, the
code is modelled as written and the exact extent of the departure is proved.

- `doCreate` (cmd/mock/client/main.go:57-111) returns exactly when at most one create
  fails. With two or more failures it hangs for ever, because the error channel is read
  only once. One failure is enough to cause the second: the cancel that answers it makes
  another in-flight create fail. With two workers or more, a return is certain only if
  neither a failing create nor the deadline can occur: either alone can hang it. The
  returned error is nil in every run that returns.
- `ConvertFromUrlValues` writes the offset parameter into `Limit`
  (volumesnapshotdeltaoption_types.go:75); `Offset` never changes.
- The store key drops the namespace (cbt-rest.go:374-376): to creates, updates, deletes
  and gets the store answers as a namespaced one, on all runs over some places, exactly
  when no name occurs in two namespaces. The same holds of a list over all namespaces.
- A list in one namespace shows the objects of all (cbt-rest.go:188-213), so it is right
  on all runs over some places exactly when they lie in a single namespace.
- A create of an existing name answers success with the submitted object, not the stored
  one (cbt-rest.go:230-235): a get then answers what the create replied exactly when the
  name was missing.
- A precondition prevents lost updates, where a write replaces the very object another
  update has just written, exactly when it names a resource version. It lets at most one
  of two writes take effect exactly when that version is nonempty, or stands beside a
  nonempty UID: the empty one can hold again after a delete. The API server gives updates
  a UID or nothing (vendor/k8s.io/apiserver/pkg/registry/rest/update.go:196-211), and
  `Update` adds no check of its own, so of two updates of one object the second silently
  overwrites the first, whatever resource versions the submitted objects carry.
- `DeepCopyInto` with the receiver as its own target loses data, although the generated
  comment asks only that the receiver be non-nil: a status loses its entries, an object
  also its labels, annotations, owner references, finalizers, managed fields and grace
  period, a list all its items. For each the exact condition of survival is proved.
- `WithCustomResyncConfig` depends on map iteration order unless all keys of a type carry
  one period; an informer object shared by two types is run once for each.
- `registerDriver` returns a nil error if the context is already done before the first
  attempt.

## Assumptions

etcd gives single-key transactions guarded by the modification revision and issues each
revision once. Every Create call of the clientset eventually returns (its context has a
deadline). Blocked senders of a channel are served in the order they came. Encoding
an object for storage is injective. Calls into the network, JSON and the CBT service
appear as parameters.

## Model

| member | source | states |
|---|---|---|
| CreateProtocol.StepInv | cmd/mock/client/main.go:62-110 | Every atomic step of main, a worker, the receiver or the timer keeps: the WaitGroup counter is the work added and not done, completed sends are the receiver's progress and at most one, the context is done exactly because of the deadline, the receiver or the return, and the outer error stays nil |
| CreateProtocol.EveryRun | cmd/mock/client/main.go:57-111 | Exact termination for any N and any interleaving: at most 5N+6 steps; a run at rest has returned iff at most one create failed and is deadlocked iff two or more did; a run that returned did so with every worker done, at most one failed, and a nil error |
| CreateProtocol.RestIsReturnOrDeadlock | cmd/mock/client/main.go:68-110 | The only resting states are the return and the deadlock, told apart by the number of failed creates |
| CreateProtocol.DeadlockIsRest | cmd/mock/client/main.go:68-73 | From a deadlocked state no goroutine can ever move |
| CreateProtocol.ReturnIsSafe | cmd/mock/client/main.go:93-110 | Whenever doCreate has returned, all workers are done, no two of them failed, the error is nil, and the receiver is still blocked iff none failed |
| CreateProtocol.TwoFailuresNeverReturn | cmd/mock/client/main.go:102-109 | After two failures no continuation returns |
| CreateProtocol.Completion | cmd/mock/client/main.go:57-111 | Every reachable state can be continued to rest without timer or further failures of their own |
| CreateProtocol.CancelCanDeadlock | cmd/mock/client/main.go:69-72 | If the receiver cancels while a create is in flight, some continuation deadlocks |
| CreateProtocol.ReturnsExactly | cmd/mock/client/main.go:57-111 | For every N, all runs that come to rest have returned iff N is at most one, or neither a create failing by itself nor the deadline can happen |
| CreateProtocol.DeadlineAloneCanDeadlock | cmd/mock/client/main.go:65-109 | For every N of two or more, some run with no failure but the deadline's hangs |
| CreateProtocol.OneOwnFailureCanDeadlock | cmd/mock/client/main.go:68-109 | For every N of two or more there is a run without deadline in which one create fails by itself and doCreate hangs |
| CreateProtocol.EveryOutcomeHappens | cmd/mock/client/main.go:93-104 | For any list of outcomes there is a run of that many workers that comes to rest with exactly these |
| CreateGoroutines.DoCreate.RunSchedule | cmd/mock/client/main.go:57-111 | The object executed under any schedule follows a run of the protocol, with at most N+1 moves of its own (workers falling asleep, the receiver parking); at rest it has returned iff at most one create failed, and otherwise hangs |
| CreateGoroutines.DoCreate.RestOutcome | cmd/mock/client/main.go:68-109 | In the hang main waits, the receiver is gone, and the channel's queue holds all failed workers but one, every other worker having ended; after a return the queue is empty |
| CreateGoroutines.DoCreate.ArriveAtSend | cmd/mock/client/main.go:102 | A worker with an error hands it to a parked receiver, or else goes to the end of the queue |
| CreateGoroutines.DoCreate.Listen | cmd/mock/client/main.go:69 | The receiver takes over from the head of the queue, and parks if it is empty |
| CreateGoroutines.DoCreate.TurnExists | cmd/mock/client/main.go:62-110 | Whenever the protocol can move, so can some goroutine of the object: queueing and parking lose no progress |
| CreateGoroutines.DoCreate.Dispatch | cmd/mock/client/main.go:68-109 | A goroutine moves iff it is ready, by its protocol event or by one of the object's own moves, and keeps the object's invariant |
| InformerFactory.SharedInformerFactory.constructor | pkg/generated/cbt/informers/externalversions/factory.go:91-107 | A new factory has no informers and settings equal to the left-to-right fold of its options |
| InformerFactory.LastOptionWins | pkg/generated/cbt/informers/externalversions/factory.go:61-75 | The last namespace and the last list filter given win |
| InformerFactory.DefaultsStand | pkg/generated/cbt/informers/externalversions/factory.go:91-99 | Without an option for them, the namespace is the empty one for all namespaces, and there is no list filter |
| InformerFactory.LastCustomResyncWins | pkg/generated/cbt/informers/externalversions/factory.go:52-59 | A type's custom period comes from the last option that mentions the type, and there is none if no option does |
| InformerFactory.CustomResyncDeterminism | pkg/generated/cbt/informers/externalversions/factory.go:52-59 | The result is independent of map iteration order iff no two keys of one type carry different periods |
| InformerFactory.SharedInformerFactory.SetCustomResync | pkg/generated/cbt/informers/externalversions/factory.go:54-56 | The loop writes every key once, in some order |
| InformerFactory.SharedInformerFactory.Start | pkg/generated/cbt/informers/externalversions/factory.go:110-120 | The loop visits every registered type once, in some order, and does what the specification does in that order |
| InformerFactory.StartEffect | pkg/generated/cbt/informers/externalversions/factory.go:114-119 | For each type: run once with this stop channel and marked started if it was registered and not started, otherwise untouched |
| InformerFactory.StartOrderIndependent | pkg/generated/cbt/informers/externalversions/factory.go:114-119 | Any two iteration orders start the same types and give every type the same history of runs |
| InformerFactory.SharedInformerRunsTwice | pkg/generated/cbt/informers/externalversions/factory.go:114-119 | Each informer object is run at most once iff no two started types share one |
| InformerFactory.SharedInformerFactory.InformerFor | pkg/generated/cbt/informers/externalversions/factory.go:146-165 | A registered type gets its registered informer and nothing changes; another gets what its constructor makes of the type's custom period, or of the default if there is none, and that is registered |
| InformerFactory.AskInv | pkg/generated/cbt/informers/externalversions/factory.go:146-165 | InformerFor keeps: one construction per registered type, with the type's custom period or else the default, and its product registered |
| InformerFactory.StartInv | pkg/generated/cbt/informers/externalversions/factory.go:110-120 | Start keeps: started types are registered, and runs and started types agree one to one |
| InformerFactory.SharedInformerFactory.SnapshotStarted | pkg/generated/cbt/informers/externalversions/factory.go:124-135 | The snapshot is exactly the registered types marked started, each with its registered informer |
| InformerRuns.StartOnce | pkg/generated/cbt/informers/externalversions/factory.go:110-165 | Over every interleaving an informer is run at most once, iff some Start follows a request for it, with the stop channel of the first such Start; its type is registered iff requested, with what the first request's constructor made |
| InformerRuns.InformersAreStable | pkg/generated/cbt/informers/externalversions/factory.go:150-164 | Registered informers are never replaced or removed and started types stay started |
| InformerRuns.SnapshotSemantics | pkg/generated/cbt/informers/externalversions/factory.go:123-142 | Every WaitForCacheSync call, whatever runs beside it, answers for exactly the informers started at its own snapshot event; each true entry was synced at some moment of the call, each false one was seen unsynced and given up on a closed channel |
| InformerRuns.SnapshotIsStarted | pkg/generated/cbt/informers/externalversions/factory.go:123-142 | A call's snapshot holds a type iff by then some Start had followed a request for it, with the informer registered for it at that moment; a returned call answers for exactly these |
| InformerRuns.WaitCanEnd | pkg/generated/cbt/informers/externalversions/factory.go:137-141 | Once the stop channel is closed or all its informers have synced, a call can end by steps of its own, saying of each type still open whether its informer has synced |
| InformerRuns.PeriodsFromOptions | pkg/generated/cbt/informers/externalversions/factory.go:52-165 | Over every run, each informer is constructed with the period of the last option that mentions its type, or with the default if none does |
| DeepCopy.VolumeSnapshotDeltaStatus.DeepCopyInto | pkg/apis/cbt/v1alpha1/zz_generated.deepcopy.go:258-272 | Into another status: input unchanged, equal value with the same nil pattern, fresh array and fresh pairwise different entries even if the input repeats entries; into itself: every entry becomes nil |
| DeepCopy.CopyEntries | pkg/apis/cbt/v1alpha1/zz_generated.deepcopy.go:263-269 | The entry loop copies values and nils, into fresh entries used once, and leaves the source as it was |
| DeepCopy.SelfCopyHarmless | pkg/apis/cbt/v1alpha1/zz_generated.deepcopy.go:258-272 | Copying a status into itself preserves it iff it has no non-nil entry |
| DeepCopy.DeltaSelfCopyHarmless | pkg/apis/cbt/v1alpha1/zz_generated.deepcopy.go:156-163 | Copying an object into itself preserves it iff it has no non-nil entry and nothing in its metadata's maps, slices and pointers but zero values |
| DeepCopy.ListSelfCopyHarmless | pkg/apis/cbt/v1alpha1/zz_generated.deepcopy.go:184-196 | Copying a list into itself preserves it iff every item is zero and no remaining items are counted |
| DeepCopy.VolumeSnapshotDelta.CopyMeta | vendor/k8s.io/apimachinery/pkg/apis/meta/v1/zz_generated.deepcopy.go:662-714 | Metadata copied to another object is equal; copied into itself it loses what its maps, slices and grace period held |
| Metadata.StrippedUnchanged | vendor/k8s.io/apimachinery/pkg/apis/meta/v1/zz_generated.deepcopy.go:662-714 | The exact condition for metadata to survive a copy into itself |
| DeepCopy.VolumeSnapshotDeltaStatus.DeepCopy | pkg/apis/cbt/v1alpha1/zz_generated.deepcopy.go:275-282 | nil for nil, otherwise a separated, equal copy; input unchanged |
| DeepCopy.VolumeSnapshotDelta.DeepCopyInto | pkg/apis/cbt/v1alpha1/zz_generated.deepcopy.go:156-163 | Into another object: equal value, the embedded status separated; into itself: the entries are lost, and with them all labels, annotations and other contents behind the metadata's pointers |
| DeepCopy.VolumeSnapshotDelta.DeepCopy | pkg/apis/cbt/v1alpha1/zz_generated.deepcopy.go:166-173 | nil for nil, otherwise a separated, equal copy of an object |
| DeepCopy.CopyEach | pkg/apis/cbt/v1alpha1/zz_generated.deepcopy.go:191-193 | The item loop gives every element the source's value with storage no other element reaches |
| DeepCopy.VolumeSnapshotDeltaList.DeepCopyInto | pkg/apis/cbt/v1alpha1/zz_generated.deepcopy.go:184-196 | Into another list: both have the original value, and everything the copy reaches is fresh and reached from one item only; into itself: every item becomes zero, and the remaining item count too |
| DeepCopy.VolumeSnapshotDeltaList.DeepCopy | pkg/apis/cbt/v1alpha1/zz_generated.deepcopy.go:199-206 | nil for nil, otherwise a list of equal value whose items, arrays and entries are all fresh, even where the input shares entries between items |
| DeepCopy.WritesDoNotCross | pkg/apis/cbt/v1alpha1/zz_generated.deepcopy.go:184-206 | Any writes confined to storage disjoint from a list, such as its copy's, leave the list's value and shape alone; symmetric in original and copy |
| DeepCopy.SameValue | pkg/apis/cbt/v1alpha1/volumesnapshotdelta_types.go:35-135 | Two objects have the same value iff all their fields agree, down to every entry |
| DeepCopy.EntryWriteStaysPut | pkg/apis/cbt/v1alpha1/zz_generated.deepcopy.go:262-269 | In a copy, writing one entry changes no other |
| DeepCopy.ItemWriteStaysPut | pkg/apis/cbt/v1alpha1/zz_generated.deepcopy.go:188-194 | In a copied list, writing whatever one item reaches changes no other item |
| DeepCopy.VolumeSnapshotDeltaList.SetDefaults | pkg/apis/cbt/v1alpha1/defaults.go:40-45 | In-place defaulting turns the value into the defaulted value |
| DeepCopy.DefaultingLaws | pkg/apis/cbt/v1alpha1/defaults.go:36-53 | Defaulting is idempotent, leaves no empty mode, and changes nothing but empty modes |
| DeepCopy.CopyThenDefault | pkg/apis/cbt/v1alpha1/defaults.go:40-53 | Copy then default: defaulted copy, original untouched |
| DeepCopy.DefaultThenCopy | pkg/apis/cbt/v1alpha1/defaults.go:40-53 | Default then copy: the same copy, original defaulted |
| EtcdStore.KeyPathInjective | pkg/storage/cbt-rest.go:374-376 | Different names have different keys |
| EtcdConcurrency.StepInv | vendor/k8s.io/apiserver/pkg/storage/etcd3/store.go:204-457 | Every read, commit, conflict and retry of any interleaving keeps the linearization invariant |
| EtcdConcurrency.RevisionsAreFresh | vendor/k8s.io/apiserver/pkg/storage/etcd3/store.go:430-452 | Between two moments a key has not changed, or is gone, or has a later revision |
| EtcdConcurrency.SameRevisionSameCell | vendor/k8s.io/apiserver/pkg/storage/etcd3/store.go:430-436 | The commit guard is sound: the same revision means the very object that was read |
| EtcdConcurrency.EveryRunLinearizes | vendor/k8s.io/apiserver/pkg/storage/etcd3/store.go:148-457 | For any number of concurrent creates, updates and deletes: the store is the log of commits applied in order, each commit is the one effect of one finished call, and every finished call's answer and effect are those of the call applied in one step at a moment between its invocation and its answer |
| EtcdConcurrency.RealTimeOrder | vendor/k8s.io/apiserver/pkg/storage/etcd3/store.go:204-457 | A call invoked after another finished takes effect after it |
| EtcdConcurrency.NoLostUpdate | pkg/storage/cbt-rest.go:261-283 | Of any two concurrent updates or deletes on one name that forward the same nonempty resource version, at most one changes the store |
| EtcdConcurrency.LosslessExactly | pkg/storage/cbt-rest.go:247-328 | For every precondition, none included: over all runs no update under it is ever replaced or removed, as written, by another update or delete under it, iff it names a resource version |
| EtcdConcurrency.ExclusiveExactly | pkg/storage/cbt-rest.go:247-328 | For every precondition, none included: two updates or deletes of one name under it never both take effect, over all runs, iff it names a resource version that is nonempty or stands beside a nonempty UID |
| EtcdConcurrency.UnguardedUpdatesOverwrite | pkg/storage/cbt-rest.go:247-284 | Under any precondition without a resource version there is a run in which an update commits over the object another has just written, which ends as if the first had not happened |
| EtcdConcurrency.EmptyVersionHoldsAgain | pkg/storage/cbt-rest.go:261-283 | Under an empty resource version without a nonempty UID, two updates with a delete between them all take effect |
| EtcdConcurrency.ServerUpdatesUnguarded | vendor/k8s.io/apiserver/pkg/registry/rest/update.go:196-211 | Under the preconditions derived from a submitted object, updates can both take effect and one can be lost |
| EtcdConcurrency.EveryCallFinishes | vendor/k8s.io/apiserver/pkg/storage/etcd3/store.go:348-456 | No retry loop runs for ever: n calls finish within n(n+3) steps under every schedule |
| EtcdConcurrency.Solo | vendor/k8s.io/apiserver/pkg/storage/etcd3/store.go:311-457 | A call that runs undisturbed is the call applied in one step |
| RestStore.FaithfulExactly | pkg/storage/cbt-rest.go:374-376 | Over all runs of create, update, delete and get on some set of places, the replies are those of a store keyed by namespace and name iff no name occurs in two namespaces (lists are stated below) |
| RestStore.StepRepresents | pkg/storage/cbt-rest.go:94-327 | Each request keeps the two stores in correspondence and gets the same reply |
| RestStore.CollidingRun | pkg/storage/cbt-rest.go:230 | For any name and two namespaces there is a create in one after which a get in the other answers with the created object, where a namespaced store reports it missing |
| RestStore.StoreStepIsCall | pkg/storage/cbt-rest.go:216-328 | A REST write is exactly its storage call taking effect once, with its answer translated |
| RestStore.GetExactly | pkg/storage/cbt-rest.go:94-102 | A get answers the object stored under the group's directory and the name, with its revision, or that there is none |
| RestStore.CreateExactly | pkg/storage/cbt-rest.go:217-242 | A create fails iff the submitted resource version is a nonzero number; on a missing name it stores and answers the submitted fields with the creation time now; on an existing one it answers them and stores nothing |
| RestStore.UpdateExactly | pkg/storage/cbt-rest.go:247-284 | An update succeeds iff the UID and resource version its request gives are the stored ones, both empty for a missing name, and the transform accepts the stored object; it then stores the result unless it is there already; a refusal stores nothing |
| RestStore.DeleteExactly | pkg/storage/cbt-rest.go:296-328 | A delete succeeds iff the name is there, the UID and resource version its request gives are the stored ones, and the validation accepts the object; it removes and answers it; a refusal stores nothing |
| RestStore.StaleVersionRefused | pkg/storage/cbt-rest.go:261-327 | An update or delete of an existing name that gives the version of some revision is refused for its precondition, with nothing stored, iff the object has another revision now |
| RestStore.LastWriteStands | pkg/storage/cbt-rest.go:86-328 | The replies tell the contents: after any run a get of a name, in any namespace, answers what the last request that changed it replied, or what it answered at first if none did |
| RestStore.FirstCreateStands | pkg/storage/cbt-rest.go:229-241 | Over any run that neither updates nor deletes a missing name, a get ends up answering the first successful create of it, with the object that create submitted |
| RestStore.FirstWriteWins | pkg/storage/cbt-rest.go:229-241 | Creating an existing name changes nothing and still answers success, showing the submitted object |
| RestStore.CreateTwice | pkg/storage/cbt-rest.go:229-241 | Repeating a create, with any object of that name, has the store effect of one |
| RestStore.UpdateUpserts | pkg/storage/cbt-rest.go:269-283 | A successful update leaves the name present, holding what the transform made of the current object, whether or not it existed; a failed one changes nothing |
| RestStore.DeleteRemoves | pkg/storage/cbt-rest.go:296-328 | A successful delete removes the name and returns what was there; a missing name is reported; failures change nothing |
| RestStore.CreateReplyTrue | pkg/storage/cbt-rest.go:229-241 | After a successful create, a get in any namespace answers what the create replied iff the name was missing before |
| RestStore.ListedExactly | pkg/storage/cbt-rest.go:188-213 | An unfiltered list shows exactly what is stored under some name in the group's directory |
| RestStore.ListsEverythingExactly | pkg/storage/cbt-rest.go:188-213 | After all runs over some places, an unfiltered list is exactly the live objects of all namespaces iff no name occurs in two namespaces |
| RestStore.ListsNamespaceExactly | pkg/storage/cbt-rest.go:174-214 | After all runs over some places, an unfiltered list asked in one of their namespaces is exactly that namespace's live objects iff all places lie in one namespace |
| RestStore.NamespacedExactly | pkg/storage/cbt-rest.go:94-376 | Lists included, the store behaves as a namespaced one over some places iff they all lie in one namespace |
| RestConcurrency.ConcurrentIsSerial | pkg/storage/cbt-rest.go:216-328 | For every concurrent run of creates, updates and deletes there is an order of the finished ones, each once, in which serving them one at a time leaves the same store and gives the same replies, and in which one that finished before another was invoked comes first |
| RestConcurrency.NoLostRequest | pkg/storage/cbt-rest.go:247-328 | Of two concurrent update or delete requests on one name that give one nonempty resource version, at most one changes the store |
| RestConcurrency.ConcurrentNamespaced | pkg/storage/cbt-rest.go:216-376 | With no name in two namespaces, concurrent writes leave what a namespaced store would hold after that order |
| RestHandlers.Cbt.Create | pkg/storage/cbt-rest.go:217-242 | The handler, including the swallowed already-exists, equals its specification on store and reply |
| RestHandlers.Cbt.Update | pkg/storage/cbt-rest.go:247-284 | The handler forwards preconditions unchanged and equals its specification |
| RestHandlers.Cbt.Delete | pkg/storage/cbt-rest.go:296-328 | The handler forwards preconditions unchanged and equals its specification |
| RestHandlers.Cbt.Connect | pkg/storage/cbt-rest.go:86-141 | 500 if the store cannot be read, 404 iff the object is found missing; otherwise the stored object, with only its status replaced when entries are asked for; 500 on wrong options or a failed service; the store is not written |
| RestHandlers.Cbt.List | pkg/storage/cbt-rest.go:174-214 | Returns each object below the group's directory once and nothing else |
| Decimal.ParseUint | pkg/apis/cbt/v1alpha1/volumesnapshotdeltaoption_types.go:63 | The wrapping digit loop accepts exactly the nonempty digit strings below 2^64 and returns their value |
| Decimal.DigitsInOrder | pkg/apis/cbt/v1alpha1/volumesnapshotdeltaoption_types.go:63 | The ten digits in order have the values 0 to 9 |
| Decimal.PrintParses | pkg/apis/cbt/v1alpha1/volumesnapshotdeltaoption_types.go:62-76 | Printing any number and parsing it back is the identity |
| Decimal.ParsePrints | pkg/apis/cbt/v1alpha1/volumesnapshotdeltaoption_types.go:62-76 | Parsing and printing back is the identity on strings without leading zeros |
| OptionParser.VolumeSnapshotDeltaOption.ConvertFromUrlValues | pkg/apis/cbt/v1alpha1/volumesnapshotdeltaoption_types.go:48-79 | The fields end as specified, with the fallbacks 256, 0 and false, the offset parameter landing in limit and offset unchanged |
| OptionParser.ConvertedExactly | pkg/apis/cbt/v1alpha1/volumesnapshotdeltaoption_types.go:48-79 | Field by field: the first text of a key counts; the six words for true and no others set fetching; a number below 2^64 or else the fallback reaches limit, from the offset before the limit; an absent text keeps its field, and offset is always kept |
| OptionParser.FetchRoundTrip | pkg/apis/cbt/v1alpha1/volumesnapshotdeltaoption_types.go:54-60 | A boolean written into a request sets fetching to it and nothing else |
| OptionParser.MeetsDocumentation | pkg/apis/cbt/v1alpha1/volumesnapshotdeltaoption_types.go:41-76 | The result is the documented one iff no offset is given or its number is both the limit asked for and the offset already held |
| OptionParser.OffsetReplacesLimit | pkg/apis/cbt/v1alpha1/volumesnapshotdeltaoption_types.go:70-76 | For all limits and offsets printed into one request, limit ends as the offset |
| OptionParser.LimitRoundTrip | pkg/apis/cbt/v1alpha1/volumesnapshotdeltaoption_types.go:62-68 | Without an offset any printed limit arrives unchanged |
| Router.Handle | cmd/mock/client/main.go:144-204 | The path is trimmed at both ends, split at every remaining separator, and routed by its parts |
| Router.Trim | cmd/mock/client/main.go:149-151 | Removes all separators at both ends and nothing else |
| Router.Split | cmd/mock/client/main.go:152 | The parts are free of separators and join back to the input |
| Router.SplitUnique | cmd/mock/client/main.go:152 | A string has only one split |
| Router.RoutesOnce | cmd/mock/client/main.go:148-183 | A path leads to only one target |
| Router.PartsDecide | cmd/mock/client/main.go:154-177 | However many parts there are: the second names the resource, the mode is extended iff there is a third part that says so, and LIST is chosen iff there is one part |
| Router.RouteRoundTrip | cmd/mock/client/main.go:148-184 | apis/name and apis/name/extended, between any numbers of separators, route back to exactly that name and mode |
| Router.ListExactly | cmd/mock/client/main.go:167-177 | LIST is chosen iff no separator is left after trimming |
| Registration.RegisterDriver | cmd/mock/http/main.go:94-113 | The error is nil iff no attempt was made or one succeeded or found the driver registered; no attempt follows such an outcome; otherwise it is the last error; the object returned is the last attempt's |

## Left out

- Protobuf, gRPC, OpenAPI, clientset, lister and per-type informer code: delegation to libraries.
- The mock gRPC server and the pagination its protocol file describes: nothing implements the latter.
- `Watch`, and list requests with selectors, paging, continuation or a resource version: selection happens in the storage library.
- The order in which a list returns its items: etcd sorts keys, the model lets the order be any.
- path.Join's cleaning of keys: names are taken to be single clean path segments.
- Storage encoding, encryption and stale-data rewriting, TTLs, lost connections to etcd.
- The entry conversion loop of the mock HTTP server (cmd/mock/http/main.go:181-195): a field-by-field map.
- `DriverDiscovery` deep copies: the same code on simpler structs.
- DeepCopy.VolumeSnapshotDelta.CopyMeta: models the maps and slices inside an object's metadata as values, so it states what they hold after a copy but not that a copy has its own.
- Slices that are windows into a larger array: a slice is modelled as a whole array, so appending and overlapping windows are not captured.
- Wall-clock time: deadlines are events that may happen at any moment, retry delays are nothing.
- Unpredictable panics of informer constructors and HTTP request multiplexing before the path router.
