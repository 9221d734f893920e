# Fireasy core, modelled in Dafny

This project models three small pieces of the Fireasy .NET application framework and proves properties about them.

- **The entity-persistence event dispatcher** (`EntityPersistentSubscriber.Accept`), module `EntitySubscribes`. The persistence layer publishes a subject for each lifecycle event. The subject carries an event tag, an entity type and an argument payload. `Accept` routes it to the subscriber's protected hooks (`OnBeforeCreate` … `OnAfterBatch`, `OnCreate`/`OnUpdate`/`OnRemove`). The default hooks are empty, so a call is fully described by the ordered trace of hooks it invokes or by the fault it raises. `Accept` is modelled as a function returning `Result<seq<HookCall>, Fault>`. A subject that is not an `EntityPersistentSubject` is `None`. The payload is a sum type: `EntityEventArgs`, `EntitiesArgs`, or any other object (`OtherArg`, null included). The batch tags dereference the result of `as EntitiesArgs` without a null check, so a batch tag with any other payload yields `Failure(NullReference)`. A subscriber's hooks are modelled as a state transformer (`Deliver`). The base class's hooks are the identity (`DefaultHooks`).
- **Configuration keys and referenced-assembly discovery** (`ConfigurationUnity`), module `Configuration`.
  - `ConfigurationKey` is the key that `Bind<T>` binds a section under: the storage name with every `/` replaced by `:`.
  - `ExcludeAssembly` is the case-insensitive prefix filter. Despite its name, it returns true for names to keep.
  - The runtime is abstracted as a `World`. Each assembly id maps to the ordered names it references. A name stands for the full display name of an `AssemblyName`, which is what the load uses. The filter tests only the simple name, but it gives the same answer on the display name: both prefixes end in `.`, and a display name continues after the simple name with `,`. `Assembly.Load` is a partial map from name to id: a missing name is a load failure, and `LoadAssembly` swallows it into "no assembly".
  - `FindReferenceAssemblies` is an imperative recursive method. It fills an `AssemblyList`, the model of `List<Assembly>`, which is modified in place through `Contains` and `Add`. Its result is tied to the value-level walk `Walk`/`WalkRefs`. The lemmas prove several things about that walk: it only appends, it keeps the list duplicate-free, and it lists exactly the assemblies reachable through chains of references that pass the filter and load (soundness and completeness).
  - The walk descends into an assembly even when it is already listed. So it terminates only on an acyclic reference graph. That is stated as a precondition: a ghost `rank` map that strictly decreases along every reference (`Ranked`).
  - `DiscoverAssemblies` is the part of `Bind(Assembly, …)` that builds the list, walks from the calling assembly and clears the list.
- **The binder registry** (`EasyUIOptions`), module `EasyUI`. This is a class with a `binders` map field. `AddBinder` has `Dictionary.Add` semantics: a new name is inserted, and a duplicate name raises `ArgumentException`, modelled as `Fail(DuplicateKey(name))` with the table unchanged.

The code does not check that the payload matches the tag. For a single-entity after-phase, a mismatched payload skips only the specific hook, and the generic `OnCreate`/`OnUpdate`/`OnRemove` still fires (`EntityPersistentSubscriber.cs` lines 42, 60 and 78). The model does the same.

Files: `wrappers.dfy` (Option, Result, Outcome), `entity_subscriber.dfy`, `configuration_unity.dfy`, `easyui_options.dfy`.

## Model

| member | source | states |
|---|---|---|
| EntitySubscribes.Accept | src/Fireasy.Data.Entity/Subscribes/EntityPersistentSubscriber.cs:16-107 | a foreign subject (cast to `EntityPersistentSubject` yields null) invokes no hook and raises no fault; a fault happens exactly for a batch tag whose payload is not `EntitiesArgs`; every trace has at most two hooks; a before-phase never invokes a generic operation hook; every after-phase trace ends with the generic hook of the subject's operation |
| EntitySubscribes.AcceptFollowsTable | src/Fireasy.Data.Entity/Subscribes/EntityPersistentSubscriber.cs:24-106 | for every subject, `Accept` equals the dispatch table stated independently: the phase-specific hook when the payload unpacks, then, for an after-phase, the generic hook of the operation; a batch tag with a wrong payload faults |
| EntitySubscribes.BeforeEntityDispatch | src/Fireasy.Data.Entity/Subscribes/EntityPersistentSubscriber.cs:26-33 | BeforeCreate/BeforeUpdate/BeforeRemove invoke exactly `OnBeforeX(entity)` when the payload is `EntityEventArgs` and nothing otherwise; the generic hook is never invoked |
| EntitySubscribes.AfterEntityDispatch | src/Fireasy.Data.Entity/Subscribes/EntityPersistentSubscriber.cs:34-43 | AfterCreate/AfterUpdate/AfterRemove invoke `[OnAfterX(entity), OnX(entityType)]` in that order for an `EntityEventArgs` payload; with any other payload the generic `OnX(entityType)` still fires and is the only call |
| EntitySubscribes.BeforeBatchDispatch | src/Fireasy.Data.Entity/Subscribes/EntityPersistentSubscriber.cs:80-85 | BeforeBatch with an `EntitiesArgs` payload invokes exactly `[OnBeforeBatch(entities, operType)]`; any other payload is a null-reference fault |
| EntitySubscribes.AfterBatchDispatch | src/Fireasy.Data.Entity/Subscribes/EntityPersistentSubscriber.cs:86-105 | AfterBatch with an `EntitiesArgs` payload invokes `OnAfterBatch(entities, operType)` followed by exactly the one generic hook `operType` selects; any other payload is a null-reference fault |
| EntitySubscribes.DispatchScenarios | src/Fireasy.Data.Entity/Subscribes/EntityPersistentSubscriber.cs:18-105 | the four worked scenarios: AfterCreate of one order, BeforeBatch remove of two, AfterBatch update of two, and a foreign subject giving the empty trace |
| EntitySubscribes.DefaultHooks | src/Fireasy.Data.Entity/Subscribes/EntityPersistentSubscriber.cs:113-197 | each of the base class's hooks leaves the subscriber's state as it was |
| EntitySubscribes.DefaultHooksChangeNothing | src/Fireasy.Data.Entity/Subscribes/EntityPersistentSubscriber.cs:113-197 | running any trace through the base class's hooks changes no state |
| EntitySubscribes.DeliverInert | src/Fireasy.Data.Entity/Subscribes/EntityPersistentSubscriber.cs:109-197 | delivering a trace to a subscriber whose hooks for every call in it are not overridden leaves the subscriber's state unchanged |
| EntitySubscribes.AcceptWithDefaultHooksChangesNothing | src/Fireasy.Data.Entity/Subscribes/EntityPersistentSubscriber.cs:10-197 | corollary of `DefaultHooksChangeNothing`: with the base class's empty hooks, delivering whatever `Accept` produces changes no state |
| Configuration.ConfigurationKey | src/Fireasy.Common/Configuration/ConfigurationUnity.cs:86 | the key has the storage name's length, every `/` becomes `:` and every other character is unchanged |
| Configuration.ConfigurationKeyHasNoSlash | src/Fireasy.Common/Configuration/ConfigurationUnity.cs:86 | no key contains `/` |
| Configuration.ConfigurationKeyIdentity | src/Fireasy.Common/Configuration/ConfigurationUnity.cs:86 | a storage name is its own key if and only if it contains no `/` |
| Configuration.ConfigurationKeyIdempotent | src/Fireasy.Common/Configuration/ConfigurationUnity.cs:86 | mapping a key a second time changes nothing |
| Configuration.ConfigurationKeyOfNested | src/Fireasy.Common/Configuration/ConfigurationUnity.cs:86 | the storage name `outer/inner` is bound under `key(outer):key(inner)` |
| Configuration.StartsWithIgnoreCase | src/Fireasy.Common/Configuration/ConfigurationUnity.cs:183-184 | `StartsWith(…, OrdinalIgnoreCase)`: the prefix is no longer than the string and matches it character by character by upper case; an exact prefix always matches |
| Configuration.StartsWithIgnoreCaseOfLowered | src/Fireasy.Common/Configuration/ConfigurationUnity.cs:183-184 | lowering the tested string's letters does not change whether the prefix matches |
| Configuration.ExcludeAssembly | src/Fireasy.Common/Configuration/ConfigurationUnity.cs:181-185 | true (keep) exactly when the name starts with neither `system.` nor `microsoft.` ignoring case; a kept name does not start with either prefix as written; a name shorter than `system.` is always kept |
| Configuration.ExcludeAssemblyByLowering | src/Fireasy.Common/Configuration/ConfigurationUnity.cs:181-185 | the filter is true if and only if the name, with ASCII letters lowered, starts with neither `system.` nor `microsoft.` |
| Configuration.ExcludeAssemblyKeeps | src/Fireasy.Common/Configuration/ConfigurationUnity.cs:181-185 | `Fireasy.Common`, `Systems.Data` and `system` (no dot) are kept |
| Configuration.ExcludeAssemblyDrops | src/Fireasy.Common/Configuration/ConfigurationUnity.cs:181-185 | `System.Linq`, `MICROSOFT.Extensions` and `sYsTeM.` are dropped, whatever their case |
| Configuration.GetReferencedAssemblies | src/Fireasy.Common/Configuration/ConfigurationUnity.cs:201 | the ordered reference names the world records for the assembly, and none for an assembly it does not describe |
| Configuration.LoadAssembly | src/Fireasy.Common/Configuration/ConfigurationUnity.cs:187-197 | a failed load gives "no assembly" and never an error; a successful load gives the assembly the name resolves to |
| Configuration.ResolveReference | src/Fireasy.Common/Configuration/ConfigurationUnity.cs:201-204 | a reference survives the query (`Where` filter, `Select` load, `Where` non-null) exactly when it passes `ExcludeAssembly` and loads, and then yields the loaded assembly |
| Configuration.Walk | src/Fireasy.Common/Configuration/ConfigurationUnity.cs:199-213 | the list after the walk from an assembly; the walk only appends, so the list before is a prefix of the list after |
| Configuration.WalkRefs | src/Fireasy.Common/Configuration/ConfigurationUnity.cs:201-212 | the list after the first k iterations over an assembly's references: each surviving reference is added if absent and then descended into; the list before is a prefix of the list after |
| Configuration.WalkKeepsNoDuplicates | src/Fireasy.Common/Configuration/ConfigurationUnity.cs:206-209 | a duplicate-free list stays duplicate-free through the walk |
| Configuration.WalkElements | src/Fireasy.Common/Configuration/ConfigurationUnity.cs:199-213 | the list after the walk holds exactly the assemblies it held before and the assemblies reachable from the start |
| Configuration.ReachIsReachable | src/Fireasy.Common/Configuration/ConfigurationUnity.cs:201-211 | the reachable set is exactly the set of assemblies at the end of a chain of references, each passing `ExcludeAssembly` and loading |
| Configuration.ReachRanksLower | src/Fireasy.Common/Configuration/ConfigurationUnity.cs:211 | on a ranked (acyclic) graph everything reachable ranks below the start, so the start never reaches itself |
| Configuration.WalkOfDeadEnd | src/Fireasy.Common/Configuration/ConfigurationUnity.cs:187-204 | an assembly none of whose references passes the filter and loads adds nothing: failed loads are swallowed, neither added nor descended into |
| Configuration.AssemblyList.constructor | src/Fireasy.Common/Configuration/ConfigurationUnity.cs:161 | a new list is empty |
| Configuration.AssemblyList.Contains | src/Fireasy.Common/Configuration/ConfigurationUnity.cs:206 | true exactly when the assembly is in the list |
| Configuration.AssemblyList.Add | src/Fireasy.Common/Configuration/ConfigurationUnity.cs:208 | appends the assembly at the end |
| Configuration.AssemblyList.Clear | src/Fireasy.Common/Configuration/ConfigurationUnity.cs:178 | empties the list |
| Configuration.FindReferenceAssemblies | src/Fireasy.Common/Configuration/ConfigurationUnity.cs:199-213 | the list afterwards is the walk of the old list; the old contents keep their positions; duplicate-freedom is kept; an assembly is in the list afterwards exactly when it was before or is reachable from the start through references that pass the filter and load |
| Configuration.DiscoverAssemblies | src/Fireasy.Common/Configuration/ConfigurationUnity.cs:159-178 | the assemblies `Bind` visits are duplicate-free, are exactly those reachable from the calling assembly, and never include the calling assembly itself |
| EasyUI.EasyUIOptions.constructor | src/Fireasy.Web.EasyUI/EasyUIOptions.cs:9 | a new options object has an empty binder table |
| EasyUI.EasyUIOptions.AddBinder | src/Fireasy.Web.EasyUI/EasyUIOptions.cs:11-14 | succeeds exactly when the name is not yet present; then the name maps to the binder, the table grows by one and every other entry is unchanged; otherwise it fails with a duplicate-key error and the table is unchanged |

## Left out

- `src/Fireasy.Common/ServiceCollectionExtensions.cs` is not part of this model. It translates container registrations through runtime reflection and calls into a container and factories whose code is not here.
- `ConfigurationUnity.GetSection<T>` and the memoization in `Bind<T>` are left out. Both depend on attribute reflection and on the cache manager's `TryGet`, whose code is not here. Only the key mapping of `Bind<T>` is modelled.
- `ConfigurationUnity.GetSection(string)`, `GetCustomConfiguration` and `ReadSection` are left out. They read configuration files, parse XML and instantiate handlers by type name (I/O and reflection).
- The reflective loop of `Bind(Assembly, …)` is not modelled: for each assembly it looks up a type and a method and invokes it. `DiscoverAssemblies` returns the sequence that loop visits.
- `AttachSetting` is left out. It only delegates to an interface whose implementations are not here.
- The publish/subscribe bus and the persistence layer that build subjects are not modelled. Exceptions thrown by overridden hooks are not modelled either. The default hooks do not throw.
- Event tags and batch operation kinds are closed datatypes. A C# enum variable can hold an undeclared value, for which both switches do nothing; the model does not represent such values.
- A null subject and a subject of another type are both `None`, which matches the code: `as` yields null for both. A null `EntityEventArgs.Entity`, a null entity collection, a null entity type, a null storage name and a null binder name are not represented. `AddBinder` with a null name would raise `ArgumentNullException`.
- `ExcludeAssembly`: case folding is ASCII only. It does not model `OrdinalIgnoreCase` folding of non-ASCII characters whose upper case is an ASCII letter.
- `FindReferenceAssemblies`: requires an acyclic reference graph (`Ranked`). On a cycle the code recurses until the stack overflows; the model does not cover that case.
- `LoadAssembly` is a fixed partial map. The side effects of `Assembly.Load` and the lazy interleaving of the LINQ query with the recursion are not modelled. With a fixed map, that interleaving cannot change the result.
- Thread safety of hook overrides is left out. The dispatcher does no synchronization, so there is nothing to model.
