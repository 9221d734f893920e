/** The entity-persistence event dispatcher: `EntityPersistentSubscriber.Accept`
    routes one subject of the publish/subscribe bus to the subscriber's
    lifecycle hooks. Since every default hook does nothing, what a call to
    `Accept` does is fully described by the ordered trace of hooks it
    invokes, or by the fault it raises. */
module EntitySubscribes {
  import opened Wrappers

  /** The identity of an entity object handed to a hook. */
  type EntityRef = nat

  /** The name of an entity's runtime type (`Type entityType`). */
  type EntityType = string

  /** `EntityPersistentEventType`: the lifecycle phase a subject reports. */
  datatype EventType =
    | BeforeCreate | AfterCreate
    | BeforeUpdate | AfterUpdate
    | BeforeRemove | AfterRemove
    | BeforeBatch | AfterBatch

  /** `EntityPersistentOperater`: the operation a batch performs. */
  datatype Operater = Create | Update | Remove

  /** The argument payload of a subject, discriminated by its runtime type.
      `OtherArg` is any other object, null included. */
  datatype Argument =
    | EntityEventArgs(entity: EntityRef)
    | EntitiesArgs(entities: seq<EntityRef>, operType: Operater)
    | OtherArg

  /** `EntityPersistentSubject`: the envelope of one lifecycle event. */
  datatype PersistentSubject = PersistentSubject(eventType: EventType, entityType: EntityType, argument: Argument)

  /** One invocation of a protected hook, with the values it is passed. */
  datatype HookCall =
    | OnBeforeCreate(entity: EntityRef)
    | OnAfterCreate(entity: EntityRef)
    | OnCreate(entityType: EntityType)
    | OnBeforeUpdate(entity: EntityRef)
    | OnAfterUpdate(entity: EntityRef)
    | OnUpdate(entityType: EntityType)
    | OnBeforeRemove(entity: EntityRef)
    | OnAfterRemove(entity: EntityRef)
    | OnRemove(entityType: EntityType)
    | OnBeforeBatch(entities: seq<EntityRef>, operater: Operater)
    | OnAfterBatch(entities: seq<EntityRef>, operater: Operater)

  /** The exception `Accept` can raise: dereferencing the null that
      `Argument as EntitiesArgs` yields for any other payload. */
  datatype Fault = NullReference

  /** `ISubscriber.Accept`. `subject` is `None` when the bus delivers
      something that is not an `EntityPersistentSubject` (the `as` cast
      yields null). The result is the hooks invoked, in order, or the fault. */
  function Accept(subject: Option<PersistentSubject>): (r: Result<seq<HookCall>, Fault>)
    // a foreign subject is ignored: no hook, no fault
    ensures subject.None? ==> r == Success([])
    // only a batch event with a non-batch payload faults
    ensures r.Failure? <==> subject.Some? && IsBatch(subject.value.eventType) && !subject.value.argument.EntitiesArgs?
    // at most two hooks per subject
    ensures r.Success? ==> |r.value| <= 2
    // a before-phase never reaches a generic operation hook
    ensures r.Success? && subject.Some? && PhaseOf(subject.value.eventType) == Before ==>
              forall i :: 0 <= i < |r.value| ==> !IsGenericHook(r.value[i])
    // an after-phase always ends with the generic hook of its operation
    ensures r.Success? && subject.Some? && PhaseOf(subject.value.eventType) == After ==>
              |r.value| >= 1 &&
              r.value[|r.value| - 1] == GenericHook(OperationOf(subject.value), subject.value.entityType)
  {
    match subject
    case None => Success([])
    case Some(esub) =>
      match esub.eventType
      case BeforeCreate =>
        Success(if esub.argument.EntityEventArgs? then [OnBeforeCreate(esub.argument.entity)] else [])
      case AfterCreate =>
        Success((if esub.argument.EntityEventArgs? then [OnAfterCreate(esub.argument.entity)] else [])
                + [OnCreate(esub.entityType)])
      case BeforeUpdate =>
        Success(if esub.argument.EntityEventArgs? then [OnBeforeUpdate(esub.argument.entity)] else [])
      case AfterUpdate =>
        Success((if esub.argument.EntityEventArgs? then [OnAfterUpdate(esub.argument.entity)] else [])
                + [OnUpdate(esub.entityType)])
      case BeforeRemove =>
        Success(if esub.argument.EntityEventArgs? then [OnBeforeRemove(esub.argument.entity)] else [])
      case AfterRemove =>
        Success((if esub.argument.EntityEventArgs? then [OnAfterRemove(esub.argument.entity)] else [])
                + [OnRemove(esub.entityType)])
      case BeforeBatch =>
        (match esub.argument
         case EntitiesArgs(entities, operType) => Success([OnBeforeBatch(entities, operType)])
         case _ => Failure(NullReference))
      case AfterBatch =>
        match esub.argument
        case EntitiesArgs(entities, operType) =>
          var generic :=
            (match operType
             case Create => OnCreate(esub.entityType)
             case Update => OnUpdate(esub.entityType)
             case Remove => OnRemove(esub.entityType));
          Success([OnAfterBatch(entities, operType), generic])
        case _ => Failure(NullReference)
  }

  // ---------------------------------------------------------------------
  // The dispatch table, stated independently of `Accept`: each phase
  // invokes its specific hook with the unpacked payload, and a terminal
  // (after) phase then invokes the generic hook of its operation.
  // ---------------------------------------------------------------------

  datatype Phase = Before | After

  function PhaseOf(t: EventType): Phase {
    if t in {BeforeCreate, BeforeUpdate, BeforeRemove, BeforeBatch} then Before else After
  }

  predicate IsBatch(t: EventType) {
    t == BeforeBatch || t == AfterBatch
  }

  /** The operation a single-entity tag stands for. */
  function TagOperation(t: EventType): Operater
    requires !IsBatch(t)
  {
    if t in {BeforeCreate, AfterCreate} then Create
    else if t in {BeforeUpdate, AfterUpdate} then Update
    else Remove
  }

  /** The operation a subject reports: the tag's own, or the batch's `OperType`. */
  function OperationOf(s: PersistentSubject): Operater
    requires IsBatch(s.eventType) ==> s.argument.EntitiesArgs?
  {
    if IsBatch(s.eventType) then s.argument.operType else TagOperation(s.eventType)
  }

  /** `OnCreate`, `OnUpdate` or `OnRemove`: the hooks keyed by entity type only. */
  predicate IsGenericHook(h: HookCall) {
    h.OnCreate? || h.OnUpdate? || h.OnRemove?
  }

  function GenericHook(op: Operater, entityType: EntityType): HookCall {
    match op
    case Create => OnCreate(entityType)
    case Update => OnUpdate(entityType)
    case Remove => OnRemove(entityType)
  }

  /** The phase-specific hook of a single-entity tag. */
  function EntityHook(t: EventType, entity: EntityRef): HookCall
    requires !IsBatch(t)
  {
    match (PhaseOf(t), TagOperation(t))
    case (Before, Create) => OnBeforeCreate(entity)
    case (Before, Update) => OnBeforeUpdate(entity)
    case (Before, Remove) => OnBeforeRemove(entity)
    case (After, Create) => OnAfterCreate(entity)
    case (After, Update) => OnAfterUpdate(entity)
    case (After, Remove) => OnAfterRemove(entity)
  }

  /** The phase-specific hook of a batch tag. */
  function BatchHook(t: EventType, entities: seq<EntityRef>, op: Operater): HookCall
    requires IsBatch(t)
  {
    if PhaseOf(t) == Before then OnBeforeBatch(entities, op) else OnAfterBatch(entities, op)
  }

  /** The dispatch table, stated per phase and operation. */
  function DispatchTable(s: PersistentSubject): Result<seq<HookCall>, Fault> {
    if IsBatch(s.eventType) && !s.argument.EntitiesArgs? then
      Failure(NullReference)
    else
      var generic := if PhaseOf(s.eventType) == After then [GenericHook(OperationOf(s), s.entityType)] else [];
      if IsBatch(s.eventType) then
        Success([BatchHook(s.eventType, s.argument.entities, s.argument.operType)] + generic)
      else
        Success((if s.argument.EntityEventArgs? then [EntityHook(s.eventType, s.argument.entity)] else []) + generic)
  }

  /** `Accept` implements the dispatch table for every subject. */
  lemma AcceptFollowsTable(s: PersistentSubject)
    ensures Accept(Some(s)) == DispatchTable(s)
  {
    if IsBatch(s.eventType) && !s.argument.EntitiesArgs? {
      return;
    }
    var generic := if PhaseOf(s.eventType) == After then [GenericHook(OperationOf(s), s.entityType)] else [];
    assert [] + generic == generic;
    if !IsBatch(s.eventType) && PhaseOf(s.eventType) == Before {
      var specific := if s.argument.EntityEventArgs? then [EntityHook(s.eventType, s.argument.entity)] else [];
      assert specific + [] == specific;
    }
    match s.eventType {
      case BeforeCreate =>
      case AfterCreate =>
      case BeforeUpdate =>
      case AfterUpdate =>
      case BeforeRemove =>
      case AfterRemove =>
      case BeforeBatch =>
        if s.argument.EntitiesArgs? {
          var specific := [BatchHook(s.eventType, s.argument.entities, s.argument.operType)];
          assert specific + [] == specific;
        }
      case AfterBatch =>
        if s.argument.EntitiesArgs? {
          var specific := [BatchHook(s.eventType, s.argument.entities, s.argument.operType)];
          assert specific + generic == [specific[0], generic[0]];
        }
    }
  }

  /** A before-phase of a single entity invokes `OnBeforeX(entity)` when the
      payload is an `EntityEventArgs`, and nothing otherwise. */
  lemma BeforeEntityDispatch(s: PersistentSubject)
    requires s.eventType in {BeforeCreate, BeforeUpdate, BeforeRemove}
    ensures Accept(Some(s)) ==
              Success(if s.argument.EntityEventArgs? then [EntityHook(s.eventType, s.argument.entity)] else [])
  {
  }

  /** An after-phase of a single entity invokes `OnAfterX(entity)` when the
      payload is an `EntityEventArgs`, and then, whatever the payload, the
      generic hook of the tag's operation. */
  lemma AfterEntityDispatch(s: PersistentSubject)
    requires s.eventType in {AfterCreate, AfterUpdate, AfterRemove}
    ensures Accept(Some(s)) ==
              Success((if s.argument.EntityEventArgs? then [EntityHook(s.eventType, s.argument.entity)] else [])
                      + [GenericHook(TagOperation(s.eventType), s.entityType)])
    ensures !s.argument.EntityEventArgs? ==>
              Accept(Some(s)) == Success([GenericHook(TagOperation(s.eventType), s.entityType)])
  {
    var generic := [GenericHook(TagOperation(s.eventType), s.entityType)];
    assert [] + generic == generic;
  }

  /** `BeforeBatch` invokes exactly `OnBeforeBatch(entities, operType)`, and
      faults on any other payload. */
  lemma BeforeBatchDispatch(s: PersistentSubject)
    requires s.eventType == BeforeBatch
    ensures s.argument.EntitiesArgs? ==>
              Accept(Some(s)) == Success([OnBeforeBatch(s.argument.entities, s.argument.operType)])
    ensures !s.argument.EntitiesArgs? ==> Accept(Some(s)) == Failure(NullReference)
  {
  }

  /** `AfterBatch` invokes `OnAfterBatch(entities, operType)` and then exactly
      one generic hook, the one `operType` selects; it faults on any other
      payload. */
  lemma AfterBatchDispatch(s: PersistentSubject)
    requires s.eventType == AfterBatch
    ensures s.argument.EntitiesArgs? ==>
              Accept(Some(s)) == Success([OnAfterBatch(s.argument.entities, s.argument.operType),
                                          GenericHook(s.argument.operType, s.entityType)])
    ensures !s.argument.EntitiesArgs? ==> Accept(Some(s)) == Failure(NullReference)
  {
  }

  /** Four concrete subjects and the traces they produce. */
  lemma DispatchScenarios(order1: EntityRef, o1: EntityRef, o2: EntityRef)
    ensures Accept(Some(PersistentSubject(AfterCreate, "Order", EntityEventArgs(order1))))
            == Success([OnAfterCreate(order1), OnCreate("Order")])
    ensures Accept(Some(PersistentSubject(BeforeBatch, "Order", EntitiesArgs([o1, o2], Remove))))
            == Success([OnBeforeBatch([o1, o2], Remove)])
    ensures Accept(Some(PersistentSubject(AfterBatch, "Order", EntitiesArgs([o1, o2], Update))))
            == Success([OnAfterBatch([o1, o2], Update), OnUpdate("Order")])
    ensures Accept(None) == Success([])
  {
    assert [OnAfterCreate(order1)] + [OnCreate("Order")] == [OnAfterCreate(order1), OnCreate("Order")];
  }

  // ---------------------------------------------------------------------
  // Delivering a trace to a subscriber. A subscriber is modelled by how
  // each hook transforms the state it can observe; the base class's hooks
  // have empty bodies.
  // ---------------------------------------------------------------------

  /** Runs the hooks of `calls`, in order, starting from `state`. */
  function Deliver<S>(hooks: (HookCall, S) -> S, calls: seq<HookCall>, state: S): S
    decreases |calls|
  {
    if calls == [] then state else Deliver(hooks, calls[1..], hooks(calls[0], state))
  }

  /** The default hooks of `EntityPersistentSubscriber`: every one is a no-op. */
  function DefaultHooks<S>(h: HookCall, state: S): (after: S)
    ensures after == state
  {
    state
  }

  /** A hook that the subscriber has not overridden changes nothing. */
  ghost predicate Inert<S(!new)>(hooks: (HookCall, S) -> S, h: HookCall) {
    forall state :: hooks(h, state) == state
  }

  /** Delivering a trace whose every hook is inert changes no state. */
  lemma {:induction false} DeliverInert<S(!new)>(hooks: (HookCall, S) -> S, calls: seq<HookCall>, state: S)
    requires forall i :: 0 <= i < |calls| ==> Inert(hooks, calls[i])
    ensures Deliver(hooks, calls, state) == state
    decreases |calls|
  {
    if calls != [] {
      assert Inert(hooks, calls[0]);
      assert forall i :: 0 <= i < |calls[1..]| ==> calls[1..][i] == calls[i + 1];
      DeliverInert(hooks, calls[1..], hooks(calls[0], state));
    }
  }

  /** The base class's hooks change no state, whatever trace they are run on. */
  lemma DefaultHooksChangeNothing<S(!new)>(calls: seq<HookCall>, state: S)
    ensures Deliver(DefaultHooks, calls, state) == state
  {
    forall i | 0 <= i < |calls|
      ensures Inert<S>(DefaultHooks, calls[i])
    {
    }
    DeliverInert<S>(DefaultHooks, calls, state);
  }

  /** Corollary of `DefaultHooksChangeNothing` for the traces `Accept`
      produces: with the base class's hooks, dispatching a subject changes no
      state. The fact does not depend on what `Accept` dispatches; it holds
      because the dispatcher holds no fields and every default hook is empty. */
  lemma AcceptWithDefaultHooksChangesNothing<S(!new)>(subject: Option<PersistentSubject>, state: S)
    requires Accept(subject).Success?
    ensures Deliver(DefaultHooks, Accept(subject).value, state) == state
  {
    DefaultHooksChangeNothing(Accept(subject).value, state);
  }
}
