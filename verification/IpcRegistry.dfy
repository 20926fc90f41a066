/** IPC handlers and their registry as objects, tied call by call to the system of values. */
module IpcRegistry {
  import opened Basics
  import opened IpcSystem

  class IpcHandler {
    var targetState: RegistrationState
    var registeredState: RegistrationState
    var complete: bool

    ghost function Value(): Handler
      reads this
    {
      Handler(targetState, registeredState, complete)
    }

    constructor ()
      ensures Value() == CREATED
    {
      targetState := RegistrationState(true, "");
      registeredState := UNREGISTERED;
      complete := false;
    }
  }

  class IpcHandlerRegistry {
    var handlers: map<string, IpcHandler>
    var knownHandlers: map<string, seq<IpcHandler>>
    ghost var all: set<IpcHandler>
    ghost var since: map<IpcHandler, nat>
    ghost var clock: nat

    /** The handlers and the registry as one system. */
    ghost function Now(): System<IpcHandler>
      reads this, all
    {
      System(map h | h in all :: h.Value(), Tables(handlers, knownHandlers, since, clock))
    }

    constructor ()
      ensures Now() == Initial() && Now().Valid() && all == {}
    {
      handlers, knownHandlers := map[], map[];
      all, since, clock := {}, map[], 0;
    }

    method RegisterHandler(handler: IpcHandler)
      requires handler in all
      modifies this`handlers, this`knownHandlers, this`since, this`clock, handler`registeredState
      ensures Now() == old(Now()).Register(handler)
    {
      var target := handler.targetState.target;
      var targetVec := (if target in knownHandlers then knownHandlers[target] else []) + [handler];
      knownHandlers := knownHandlers[target := targetVec];
      if target !in handlers {
        handlers := handlers[target := handler];
      }
      handler.registeredState := handler.targetState.(enabled := true);
      since, clock := since[handler := clock], clock + 1;
      assert Now().tables == old(Now()).tables.Register(handler, target);
      assert Now().all == old(Now()).all[handler := handler.Value()];
    }

    method DeregisterHandler(handler: IpcHandler)
      requires handler in all
      modifies this`handlers, this`knownHandlers, handler`registeredState
      ensures Now() == old(Now()).Deregister(handler)
    {
      hide RemoveOne;
      var target := handler.registeredState.target;
      var targetVec := RemoveOne(if target in knownHandlers then knownHandlers[target] else [], handler);
      knownHandlers := knownHandlers[target := targetVec];
      if target in handlers && handlers[target] == handler {
        if targetVec == [] {
          handlers := handlers - {target};
        } else {
          handlers := handlers[target := targetVec[0]];
        }
      }
      handler.registeredState := UNREGISTERED;
      assert Now().tables == old(Now()).tables.Deregister(handler, target);
      assert Now().all == old(Now()).all[handler := handler.Value()];
    }

    /** Deregisters a complete handler and, if it is to be reachable, registers it last under its target. */
    method UpdateRegistration(handler: IpcHandler)
      requires handler in all
      modifies this`handlers, this`knownHandlers, this`since, this`clock, handler`registeredState
      ensures Now() == old(Now()).Update(handler)
    {
      hide System.Register, System.Deregister;
      if !handler.complete {
        clock := clock + 1;
        return;
      }
      ghost var before := Now();
      if handler.registeredState.enabled {
        before.Deregistered(handler);
        DeregisterHandler(handler);
      }
      if handler.targetState.enabled && handler.targetState.target != "" {
        RegisterHandler(handler);
      } else {
        clock := clock + 1;
      }
    }

    method Create() returns (handler: IpcHandler)
      requires Now().Valid()
      modifies this`all, this`clock
      ensures fresh(handler) && all == old(all) + {handler}
      ensures Now() == old(Now()).Create(handler) && Now().Valid()
    {
      hide System.ValidBut;
      handler := new IpcHandler();
      all, clock := all + {handler}, clock + 1;
      old(Now()).CreateKeeps(handler);
    }

    method SetEnabled(handler: IpcHandler, enabled: bool)
      requires Now().Valid() && handler in all
      modifies this`handlers, this`knownHandlers, this`since, this`clock
      modifies handler`targetState, handler`registeredState
      ensures Now() == old(Now()).SetEnabled(handler, enabled) && Now().Valid()
    {
      hide System.Update, System.ValidBut;
      old(Now()).SetEnabledKeeps(handler, enabled);
      if enabled != handler.targetState.enabled {
        handler.targetState := handler.targetState.(enabled := enabled);
        assert Now() == var s := old(Now());
          s.(all := s.all[handler := s.all[handler].(target := s.all[handler].target.(enabled := enabled))]);
        UpdateRegistration(handler);
      } else {
        clock := clock + 1;
      }
    }

    method SetTarget(handler: IpcHandler, target: string)
      requires Now().Valid() && handler in all
      modifies this`handlers, this`knownHandlers, this`since, this`clock
      modifies handler`targetState, handler`registeredState
      ensures Now() == old(Now()).SetTarget(handler, target) && Now().Valid()
    {
      hide System.Update, System.ValidBut;
      old(Now()).SetTargetKeeps(handler, target);
      if target != handler.targetState.target {
        handler.targetState := handler.targetState.(target := target);
        assert Now() == var s := old(Now());
          s.(all := s.all[handler := s.all[handler].(target := s.all[handler].target.(target := target))]);
        UpdateRegistration(handler);
      } else {
        clock := clock + 1;
      }
    }

    method OnPostReload(handler: IpcHandler)
      requires Now().Valid() && handler in all
      modifies this`handlers, this`knownHandlers, this`since, this`clock
      modifies handler`complete, handler`registeredState
      ensures Now() == old(Now()).Reload(handler) && Now().Valid()
    {
      hide System.Update, System.ValidBut;
      old(Now()).ReloadKeeps(handler);
      handler.complete := true;
      assert Now() == var s := old(Now()); s.(all := s.all[handler := s.all[handler].(complete := true)]);
      UpdateRegistration(handler);
    }

    /** What a handler does before it goes. */
    method Retire(handler: IpcHandler)
      requires handler in all
      modifies this`handlers, this`knownHandlers, this`since, this`clock
      modifies handler`targetState, handler`registeredState
      ensures var s := old(Now());
              var disabled := s.all[handler].(target := s.all[handler].target.(enabled := false));
              Now() == if s.all[handler].registered.enabled
                       then s.(all := s.all[handler := disabled]).Update(handler)
                       else s.Tick()
    {
      hide System.Update;
      if handler.registeredState.enabled {
        handler.targetState := handler.targetState.(enabled := false);
        assert Now() == var s := old(Now());
          s.(all := s.all[handler := s.all[handler].(target := s.all[handler].target.(enabled := false))]);
        UpdateRegistration(handler);
      } else {
        clock := clock + 1;
      }
    }

    /** A destroyed handler leaves no trace. */
    method Destroy(handler: IpcHandler)
      requires Now().Valid() && handler in all
      modifies this, handler`targetState, handler`registeredState
      ensures Now() == old(Now()).Destroy(handler) && Now().Valid() && all == old(all) - {handler}
      ensures forall t :: handler !in Now().tables.Known(t)
    {
      hide System.Update, System.ValidBut, Tables.Known;
      old(Now()).DestroyKeeps(handler);
      Retire(handler);
      ghost var s := Now();
      all := all - {handler};
      assert Now().all == s.all - {handler} && Now().tables == s.tables;
    }

    /** The handler found for a target is the one registered for it the longest; none only if none is registered. */
    method FindHandler(target: string) returns (found: Option<IpcHandler>)
      requires Now().Valid()
      ensures found == if target in handlers then Some(handlers[target]) else None
      ensures found.None? <==>
              forall h :: h in all ==> !(h.registeredState.enabled && h.registeredState.target == target)
      ensures found.Some? ==>
                && found.value in all && found.value in since
                && found.value.registeredState.enabled && found.value.registeredState.target == target
                && forall h :: h in all && h.registeredState.enabled && h.registeredState.target == target ==>
                     h in since && since[found.value] <= since[h]
    {
      hide InOrder;
      ghost var s := Now();
      found := if target in handlers then Some(handlers[target]) else None;
      assert s.tables.Sound(target);
      assert forall h :: h in s.tables.Known(target) ==> h in s.all;
      forall h | h in all
        ensures h in s.tables.Known(target) <==> h.registeredState.enabled && h.registeredState.target == target
      {
        assert s.Listed(h, target) && s.all[h] == h.Value();
      }
      assert s.tables.Agrees(target);
      if found.Some? {
        assert found.value in s.tables.Known(target) && found.value in s.all;
      } else {
        assert s.tables.Known(target) == [];
        assert forall h :: h in all ==> h !in s.tables.Known(target);
      }
      forall h | h in s.tables.Known(target) ensures since[s.tables.Known(target)[0]] <= since[h] {
        FirstIsOldest(s.tables.Known(target), since, h);
      }
    }
  }

  const ON_A := RegistrationState(true, "a")

  /** Two new handlers. */
  method TwoNew() returns (registry: IpcHandlerRegistry, first: IpcHandler, second: IpcHandler)
    ensures fresh(registry) && fresh(first) && fresh(second) && first != second
    ensures registry.Now().Valid() && registry.all == {first, second}
    ensures first.Value() == second.Value() == CREATED
    ensures registry.handlers == map[] && registry.knownHandlers == map[]
  {
    hide System.ValidBut, RemoveOne;
    registry := new IpcHandlerRegistry();
    first := registry.Create();
    assert registry.Now().all[first] == first.Value();
    second := registry.Create();
    assert registry.Now().all[first] == first.Value() && registry.Now().all[second] == second.Value();
  }

  /** The same two, complete. */
  method TwoHandlers() returns (registry: IpcHandlerRegistry, first: IpcHandler, second: IpcHandler)
    ensures fresh(registry) && fresh(first) && fresh(second) && first != second
    ensures registry.Now().Valid() && registry.all == {first, second}
    ensures first.Value() == second.Value() == CREATED.(complete := true)
    ensures registry.handlers == map[] && registry.knownHandlers == map[]
  {
    hide System.ValidBut, RemoveOne;
    registry, first, second := TwoNew();
    assert registry.Now().all[first] == first.Value() && registry.Now().all[second] == second.Value();
    registry.OnPostReload(first);
    assert registry.Now().all[first] == first.Value() && registry.Now().all[second] == second.Value();
    registry.OnPostReload(second);
    assert registry.Now().all[second] == second.Value();
  }

  /** The same two, given one target in turn. */
  method TwoOnOneTarget() returns (registry: IpcHandlerRegistry, first: IpcHandler, second: IpcHandler)
    ensures fresh(registry) && fresh(first) && fresh(second) && first != second
    ensures registry.Now().Valid() && registry.all == {first, second}
    ensures first.Value() == second.Value() == Handler(ON_A, ON_A, true)
    ensures registry.Now().tables.Known("a") == [first, second] && registry.handlers == map["a" := first]
  {
    hide System.ValidBut, RemoveOne;
    registry, first, second := TwoHandlers();
    assert registry.Now().all[first] == first.Value() && registry.Now().all[second] == second.Value();
    registry.SetTarget(first, "a");
    assert registry.Now().all[first] == first.Value() && registry.Now().all[second] == second.Value();
    assert registry.handlers == map["a" := first] && registry.Now().tables.Known("a") == [first];
    registry.SetTarget(second, "a");
    assert registry.Now().all[first] == first.Value() && registry.Now().all[second] == second.Value();
  }

  /** One of two handlers for a target leaves it for a moment. */
  method Leave(registry: IpcHandlerRegistry, first: IpcHandler, ghost second: IpcHandler)
    requires registry.Now().Valid() && registry.all == {first, second} && first != second
    requires first.Value() == Handler(ON_A, ON_A, true)
    requires registry.Now().tables.Known("a") == [first, second] && registry.handlers == map["a" := first]
    modifies registry`handlers, registry`knownHandlers, registry`since, registry`clock
    modifies first`targetState, first`registeredState
    ensures registry.Now().Valid()
    ensures first.Value() == Handler(ON_A.(enabled := false), UNREGISTERED, true)
    ensures registry.Now().tables.Known("a") == [second] && registry.handlers == map["a" := second]
  {
    hide System.ValidBut;
    assert registry.Now().all[first] == first.Value();
    assert RemoveOne([first, second], first) == [second];
    registry.SetEnabled(first, false);
    assert registry.Now().all[first] == first.Value();
  }

  /** Of two handlers for one target the earlier is found, until it leaves: then it goes behind the other. */
  method TakeTurns() returns (before: bool, after: bool)
    ensures before && after
  {
    hide System.ValidBut;
    var registry, first, second := TwoOnOneTarget();
    var found := registry.FindHandler("a");
    before := found == Some(first);
    Leave(registry, first, second);
    Return(registry, first, second);
    found := registry.FindHandler("a");
    after := found == Some(second);
  }

  /** It comes back, behind the other. */
  method Return(registry: IpcHandlerRegistry, first: IpcHandler, ghost second: IpcHandler)
    requires registry.Now().Valid() && registry.all == {first, second} && first != second
    requires first.Value() == Handler(ON_A.(enabled := false), UNREGISTERED, true)
    requires registry.Now().tables.Known("a") == [second] && registry.handlers == map["a" := second]
    modifies registry`handlers, registry`knownHandlers, registry`since, registry`clock
    modifies first`targetState, first`registeredState
    ensures registry.Now().Valid()
    ensures registry.Now().tables.Known("a") == [second, first] && registry.handlers == map["a" := second]
  {
    hide System.ValidBut;
    assert registry.Now().all[first] == first.Value();
    registry.SetEnabled(first, true);
  }
}
