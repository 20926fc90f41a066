/**
  IPC handlers and the registry that knows them, as values: a list of handlers per
  target in order of registration, and a fast map holding the one in use.  Handlers
  and tables together are a system that steps through events.
 */
module IpcSystem {

  datatype RegistrationState = RegistrationState(enabled: bool, target: string)

  const UNREGISTERED := RegistrationState(false, "")

  // ---------------------------------------------------------------- the tables

  /** First occurrence taken out. */
  function RemoveOne<H(==)>(list: seq<H>, h: H): seq<H> {
    if list == [] then []
    else if list[0] == h then list[1..]
    else [list[0]] + RemoveOne(list[1..], h)
  }

  /** Strictly increasing stamps: in order of registration, nobody twice. */
  ghost predicate InOrder<H>(list: seq<H>, since: map<H, nat>) {
    && (forall i :: 0 <= i < |list| ==> list[i] in since)
    && (forall i, j :: 0 <= i < j < |list| ==> since[list[i]] < since[list[j]])
  }

  lemma {:induction false} RemoveOneKeepsOrder<H>(list: seq<H>, h: H, since: map<H, nat>)
    requires InOrder(list, since)
    ensures var r := RemoveOne(list, h);
            && InOrder(r, since) && h !in r
            && (forall k :: k in r <==> k in list && k != h)
            && (list != [] && list[0] != h ==> r != [] && r[0] == list[0])
  {
    if list != [] {
      RemoveOneKeepsOrder(list[1..], h, since);
      assert list == [list[0]] + list[1..];
      if list[0] == h {
        assert forall i :: 0 <= i < |list[1..]| ==> since[h] < since[list[1..][i]];
      }
    }
  }

  /** A new stamp leaves lists without its owner in order, and the owner may be appended to one. */
  lemma StampKeepsOrder<H>(list: seq<H>, h: H, since: map<H, nat>, clock: nat)
    requires InOrder(list, since) && h !in list && forall k :: k in list ==> k in since && since[k] < clock
    ensures InOrder(list, since[h := clock]) && InOrder(list + [h], since[h := clock])
  {}

  /** The registry's maps, with a stamp for when each handler was last registered. */
  datatype Tables<H(==)> = Tables(
    handlers: map<string, H>, known: map<string, seq<H>>, since: map<H, nat>, clock: nat)
  {
    function Known(t: string): seq<H> {
      if t in known then known[t] else []
    }

    /** The handler in use is the first one known, and there is none exactly when none is known. */
    ghost predicate Agrees(t: string) {
      if Known(t) == [] then t !in handlers else t in handlers && handlers[t] == Known(t)[0]
    }

    ghost predicate Sound(t: string) {
      && Agrees(t) && InOrder(Known(t), since)
      && forall k :: k in Known(t) ==> k in since && since[k] < clock
    }

    /** Time passes without a registration. */
    function Tick(): Tables<H> {
      this.(clock := clock + 1)
    }

    function Register(h: H, target: string): Tables<H> {
      Tables(if target in handlers then handlers else handlers[target := h],
             known[target := Known(target) + [h]], since[h := clock], clock + 1)
    }

    function Deregister(h: H, target: string): Tables<H> {
      var list := RemoveOne(Known(target), h);
      var handlers' := if target in handlers && handlers[target] == h then
                         if list == [] then handlers - {target} else handlers[target := list[0]]
                       else handlers;
      Tables(handlers', known[target := list], since, clock)
    }

    /** Registering appends to one list and keeps every target sound. */
    lemma RegisterKeepsSound(h: H, target: string, t: string)
      requires Sound(t) && h !in Known(t)
      ensures Register(h, target).Sound(t)
      ensures Register(h, target).Known(t) == if t == target then Known(t) + [h] else Known(t)
    {
      hide InOrder;
      StampKeepsOrder(Known(t), h, since, clock);
    }

    /** Deregistering takes one handler out of one list and keeps every target sound. */
    lemma DeregisterKeepsSound(h: H, target: string, t: string)
      requires Sound(t)
      ensures Deregister(h, target).Sound(t)
      ensures forall k :: k in Deregister(h, target).Known(t) <==> k in Known(t) && !(t == target && k == h)
    {
      hide InOrder;
      RemoveOneKeepsOrder(Known(t), h, since);
    }
  }

  // ---------------------------------------------------------------- the system

  datatype Handler = Handler(target: RegistrationState, registered: RegistrationState, complete: bool) {
    /** A complete handler is registered exactly if it is enabled with a target, and under that target. */
    function Wanted(): RegistrationState {
      if complete && target.enabled && target.target != "" then target else UNREGISTERED
    }

    ghost predicate RegisteredAs(t: string) {
      registered.enabled && registered.target == t
    }
  }

  const CREATED := Handler(RegistrationState(true, ""), UNREGISTERED, false)

  datatype System<H(==)> = System(all: map<H, Handler>, tables: Tables<H>) {
    /** A handler is listed under its registered target if it is registered, and nowhere else. */
    ghost predicate Listed(h: H, t: string)
      requires h in all
    {
      h in tables.Known(t) <==> all[h].RegisteredAs(t)
    }

    /** Lists and map agree, and every handler but perhaps one is registered as it wants to be. */
    ghost predicate ValidBut(exempt: set<H>) {
      && (forall t :: tables.Sound(t))
      && (forall t, h :: h in tables.Known(t) ==> h in all)
      && (forall h, t :: h in all ==> Listed(h, t))
      && (forall h :: h in tables.since ==> tables.since[h] < tables.clock)
      && (forall h :: h in all && h !in exempt ==> all[h].registered == all[h].Wanted())
      && (forall h :: h in all && !all[h].registered.enabled ==> all[h].registered == UNREGISTERED)
    }

    ghost predicate Valid() {
      ValidBut({})
    }

    function Tick(): System<H> {
      this.(tables := tables.Tick())
    }

    function Register(h: H): System<H>
      requires h in all
    {
      System(all[h := all[h].(registered := all[h].target.(enabled := true))],
             tables.Register(h, all[h].target.target))
    }

    function Deregister(h: H): System<H>
      requires h in all
    {
      System(all[h := all[h].(registered := UNREGISTERED)], tables.Deregister(h, all[h].registered.target))
    }

    /** Takes a complete handler out of its old place and, if it is to be reachable, puts it last in its new one. */
    function Update(h: H): System<H>
      requires h in all
    {
      if !all[h].complete then Tick()
      else
        var s := if all[h].registered.enabled then Deregister(h) else this;
        if all[h].target.enabled && all[h].target.target != "" then s.Register(h) else s.Tick()
    }

    function Create(h: H): System<H> {
      if h in all then Tick() else this.(all := all[h := CREATED]).Tick()
    }

    function SetEnabled(h: H, enabled: bool): System<H>
      requires h in all
    {
      if enabled == all[h].target.enabled then Tick()
      else this.(all := all[h := all[h].(target := all[h].target.(enabled := enabled))]).Update(h)
    }

    function SetTarget(h: H, target: string): System<H>
      requires h in all
    {
      if target == all[h].target.target then Tick()
      else this.(all := all[h := all[h].(target := all[h].target.(target := target))]).Update(h)
    }

    function Reload(h: H): System<H>
      requires h in all
    {
      this.(all := all[h := all[h].(complete := true)]).Update(h)
    }

    function Destroy(h: H): System<H>
      requires h in all
    {
      var s := if all[h].registered.enabled then
                 this.(all := all[h := all[h].(target := all[h].target.(enabled := false))]).Update(h)
               else Tick();
      s.(all := s.all - {h})
    }

    // -------------------------------------------------- what every operation keeps

    lemma TickKeeps(exempt: set<H>)
      requires ValidBut(exempt)
      ensures Tick().ValidBut(exempt)
    {
      hide InOrder;
      var s := Tick();
      assert forall t :: s.tables.Known(t) == tables.Known(t);
      forall t ensures s.tables.Sound(t) {
        assert tables.Sound(t);
      }
      forall h, t | h in s.all ensures s.Listed(h, t) {
        assert Listed(h, t);
      }
    }

    lemma RegisterKeeps(h: H)
      requires h in all && ValidBut({h}) && !all[h].registered.enabled
      requires all[h].complete && all[h].target.enabled && all[h].target.target != ""
      ensures Register(h).Valid()
    {
      hide InOrder, Tables.Sound;
      var target, s := all[h].target.target, Register(h);
      forall t
        ensures s.tables.Sound(t)
        ensures s.tables.Known(t) == if t == target then tables.Known(t) + [h] else tables.Known(t)
      {
        assert Listed(h, t);
        tables.RegisterKeepsSound(h, target, t);
      }
      forall k, t | k in s.all ensures s.Listed(k, t) {
        assert Listed(k, t);
      }
    }

    lemma DeregisterKeeps(h: H)
      requires h in all && ValidBut({h}) && all[h].registered.enabled
      ensures Deregister(h).ValidBut({h})
    {
      hide InOrder, Tables.Sound, RemoveOne;
      var target, s := all[h].registered.target, Deregister(h);
      forall t
        ensures s.tables.Sound(t)
        ensures forall k :: k in s.tables.Known(t) <==> k in tables.Known(t) && !(t == target && k == h)
      {
        tables.DeregisterKeepsSound(h, target, t);
      }
      forall k, t | k in s.all ensures s.Listed(k, t) {
        assert Listed(k, t) && Listed(h, t);
      }
      forall t, k | k in s.tables.Known(t) ensures k in s.all {
        assert s.tables.Sound(t) && k in tables.Known(t);
      }
    }

    lemma UpdateKeeps(h: H)
      requires h in all && ValidBut({h}) && (!all[h].complete ==> !all[h].registered.enabled)
      ensures Update(h).Valid()
    {
      hide Tables.Sound, Listed, Register, Deregister;
      if all[h].complete {
        var s := this;
        if all[h].registered.enabled {
          DeregisterKeeps(h);
          s := Deregister(h);
          Deregistered(h);
        }
        if all[h].target.enabled && all[h].target.target != "" {
          s.RegisterKeeps(h);
        } else {
          s.NowValid(h);
          s.TickKeeps({});
        }
      } else {
        NowValid(h);
        TickKeeps({});
      }
    }

    lemma Deregistered(h: H)
      requires h in all
      ensures Deregister(h).all == all[h := all[h].(registered := UNREGISTERED)]
    {}

    lemma NowValid(h: H)
      requires h in all && ValidBut({h}) && all[h].registered == all[h].Wanted()
      ensures Valid()
    {}

    /** What a handler wants may change, and it may become complete, before it is updated. */
    lemma ChangeKeeps(h: H, changed: Handler)
      requires h in all && Valid() && changed.registered == all[h].registered
      ensures this.(all := all[h := changed]).ValidBut({h})
    {
      hide InOrder, Tables.Sound;
      var s := this.(all := all[h := changed]);
      forall k, t | k in s.all ensures s.Listed(k, t) {
        assert Listed(k, t);
      }
    }

    lemma ChangedUpdateKeeps(h: H, changed: Handler)
      requires h in all && Valid() && changed.registered == all[h].registered
      requires all[h].complete ==> changed.complete
      ensures this.(all := all[h := changed]).Update(h).Valid()
    {
      hide Update;
      ChangeKeeps(h, changed);
      this.(all := all[h := changed]).UpdateKeeps(h);
    }

    lemma SetEnabledKeeps(h: H, enabled: bool)
      requires h in all && Valid()
      ensures SetEnabled(h, enabled).Valid()
    {
      hide Update, ValidBut;
      TickKeeps({});
      ChangedUpdateKeeps(h, all[h].(target := all[h].target.(enabled := enabled)));
    }

    lemma SetTargetKeeps(h: H, target: string)
      requires h in all && Valid()
      ensures SetTarget(h, target).Valid()
    {
      hide Update, ValidBut;
      TickKeeps({});
      ChangedUpdateKeeps(h, all[h].(target := all[h].target.(target := target)));
    }

    lemma ReloadKeeps(h: H)
      requires h in all && Valid()
      ensures Reload(h).Valid()
    {
      hide Update, ValidBut;
      ChangedUpdateKeeps(h, all[h].(complete := true));
    }

    lemma CreateKeeps(h: H)
      requires Valid()
      ensures Create(h).Valid()
    {
      hide InOrder, Tables.Sound;
      if h !in all {
        var s := this.(all := all[h := CREATED]);
        forall k, t | k in s.all ensures s.Listed(k, t) {
          assert k in all ==> Listed(k, t);
        }
        s.TickKeeps({});
      } else {
        TickKeeps({});
      }
    }

    lemma DestroyKeeps(h: H)
      requires h in all && Valid()
      ensures Destroy(h).Valid() && h !in Destroy(h).all
      ensures forall t :: h !in Destroy(h).tables.Known(t)
    {
      hide InOrder, Tables.Sound, Update;
      var s := Tick();
      TickKeeps({});
      if all[h].registered.enabled {
        var changed := all[h].(target := all[h].target.(enabled := false));
        s := this.(all := all[h := changed]).Update(h);
        ChangedUpdateKeeps(h, changed);
        UpdateTargets(h, changed);
      }
      assert s.Valid() && !s.all[h].registered.enabled;
      forall t ensures h !in s.tables.Known(t) {
        assert s.Listed(h, t);
      }
      var d := Destroy(h);
      assert d == s.(all := s.all - {h});
      forall k, t | k in d.all ensures d.Listed(k, t) {
        assert s.Listed(k, t);
      }
    }

    /**
      A complete handler ends up registered as it wants, and then last in its list with
      the newest stamp; all others keep their lists, their stamps and what they are.
     */
    lemma UpdatePlaces(h: H)
      requires h in all && ValidBut({h}) && all[h].complete
      ensures var s := Update(h);
              && s.all.Keys == all.Keys && s.all[h] == all[h].(registered := all[h].Wanted())
              && (s.all[h].registered.enabled ==>
                    && h in s.tables.since
                    && (forall k :: k in s.tables.since && k != h ==> s.tables.since[k] < s.tables.since[h])
                    && var list := s.tables.Known(all[h].target.target); list != [] && list[|list| - 1] == h)
      ensures OthersKept(Update(h), h)
    {
      hide InOrder, Tables.Sound, RemoveOne;
      UpdateKeepsLists(h);
    }

    lemma UpdateKeepsLists(h: H)
      requires h in all && ValidBut({h}) && all[h].complete
      ensures forall t, k :: k in all && k != h ==> (k in Update(h).tables.Known(t) <==> k in tables.Known(t))
    {
      hide InOrder, Tables.Sound, RemoveOne;
      forall t, k | k in all && k != h
        ensures k in Update(h).tables.Known(t) <==> k in tables.Known(t)
      {
        if all[h].registered.enabled {
          assert tables.Sound(t);
          tables.DeregisterKeepsSound(h, all[h].registered.target, t);
        }
      }
    }

    ghost predicate OthersKept(s: System<H>, h: H) {
      && (forall k :: k in all && k != h ==> k in s.all && s.all[k] == all[k])
      && (forall k :: k in tables.since && k != h ==> k in s.tables.since && s.tables.since[k] == tables.since[k])
      && (forall t, k :: k in all && k != h ==> (k in s.tables.Known(t) <==> k in tables.Known(t)))
    }

    /** Destroying a handler changes nothing for the others. */
    lemma DestroyKeepsOthers(h: H)
      requires h in all && Valid()
      ensures OthersKept(Destroy(h), h)
    {
      hide InOrder, Tables.Sound, Update;
      if all[h].registered.enabled {
        var changed := all[h].(target := all[h].target.(enabled := false));
        ChangeKeeps(h, changed);
        this.(all := all[h := changed]).UpdatePlaces(h);
      }
    }

    lemma UpdateTargets(h: H, changed: Handler)
      requires h in all
      ensures var s := this.(all := all[h := changed]).Update(h);
              && s.all.Keys == all.Keys && s.all[h].target == changed.target && s.all[h].complete == changed.complete
              && forall k :: k in all && k != h ==> s.all[k] == all[k]
    {}
  }

  // ------------------------------------------------------------------ whole runs

  /** What can happen to a handler; events about a handler that does not exist only pass the time. */
  datatype Event<H> =
    | Create(h: H)
    | SetEnabled(h: H, enabled: bool)
    | SetTarget(h: H, target: string)
    | Reload(h: H)
    | Destroy(h: H)

  function Step<H(==)>(s: System<H>, e: Event<H>): System<H> {
    if e.Create? then s.Create(e.h)
    else if e.h !in s.all then s.Tick()
    else match e
      case SetEnabled(h, enabled) => s.SetEnabled(h, enabled)
      case SetTarget(h, target) => s.SetTarget(h, target)
      case Reload(h) => s.Reload(h)
      case Destroy(h) => s.Destroy(h)
  }

  function Initial<H(==)>(): System<H> {
    System(map[], Tables(map[], map[], map[], 0))
  }

  function After<H(==)>(events: seq<Event<H>>): System<H> {
    if events == [] then Initial() else Step(After(events[..|events| - 1]), events[|events| - 1])
  }

  // ---------------------------------------------------- what the events ask for

  /** It was created, and not destroyed since. */
  predicate Exists<H(==)>(events: seq<Event<H>>, h: H) {
    events != [] &&
    match events[|events| - 1]
    case Create(k) => k == h || Exists(events[..|events| - 1], h)
    case Destroy(k) => k != h && Exists(events[..|events| - 1], h)
    case _ => Exists(events[..|events| - 1], h)
  }

  /** The target last set since its creation, none before that. */
  function TargetOf<H(==)>(events: seq<Event<H>>, h: H): string {
    if events == [] then ""
    else
      var init := events[..|events| - 1];
      match events[|events| - 1]
      case SetTarget(k, target) => if k == h then target else TargetOf(init, h)
      case Create(k) => if k == h && !Exists(init, h) then "" else TargetOf(init, h)
      case _ => TargetOf(init, h)
  }

  /** Enabled, unless last disabled since its creation. */
  predicate EnabledIn<H(==)>(events: seq<Event<H>>, h: H) {
    events == [] ||
    var init := events[..|events| - 1];
    match events[|events| - 1]
    case SetEnabled(k, enabled) => if k == h then enabled else EnabledIn(init, h)
    case Create(k) => (k == h && !Exists(init, h)) || EnabledIn(init, h)
    case _ => EnabledIn(init, h)
  }

  /** Reloaded at least once since its creation. */
  predicate CompleteIn<H(==)>(events: seq<Event<H>>, h: H) {
    events != [] &&
    var init := events[..|events| - 1];
    match events[|events| - 1]
    case Reload(k) => k == h || CompleteIn(init, h)
    case Create(k) => !(k == h && !Exists(init, h)) && CompleteIn(init, h)
    case _ => CompleteIn(init, h)
  }

  /** The handler wants to be, and can be, found under the target. */
  predicate Serves<H(==)>(events: seq<Event<H>>, h: H, t: string) {
    Exists(events, h) && CompleteIn(events, h) && EnabledIn(events, h) && TargetOf(events, h) == t != ""
  }

  /** The event gives the handler a place: it asks for something new of a complete handler that is to be reachable. */
  predicate Places<H(==)>(events: seq<Event<H>>, e: Event<H>, h: H) {
    && e.h == h && Exists(events, h)
    && match e
       case SetEnabled(_, enabled) =>
         enabled && !EnabledIn(events, h) && CompleteIn(events, h) && TargetOf(events, h) != ""
       case SetTarget(_, target) =>
         target != "" && target != TargetOf(events, h) && CompleteIn(events, h) && EnabledIn(events, h)
       case Reload(_) => EnabledIn(events, h) && TargetOf(events, h) != ""
       case _ => false
  }

  /** When the handler was last given a place, -1 if never. */
  function PlacedAt<H(==)>(events: seq<Event<H>>, h: H): int {
    if events == [] then -1
    else if Places(events[..|events| - 1], events[|events| - 1], h) then |events| - 1
    else PlacedAt(events[..|events| - 1], h)
  }

  /** The state's view of the same. */
  predicate Stamps<H(==)>(s: System<H>, e: Event<H>, h: H) {
    && e.h == h && h in s.all
    && var now := s.all[h];
       match e
       case SetEnabled(_, enabled) => enabled && !now.target.enabled && now.complete && now.target.target != ""
       case SetTarget(_, target) => target != "" && target != now.target.target && now.complete && now.target.enabled
       case Reload(_) => now.target.enabled && now.target.target != ""
       case _ => false
  }

  /** The handler is as the events ask. */
  ghost predicate AsAsked<H>(s: System<H>, events: seq<Event<H>>, h: H) {
    && (h in s.all <==> Exists(events, h))
    && (h in s.all ==>
          && s.all[h].target == RegistrationState(EnabledIn(events, h), TargetOf(events, h))
          && (s.all[h].complete <==> CompleteIn(events, h)))
  }

  /** After every run each handler exists, wants its target, is enabled and is complete as the events say. */
  lemma {:induction false} HandlersAreAsAsked<H>(events: seq<Event<H>>, h: H)
    ensures AsAsked(After(events), events, h)
  {
    if events != [] {
      var init, last := events[..|events| - 1], events[|events| - 1];
      HandlersAreAsAsked(init, h);
      StepAsks(After(init), init, last, h);
      assert init + [last] == events;
    }
  }

  lemma StepAsks<H>(s: System<H>, events: seq<Event<H>>, e: Event<H>, h: H)
    requires AsAsked(s, events, h)
    ensures AsAsked(Step(s, e), events + [e], h)
  {
    hide System.Update;
    assert (events + [e])[..|events|] == events && (events + [e])[|events|] == e;
    if e.h in s.all {
      var now := s.all[e.h];
      match e
      case Create(_) =>
      case SetEnabled(k, enabled) => s.UpdateTargets(k, now.(target := now.target.(enabled := enabled)));
      case SetTarget(k, target) => s.UpdateTargets(k, now.(target := now.target.(target := target)));
      case Reload(k) => s.UpdateTargets(k, now.(complete := true));
      case Destroy(k) => s.UpdateTargets(k, now.(target := now.target.(enabled := false)));
    }
  }

  lemma PlacesIsStamps<H>(events: seq<Event<H>>, e: Event<H>, h: H)
    ensures Places(events, e, h) <==> Stamps(After(events), e, h)
  {
    hide After, Exists, TargetOf, EnabledIn, CompleteIn;
    HandlersAreAsAsked(events, h);
  }

  lemma StepKeeps<H>(s: System<H>, e: Event<H>)
    requires s.Valid()
    ensures Step(s, e).Valid()
  {
    hide System.Create, System.SetEnabled, System.SetTarget, System.Reload, System.Destroy, System.ValidBut;
    if e.Create? {
      s.CreateKeeps(e.h);
    } else if e.h !in s.all {
      s.TickKeeps({});
    } else {
      match e
      case SetEnabled(h, enabled) => s.SetEnabledKeeps(h, enabled);
      case SetTarget(h, target) => s.SetTargetKeeps(h, target);
      case Reload(h) => s.ReloadKeeps(h);
      case Destroy(h) => s.DestroyKeeps(h);
    }
  }

  /** In every run the map agrees with the lists, and complete handlers are registered as they want to be. */
  lemma {:induction false} EveryRunIsValid<H>(events: seq<Event<H>>)
    ensures After(events).Valid()
  {
    hide System.ValidBut;
    if events == [] {
      InitialIsValid<H>();
    } else {
      EveryRunIsValid(events[..|events| - 1]);
      StepKeeps(After(events[..|events| - 1]), events[|events| - 1]);
    }
  }

  lemma InitialIsValid<H>()
    ensures Initial<H>().Valid()
  {}

  /** One event passes one moment, and stamps exactly the handler it gives a place. */
  lemma StepStamps<H>(s: System<H>, e: Event<H>)
    ensures var s' := Step(s, e);
            && s'.tables.clock == s.tables.clock + 1
            && s'.tables.since == if Stamps(s, e, e.h) then s.tables.since[e.h := s.tables.clock] else s.tables.since
  {
    hide RemoveOne, Tables.Known, System.Update;
    if e.h in s.all {
      var now := s.all[e.h];
      match e
      case Create(_) =>
      case SetEnabled(h, enabled) => UpdateStamps(s, h, now.(target := now.target.(enabled := enabled)));
      case SetTarget(h, target) => UpdateStamps(s, h, now.(target := now.target.(target := target)));
      case Reload(h) => UpdateStamps(s, h, now.(complete := true));
      case Destroy(h) => UpdateStamps(s, h, now.(target := now.target.(enabled := false)));
    }
  }

  lemma UpdateStamps<H>(s: System<H>, h: H, changed: Handler)
    requires h in s.all
    ensures var s' := s.(all := s.all[h := changed]).Update(h);
            && s'.tables.clock == s.tables.clock + 1
            && s'.tables.since == if changed.complete && changed.target.enabled && changed.target.target != ""
                                  then s.tables.since[h := s.tables.clock] else s.tables.since
  {
    hide RemoveOne, Tables.Known;
  }

  /** A handler's stamp is the time it was last given a place. */
  lemma {:induction false} StampIsPlacedAt<H>(events: seq<Event<H>>, h: H)
    ensures After(events).tables.clock == |events|
    ensures h in After(events).tables.since <==> PlacedAt(events, h) >= 0
    ensures h in After(events).tables.since ==> After(events).tables.since[h] == PlacedAt(events, h)
  {
    hide Step, Places, Stamps;
    if events != [] {
      var init, last := events[..|events| - 1], events[|events| - 1];
      StampIsPlacedAt(init, h);
      StepStamps(After(init), last);
      PlacesIsStamps(init, last, h);
      StampsItsOwn(After(init), last, h);
    }
  }

  lemma StampsItsOwn<H>(s: System<H>, e: Event<H>, h: H)
    ensures Stamps(s, e, h) ==> e.h == h
  {}

  /**
    After every run the handler found for a target is, of all that by the events exist, are
    complete, enabled and have that target, the one that was given its place first; none is
    found exactly if there are none.
   */
  lemma FindsLongestRegistered<H>(events: seq<Event<H>>, t: string)
    ensures var s := After(events);
            && (t !in s.tables.handlers <==> forall h :: !Serves(events, h, t))
            && (t in s.tables.handlers ==>
                  && Serves(events, s.tables.handlers[t], t)
                  && forall h :: Serves(events, h, t) ==>
                       0 <= PlacedAt(events, s.tables.handlers[t]) <= PlacedAt(events, h))
  {
    hide After, PlacedAt, InOrder, System.ValidBut, Serves, Tables.Known;
    var s := After(events);
    EveryRunIsValid(events);
    InUse(s, t);
    forall h ensures Serves(events, h, t) <==> h in s.tables.Known(t) {
      ServesIsKnown(events, h, t);
    }
    if t in s.tables.handlers {
      var found := s.tables.handlers[t];
      assert found in s.tables.Known(t);
      StampIsPlacedAt(events, found);
      forall h | Serves(events, h, t)
        ensures 0 <= PlacedAt(events, found) <= PlacedAt(events, h)
      {
        StampIsPlacedAt(events, h);
        FirstIsOldest(s.tables.Known(t), s.tables.since, h);
      }
    }
  }

  lemma InUse<H>(s: System<H>, t: string)
    requires s.Valid()
    ensures InOrder(s.tables.Known(t), s.tables.since)
    ensures if s.tables.Known(t) == [] then t !in s.tables.handlers
            else t in s.tables.handlers && s.tables.handlers[t] == s.tables.Known(t)[0]
  {
    hide InOrder;
    assert s.tables.Sound(t);
  }

  lemma FirstIsOldest<H>(list: seq<H>, since: map<H, nat>, h: H)
    requires InOrder(list, since) && h in list
    ensures list[0] in since && h in since && since[list[0]] <= since[h]
  {
    var i :| 0 <= i < |list| && list[i] == h;
  }

  lemma ServesIsKnown<H>(events: seq<Event<H>>, h: H, t: string)
    ensures Serves(events, h, t) <==> h in After(events).tables.Known(t)
  {
    hide After, InOrder, Tables.Sound, Tables.Known, Exists, TargetOf, EnabledIn, CompleteIn;
    var s := After(events);
    EveryRunIsValid(events);
    HandlersAreAsAsked(events, h);
    if h in s.all {
      assert s.Listed(h, t);
    } else {
      assert h in s.tables.Known(t) ==> h in s.all;
    }
  }
}
