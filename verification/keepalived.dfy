/** Keepalived, the backend daemon that watches agent keepalives: its start-up
    checks and defaults, the rebuilding of its monitor registry from the store,
    the get-or-create step run for each keepalive message, and the sweep that
    drops stopped monitors. Goroutines, locks, channels and timers are not
    modelled; each step below is one uninterrupted update of the registry. */
module Keepalived {
  import opened Wrappers
  import opened Events

  /** `DefaultHandlerCount` */
  const DefaultHandlerCount: int := 10

  const NoMessageBus: string := "no message bus found"
  const NoKeepaliveStore: string := "no keepalive store found"

  /** Where a monitor came from: the factory `Start` installs, or one injected
      beforehand (as tests do), told apart by a name. */
  datatype MonitorFactory = DefaultFactory | InjectedFactory(name: string)

  /** How a monitor's timer was set: `Start()` on a new keepalive, or
      `Reset(t)` to the time of a keepalive recorded as failing. */
  datatype Timer = StartedNow | ResetAt(time: int)

  /** A `KeepaliveMonitor`, opaque but for the entity it watches and whether it
      has stopped (the stopping itself happens inside the monitor). */
  datatype Monitor = Monitor(entity: Entity, factory: MonitorFactory, stopped: bool, timer: Timer)

  function NewMonitor(factory: MonitorFactory, entity: Entity, timer: Timer): (m: Monitor)
    ensures !m.stopped && m.entity == entity && m.timer == timer
  {
    Monitor(entity, factory, false, timer)
  }

  /** The message bus, reduced to the outcome of subscribing to the keepalive topic. */
  datatype MessageBus = MessageBus(subscribeError: Option<string>)

  /** An entry of `GetFailingKeepalives`. */
  datatype FailingKeepalive = FailingKeepalive(entityID: string, organization: string, environment: string, time: int)

  /** The key under which `GetEventByEntityCheck` looks up an entity's keepalive event. */
  datatype EventKey = EventKey(organization: string, environment: string, entityID: string, checkName: string)

  /** The store as the daemon reads it: the failing keepalives (or the error
      returned for them), and for each event key either the stored event or
      the error its lookup returns; a key with no entry has no event. */
  datatype Store = Store(failing: Result<seq<FailingKeepalive>, string>, events: map<EventKey, Result<Event, string>>)

  function KeepaliveEventKey(k: FailingKeepalive): EventKey {
    EventKey(k.organization, k.environment, k.entityID, "keepalive")
  }

  /** `GetEventByEntityCheck(ctx(org, env), entityID, "keepalive")` */
  function KeepaliveEvent(store: Store, k: FailingKeepalive): Result<Option<Event>, string> {
    var key := KeepaliveEventKey(k);
    if key !in store.events then Success(None)
    else match store.events[key]
      case Success(e) => Success(Some(e))
      case Failure(err) => Failure(err)
  }

  /** Stored keepalive events carry a check (the code reads its status without a
      nil check), and a failing one carries the entity its new monitor watches. */
  ghost predicate WellFormedStore(store: Store) {
    forall key :: key in store.events && store.events[key].Success? ==>
      var e := store.events[key].value;
      e.check.Some? && (e.check.value.status != 0 ==> e.entity.Some?)
  }

  /** A failing keepalive whose event is still there and still failing gets a monitor. */
  predicate Registers(store: Store, k: FailingKeepalive)
    requires WellFormedStore(store)
  {
    var r := KeepaliveEvent(store, k);
    r.Success? && r.value.Some? && r.value.value.check.value.status != 0
  }

  /** The monitor a registering keepalive gets: one for the stored event's entity,
      reset to the keepalive's time. */
  function Recreated(store: Store, factory: MonitorFactory, k: FailingKeepalive): Monitor
    requires WellFormedStore(store) && Registers(store, k)
  {
    NewMonitor(factory, KeepaliveEvent(store, k).value.value.entity.value, ResetAt(k.time))
  }

  /** The registry after one failing keepalive whose lookup succeeded. */
  function Register(monitors: map<string, Monitor>, store: Store, factory: MonitorFactory, k: FailingKeepalive): map<string, Monitor>
    requires WellFormedStore(store)
  {
    if Registers(store, k) then monitors[k.entityID := Recreated(store, factory, k)] else monitors
  }

  datatype InitOutcome = InitOutcome(monitors: map<string, Monitor>, err: Option<string>)

  /** The registry after handling the failing keepalives `ks` in order, starting
      from `monitors`, and the first lookup error, at which the walk stops. */
  function InitFold(monitors: map<string, Monitor>, store: Store, factory: MonitorFactory, ks: seq<FailingKeepalive>): InitOutcome
    requires WellFormedStore(store)
    decreases |ks|
  {
    if ks == [] then InitOutcome(monitors, None)
    else match KeepaliveEvent(store, ks[0])
      case Failure(err) => InitOutcome(monitors, Some(err))
      case Success(_) => InitFold(Register(monitors, store, factory, ks[0]), store, factory, ks[1..])
  }

  /** The lookup of some keepalive fails. */
  predicate SomeLookupFails(store: Store, ks: seq<FailingKeepalive>) {
    exists i :: 0 <= i < |ks| && KeepaliveEvent(store, ks[i]).Failure?
  }

  lemma SomeLookupFailsCons(store: Store, ks: seq<FailingKeepalive>)
    requires ks != []
    ensures SomeLookupFails(store, ks) <==> KeepaliveEvent(store, ks[0]).Failure? || SomeLookupFails(store, ks[1..])
  {
    if SomeLookupFails(store, ks) && KeepaliveEvent(store, ks[0]).Success? {
      var i :| 0 <= i < |ks| && KeepaliveEvent(store, ks[i]).Failure?;
      assert ks[1..][i - 1] == ks[i];
    }
    if SomeLookupFails(store, ks[1..]) {
      var i :| 0 <= i < |ks[1..]| && KeepaliveEvent(store, ks[1..][i]).Failure?;
      assert ks[i + 1] == ks[1..][i];
    }
  }

  /** The lookups of `ks` succeed up to position `n`, which fails with `err`. */
  predicate FirstFailureAt(store: Store, ks: seq<FailingKeepalive>, n: nat, err: string) {
    n < |ks| && KeepaliveEvent(store, ks[n]) == Failure(err) &&
    forall j :: 0 <= j < n ==> KeepaliveEvent(store, ks[j]).Success?
  }

  lemma FirstFailureLater(store: Store, ks: seq<FailingKeepalive>, n: nat, err: string)
    requires ks != [] && KeepaliveEvent(store, ks[0]).Success? && FirstFailureAt(store, ks[1..], n, err)
    ensures FirstFailureAt(store, ks, n + 1, err)
  {
    assert ks[n + 1] == ks[1..][n];
    forall j | 0 < j < n + 1 ensures KeepaliveEvent(store, ks[j]).Success? {
      assert ks[j] == ks[1..][j - 1];
    }
  }

  /** The walk ends in an error exactly when some lookup fails, and the error is
      that of the first failing lookup. */
  lemma {:induction false} InitFoldError(monitors: map<string, Monitor>, store: Store, factory: MonitorFactory, ks: seq<FailingKeepalive>)
    requires WellFormedStore(store)
    ensures var r := InitFold(monitors, store, factory, ks);
            (r.err.Some? <==> SomeLookupFails(store, ks)) &&
            (r.err.Some? ==> exists n :: FirstFailureAt(store, ks, n, r.err.value))
    decreases |ks|
  {
    if ks != [] {
      SomeLookupFailsCons(store, ks);
      if KeepaliveEvent(store, ks[0]).Failure? {
        assert FirstFailureAt(store, ks, 0, InitFold(monitors, store, factory, ks).err.value);
      } else {
        var next := Register(monitors, store, factory, ks[0]);
        InitFoldError(next, store, factory, ks[1..]);
        var r := InitFold(next, store, factory, ks[1..]);
        if r.err.Some? {
          var n :| FirstFailureAt(store, ks[1..], n, r.err.value);
          FirstFailureLater(store, ks, n, r.err.value);
        }
      }
    } else {
      assert !SomeLookupFails(store, ks);
    }
  }

  /** When no lookup fails, the registry keeps what it had and gains a monitor
      for exactly the entity IDs of the keepalives that register one. */
  lemma {:induction false} InitFoldKeys(monitors: map<string, Monitor>, store: Store, factory: MonitorFactory, ks: seq<FailingKeepalive>)
    requires WellFormedStore(store)
    requires !SomeLookupFails(store, ks)
    ensures forall id :: id in InitFold(monitors, store, factory, ks).monitors <==>
              id in monitors || exists i :: 0 <= i < |ks| && ks[i].entityID == id && Registers(store, ks[i])
    decreases |ks|
  {
    if ks != [] {
      var k := ks[0];
      SomeLookupFailsCons(store, ks);
      var next := Register(monitors, store, factory, k);
      InitFoldKeys(next, store, factory, ks[1..]);
      forall id ensures id in InitFold(monitors, store, factory, ks).monitors <==>
                        id in monitors || exists i :: 0 <= i < |ks| && ks[i].entityID == id && Registers(store, ks[i])
      {
        RegisteredAmong(store, ks, id);
      }
    }
  }

  lemma RegisteredAmong(store: Store, ks: seq<FailingKeepalive>, id: string)
    requires WellFormedStore(store) && ks != []
    ensures (exists i :: 0 <= i < |ks| && ks[i].entityID == id && Registers(store, ks[i])) <==>
            (ks[0].entityID == id && Registers(store, ks[0])) ||
            exists i :: 0 <= i < |ks[1..]| && ks[1..][i].entityID == id && Registers(store, ks[1..][i])
  {
    if exists i :: 0 <= i < |ks[1..]| && ks[1..][i].entityID == id && Registers(store, ks[1..][i]) {
      var i :| 0 <= i < |ks[1..]| && ks[1..][i].entityID == id && Registers(store, ks[1..][i]);
      assert ks[i + 1] == ks[1..][i];
    }
    if exists i :: 0 <= i < |ks| && ks[i].entityID == id && Registers(store, ks[i]) {
      var i :| 0 <= i < |ks| && ks[i].entityID == id && Registers(store, ks[i]);
      if i > 0 {
        assert ks[1..][i - 1] == ks[i];
      }
    }
  }

  predicate RegistersFor(store: Store, k: FailingKeepalive, id: string)
    requires WellFormedStore(store)
  {
    k.entityID == id && Registers(store, k)
  }

  /** Position `i` is the last keepalive of `ks` that registers a monitor for `id`. */
  predicate LastRegistration(store: Store, ks: seq<FailingKeepalive>, id: string, i: int)
    requires WellFormedStore(store)
  {
    0 <= i < |ks| && RegistersFor(store, ks[i], id) &&
    forall j :: i < j < |ks| ==> !RegistersFor(store, ks[j], id)
  }

  /** When no lookup fails, the monitor under an entity ID is the one made for the
      last keepalive that registers it (a later duplicate replaces an earlier one),
      and an ID no keepalive registers keeps the monitor it had. */
  lemma {:induction false} InitFoldMonitors(monitors: map<string, Monitor>, store: Store, factory: MonitorFactory,
                                            ks: seq<FailingKeepalive>, id: string)
    requires WellFormedStore(store)
    requires !SomeLookupFails(store, ks)
    ensures forall i :: LastRegistration(store, ks, id, i) ==>
              var r := InitFold(monitors, store, factory, ks).monitors;
              id in r && r[id] == Recreated(store, factory, ks[i])
    ensures (forall j :: 0 <= j < |ks| ==> !RegistersFor(store, ks[j], id)) && id in monitors ==>
              var r := InitFold(monitors, store, factory, ks).monitors;
              id in r && r[id] == monitors[id]
    decreases |ks|
  {
    if ks != [] {
      SomeLookupFailsCons(store, ks);
      var next := Register(monitors, store, factory, ks[0]);
      var tail := ks[1..];
      InitFoldMonitors(next, store, factory, tail, id);
      assert InitFold(monitors, store, factory, ks) == InitFold(next, store, factory, tail);
      var r := InitFold(next, store, factory, tail).monitors;
      forall i | LastRegistration(store, ks, id, i)
        ensures id in r && r[id] == Recreated(store, factory, ks[i])
      {
        if i == 0 {
          forall j | 0 <= j < |tail| ensures !RegistersFor(store, tail[j], id) {
            assert tail[j] == ks[j + 1];
          }
        } else {
          assert tail[i - 1] == ks[i];
          forall j | i - 1 < j < |tail| ensures !RegistersFor(store, tail[j], id) {
            assert tail[j] == ks[j + 1];
          }
          assert LastRegistration(store, tail, id, i - 1);
        }
      }
      if (forall j :: 0 <= j < |ks| ==> !RegistersFor(store, ks[j], id)) && id in monitors {
        forall j | 0 <= j < |tail| ensures !RegistersFor(store, tail[j], id) {
          assert tail[j] == ks[j + 1];
        }
        assert !RegistersFor(store, ks[0], id);
      }
    }
  }

  /** Every monitor the walk leaves in the registry is running, given that those it
      started from were. */
  lemma {:induction false} InitFoldMonitorsRun(monitors: map<string, Monitor>, store: Store, factory: MonitorFactory, ks: seq<FailingKeepalive>)
    requires WellFormedStore(store)
    requires forall id :: id in monitors ==> !monitors[id].stopped
    ensures forall id :: id in InitFold(monitors, store, factory, ks).monitors ==>
              !InitFold(monitors, store, factory, ks).monitors[id].stopped
    decreases |ks|
  {
    if ks != [] && KeepaliveEvent(store, ks[0]).Success? {
      InitFoldMonitorsRun(Register(monitors, store, factory, ks[0]), store, factory, ks[1..]);
    }
  }

  /** A stored keepalive event that passes is skipped before its entity is read,
      so it may lack one: the store is admitted, and the rebuild leaves the
      registry as it was. */
  lemma PassingEventWithoutEntitySkipped(monitors: map<string, Monitor>, factory: MonitorFactory,
                                         k: FailingKeepalive, e: Event)
    requires e.entity.None? && e.check.Some? && e.check.value.status == 0
    ensures var st := Store(Success([k]), map[KeepaliveEventKey(k) := Success(e)]);
            WellFormedStore(st) && InitFold(monitors, st, factory, [k]) == InitOutcome(monitors, None)
  {
    var st := Store(Success([k]), map[KeepaliveEventKey(k) := Success(e)]);
    assert !Registers(st, k);
    assert [k][1..] == [];
  }

  /** What arrives on the keepalive channel. */
  datatype Message = EventMessage(event: Event) | OtherMessage

  /** An event message whose entity is present; a nil entity would be dereferenced. */
  predicate Handleable(msg: Message) {
    msg.EventMessage? ==> msg.event.entity.Some?
  }

  /** The registry after one message of `processKeepalives`. */
  function Handle(monitors: map<string, Monitor>, factory: MonitorFactory, msg: Message): (r: map<string, Monitor>)
    requires Handleable(msg)
    ensures !msg.EventMessage? ==> r == monitors
    ensures msg.EventMessage? && !ValidEntity(msg.event.entity.value) ==> r == monitors
    ensures msg.EventMessage? && ValidEntity(msg.event.entity.value) ==>
              var en := msg.event.entity.value;
              && r.Keys == monitors.Keys + {en.id}
              && (forall id :: id in monitors && id != en.id ==> r[id] == monitors[id])
              && !r[en.id].stopped
              && (en.id in monitors && !monitors[en.id].stopped ==> r[en.id] == monitors[en.id])
              && (en.id !in monitors || monitors[en.id].stopped ==> r[en.id] == NewMonitor(factory, en, StartedNow))
  {
    if !msg.EventMessage? then monitors
    else
      var en := msg.event.entity.value;
      if !ValidEntity(en) then monitors
      else if en.id in monitors && !monitors[en.id].stopped then monitors
      else monitors[en.id := NewMonitor(factory, en, StartedNow)]
  }

  /** A second copy of the same keepalive finds the monitor the first one left running. */
  lemma HandleTwice(monitors: map<string, Monitor>, factory: MonitorFactory, msg: Message)
    requires Handleable(msg)
    ensures Handle(Handle(monitors, factory, msg), factory, msg) == Handle(monitors, factory, msg)
  {
    var once := Handle(monitors, factory, msg);
    if msg.EventMessage? && ValidEntity(msg.event.entity.value) {
      var twice := Handle(once, factory, msg);
      assert twice.Keys == once.Keys;
    }
  }

  /** The registry without its stopped monitors. */
  function Running(monitors: map<string, Monitor>): (r: map<string, Monitor>)
    ensures forall id :: id in r <==> id in monitors && !monitors[id].stopped
    ensures forall id :: id in r ==> r[id] == monitors[id]
  {
    map id | id in monitors && !monitors[id].stopped :: monitors[id]
  }

  /** Sweeping twice removes nothing more. */
  lemma SweepTwice(monitors: map<string, Monitor>)
    ensures Running(Running(monitors)) == Running(monitors)
  {
  }

  /** The monitor a valid keepalive touched survives the next sweep. */
  lemma HandledSurvivesSweep(monitors: map<string, Monitor>, factory: MonitorFactory, msg: Message)
    requires Handleable(msg) && msg.EventMessage? && ValidEntity(msg.event.entity.value)
    ensures msg.event.entity.value.id in Running(Handle(monitors, factory, msg))
  {
  }

  class Keepalived {
    var messageBus: Option<MessageBus>
    var store: Option<Store>
    var handlerCount: int
    var monitorFactory: Option<MonitorFactory>
    /** Whether the daemon has subscribed to the keepalive topic. */
    var subscribed: bool
    var monitors: map<string, Monitor>

    /** A daemon configured with the given collaborators, not yet started. */
    constructor(bus: Option<MessageBus>, store: Option<Store>, handlerCount: int, factory: Option<MonitorFactory>)
      ensures this.messageBus == bus && this.store == store
      ensures this.handlerCount == handlerCount && this.monitorFactory == factory
      ensures !subscribed && monitors == map[]
    {
      this.messageBus := bus;
      this.store := store;
      this.handlerCount := handlerCount;
      this.monitorFactory := factory;
      this.subscribed := false;
      this.monitors := map[];
    }

    /** `Start`: the two missing-collaborator errors come before anything is
        touched; then a factory is installed if none was given, the keepalive
        topic is subscribed to, a zero handler count becomes the default, and
        the registry is rebuilt from the store. */
    method Start() returns (err: Option<string>)
      requires store.Some? ==> WellFormedStore(store.value)
      modifies this
      ensures messageBus == old(messageBus) && store == old(store)
      ensures old(messageBus).None? ==> err == Some(NoMessageBus) && unchanged(this)
      ensures old(messageBus).Some? && old(store).None? ==> err == Some(NoKeepaliveStore) && unchanged(this)
      ensures old(messageBus).Some? && old(store).Some? ==>
                && monitorFactory == Some(if old(monitorFactory).Some? then old(monitorFactory).value else DefaultFactory)
                && (old(messageBus).value.subscribeError.Some? ==>
                      err == old(messageBus).value.subscribeError && subscribed == old(subscribed) &&
                      handlerCount == old(handlerCount) && monitors == old(monitors))
                && (old(messageBus).value.subscribeError.None? ==>
                      && subscribed
                      && handlerCount == (if old(handlerCount) == 0 then DefaultHandlerCount else old(handlerCount))
                      && (old(store).value.failing.Failure? ==>
                            monitors == map[] && err == Some(old(store).value.failing.error))
                      && (old(store).value.failing.Success? ==>
                            var outcome := InitFold(map[], old(store).value, monitorFactory.value, old(store).value.failing.value);
                            monitors == outcome.monitors && err == outcome.err))
    {
      if messageBus.None? {
        return Some(NoMessageBus);
      }
      if store.None? {
        return Some(NoKeepaliveStore);
      }
      if monitorFactory.None? {
        monitorFactory := Some(DefaultFactory);
      }
      if messageBus.value.subscribeError.Some? {
        return messageBus.value.subscribeError;
      }
      subscribed := true;
      if handlerCount == 0 {
        handlerCount := DefaultHandlerCount;
      }
      monitors := map[];
      err := InitFromStore();
    }

    /** `initFromStore`: a monitor, reset to the keepalive's time, for each
        failing keepalive whose event is still there and still failing; the
        first store error ends the walk and is returned. */
    method InitFromStore() returns (err: Option<string>)
      requires store.Some? && WellFormedStore(store.value) && monitorFactory.Some?
      modifies this`monitors
      ensures store.value.failing.Failure? ==> err == Some(store.value.failing.error) && monitors == old(monitors)
      ensures store.value.failing.Success? ==>
                var outcome := InitFold(old(monitors), store.value, monitorFactory.value, store.value.failing.value);
                monitors == outcome.monitors && err == outcome.err
    {
      var st := store.value;
      var factory := monitorFactory.value;
      if st.failing.Failure? {
        return Some(st.failing.error);
      }
      var keepalives := st.failing.value;
      var i := 0;
      while i < |keepalives|
        invariant 0 <= i <= |keepalives|
        invariant InitFold(monitors, st, factory, keepalives[i..]) == InitFold(old(monitors), st, factory, keepalives)
      {
        var k := keepalives[i];
        assert keepalives[i..][1..] == keepalives[i + 1..];
        var event := KeepaliveEvent(st, k);
        if event.Failure? {
          return Some(event.error);
        }
        if event.value.Some? && event.value.value.check.value.status != 0 {
          monitors := monitors[k.entityID := NewMonitor(factory, event.value.value.entity.value, ResetAt(k.time))];
        }
        i := i + 1;
      }
      return None;
    }

    /** One message of `processKeepalives`. */
    method ProcessKeepalive(msg: Message)
      requires Handleable(msg) && monitorFactory.Some?
      modifies this`monitors
      ensures monitors == Handle(old(monitors), monitorFactory.value, msg)
    {
      if !msg.EventMessage? {
        return;
      }
      var entity := msg.event.entity.value;
      if !ValidEntity(entity) {
        return;
      }
      if entity.id !in monitors || monitors[entity.id].stopped {
        monitors := monitors[entity.id := NewMonitor(monitorFactory.value, entity, StartedNow)];
      }
    }

    /** One pass of the monitor sweeper: every stopped monitor is deleted. */
    method Sweep()
      modifies this`monitors
      ensures monitors == Running(old(monitors))
    {
      var pending := monitors.Keys;
      while pending != {}
        invariant pending <= old(monitors).Keys
        invariant monitors == map id | id in old(monitors) && (id in pending || !old(monitors)[id].stopped) :: old(monitors)[id]
        decreases pending
      {
        var key :| key in pending;
        if monitors[key].stopped {
          monitors := monitors - {key};
        }
        pending := pending - {key};
      }
    }
  }
}
