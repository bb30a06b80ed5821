/** Sensu events as far as their table tests pin them down: the incident,
    resolution, silencing and metrics predicates, validation, field lookup by
    name, and the two orderings `EventsBySeverity` and `EventsByTimestamp`
    applied with an in-place sort. */
module Events {
  import opened Wrappers

  datatype Entity = Entity(id: string)

  datatype CheckHistory = CheckHistory(status: nat)

  /** A check result; `status` is the check's exit status (a `uint32`). */
  datatype Check = Check(name: string, status: nat, history: seq<CheckHistory>, silenced: seq<string>)

  datatype Hook = Hook(name: string)

  /** The metrics attached to an event; their points play no part here. */
  datatype Metrics = Metrics(pointCount: nat)

  /** Optional parts are Go's nil pointers. */
  datatype Event = Event(
    timestamp: int,
    entity: Option<Entity>,
    check: Option<Check>,
    hooks: seq<Hook>,
    metrics: Option<Metrics>)

  /** `FixtureEvent(entityID, checkName)`: a valid event whose check is OK,
      stamped with the clock time `now`. */
  function FixtureEvent(entityID: string, checkName: string, now: int): Event {
    Event(now, Some(Entity(entityID)), Some(Check(checkName, 0, [], [])), [], None)
  }

  predicate HasCheck(e: Event) {
    e.check.Some?
  }

  predicate IsIncident(e: Event) {
    HasCheck(e) && e.check.value.status != 0
  }

  /** OK now, after a last recorded status that was not. */
  predicate IsResolution(e: Event) {
    && HasCheck(e)
    && |e.check.value.history| > 0
    && e.check.value.history[|e.check.value.history| - 1].status != 0
    && e.check.value.status == 0
  }

  predicate IsSilenced(e: Event) {
    HasCheck(e) && |e.check.value.silenced| > 0
  }

  predicate HasMetrics(e: Event) {
    e.metrics.Some?
  }

  /** A resolution is never an incident, and an incident is never resolved. */
  lemma ResolutionIsNotIncident(e: Event)
    ensures IsResolution(e) ==> !IsIncident(e)
    ensures IsIncident(e) ==> !IsResolution(e)
  {
  }

  lemma IncidentTable()
    ensures !IsIncident(Event(0, None, Some(Check("", 0, [], [])), [], None))
    ensures IsIncident(Event(0, None, Some(Check("", 1, [], [])), [], None))
  {
  }

  lemma ResolutionTable()
    ensures !IsResolution(Event(0, None, Some(Check("", 0, [CheckHistory(0)], [])), [], None))
    ensures !IsResolution(Event(0, None, Some(Check("", 0, [CheckHistory(1), CheckHistory(0)], [])), [], None))
    ensures IsResolution(Event(0, None, Some(Check("", 0, [CheckHistory(0), CheckHistory(1)], [])), [], None))
    ensures !IsResolution(Event(0, None, Some(Check("", 1, [CheckHistory(0), CheckHistory(2)], [])), [], None))
  {
  }

  lemma SilencedTable(now: int)
    ensures !IsSilenced(FixtureEvent("entity1", "check1", now).(check := Some(Check("check1", 0, [], []))))
    ensures IsSilenced(FixtureEvent("entity1", "check1", now).(check := Some(Check("check1", 0, [], ["entity1"]))))
  {
  }

  lemma MetricsTable()
    ensures !HasMetrics(Event(0, None, None, [], None))
    ensures HasMetrics(Event(0, None, None, [], Some(Metrics(0))))
  {
  }

  predicate ValidEntity(en: Entity) {
    en.id != ""
  }

  datatype ValidationError = MissingEntity | InvalidEntity | InvalidCheck | InvalidHook(index: nat)

  /** The first hook without a name. */
  function FirstUnnamedHook(hooks: seq<Hook>): (r: Option<nat>)
    ensures r.None? <==> forall i :: 0 <= i < |hooks| ==> hooks[i].name != ""
    ensures r.Some? ==> r.value < |hooks| && hooks[r.value].name == "" &&
                        forall i :: 0 <= i < r.value ==> hooks[i].name != ""
    decreases |hooks|
  {
    if hooks == [] then None
    else if hooks[0].name == "" then Some(0)
    else
      match FirstUnnamedHook(hooks[1..])
      case None => None
      case Some(i) => Some(i + 1)
  }

  /** `Event.Validate`: the entity, then the check if there is one, then each hook. */
  function Validate(e: Event): (r: Result<(), ValidationError>)
    ensures r.Success? <==>
              && e.entity.Some? && ValidEntity(e.entity.value)
              && (HasCheck(e) ==> e.check.value.name != "")
              && forall i :: 0 <= i < |e.hooks| ==> e.hooks[i].name != ""
    ensures r == Failure(MissingEntity) <==> e.entity.None?
    ensures r.Failure? && r.error.InvalidHook? ==> r.error.index < |e.hooks| && e.hooks[r.error.index].name == ""
  {
    if e.entity.None? then Failure(MissingEntity)
    else if !ValidEntity(e.entity.value) then Failure(InvalidEntity)
    else if HasCheck(e) && e.check.value.name == "" then Failure(InvalidCheck)
    else match FirstUnnamedHook(e.hooks)
      case Some(i) => Failure(InvalidHook(i))
      case None => Success(())
  }

  lemma ValidateTable(now: int)
    ensures Validate(FixtureEvent("entity", "check", now)).Success?
    ensures Validate(FixtureEvent("entity", "", now)).Failure?
    ensures Validate(FixtureEvent("", "check", now)).Failure?
    ensures Validate(FixtureEvent("entity", "check", now).(hooks := [Hook("")])).Failure?
    ensures Validate(FixtureEvent("entity", "check", now).(hooks := [Hook("hook")])).Success?
  {
  }

  /** What `Get` hands back for a field name. */
  datatype FieldValue =
    | TimestampValue(t: int)
    | EntityValue(en: Option<Entity>)
    | CheckValue(c: Option<Check>)
    | MetricsValue(m: Option<Metrics>)

  /** `Event.Get(name)`: the named field, or an error for a name that is not one. */
  function Get(e: Event, name: string): (r: Result<FieldValue, string>)
    ensures r.Success? <==> name in {"Timestamp", "Entity", "Check", "Metrics"}
    ensures r == Success(TimestampValue(e.timestamp)) <==> name == "Timestamp"
    ensures r == Success(EntityValue(e.entity)) <==> name == "Entity"
    ensures r == Success(CheckValue(e.check)) <==> name == "Check"
    ensures r == Success(MetricsValue(e.metrics)) <==> name == "Metrics"
  {
    if name == "Timestamp" then Success(TimestampValue(e.timestamp))
    else if name == "Entity" then Success(EntityValue(e.entity))
    else if name == "Check" then Success(CheckValue(e.check))
    else if name == "Metrics" then Success(MetricsValue(e.metrics))
    else Failure("no field named " + name)
  }

  lemma GetTable(now: int)
    ensures Get(FixtureEvent("entity", "check", now), "Timestamp") == Success(TimestampValue(now))
    ensures Get(FixtureEvent("entity", "check", now), "Non Existence").Failure?
  {
  }

  /** Severity precedence of a check status: 1, then 2, then 3 and any other
      non-zero status, then 0 (OK). */
  function SeverityRank(status: nat): (r: nat)
    ensures r <= 3
    ensures r == 3 <==> status == 0
    ensures r == 0 <==> status == 1
    ensures r == 1 <==> status == 2
  {
    if status == 1 then 0
    else if status == 2 then 1
    else if status == 0 then 3
    else 2
  }

  /** The two `sort.Interface` orderings. */
  datatype Ordering = BySeverity | ByTimestamp(descending: bool)

  /** The `Less` of each ordering. By severity: an event without a check is
      never less, and precedes nothing but is preceded by every event with one;
      equal severities put the newer event first. */
  predicate Less(o: Ordering, a: Event, b: Event) {
    match o
    case BySeverity =>
      if !HasCheck(a) then false
      else if !HasCheck(b) then true
      else if SeverityRank(a.check.value.status) == SeverityRank(b.check.value.status) then a.timestamp > b.timestamp
      else SeverityRank(a.check.value.status) < SeverityRank(b.check.value.status)
    case ByTimestamp(descending) =>
      if descending then a.timestamp > b.timestamp else a.timestamp < b.timestamp
  }

  /** Both orderings are strict: irreflexive and transitive. */
  lemma LessIrreflexive(o: Ordering, a: Event)
    ensures !Less(o, a, a)
  {
  }

  lemma LessTransitive(o: Ordering, a: Event, b: Event, c: Event)
    requires Less(o, a, b) && Less(o, b, c)
    ensures Less(o, a, c)
  {
  }

  /** Nothing later in `s` is less than anything earlier. */
  ghost predicate Sorted(o: Ordering, s: seq<Event>) {
    forall i, j :: 0 <= i < j < |s| ==> !Less(o, s[j], s[i])
  }

  /** Any two different events of `s` are ordered one way or the other. */
  ghost predicate Connected(o: Ordering, s: seq<Event>) {
    forall i, j :: 0 <= i < |s| && 0 <= j < |s| && s[i] != s[j] ==> Less(o, s[i], s[j]) || Less(o, s[j], s[i])
  }

  /** The position of a least event of `a[from..]`. */
  method IndexOfLeast(a: array<Event>, o: Ordering, from: nat) returns (m: nat)
    requires from < a.Length
    ensures from <= m < a.Length
    ensures forall k :: from <= k < a.Length ==> !Less(o, a[k], a[m])
  {
    m := from;
    var j := from + 1;
    while j < a.Length
      invariant from <= m < j <= a.Length
      invariant forall k :: from <= k < j ==> !Less(o, a[k], a[m])
    {
      if Less(o, a[j], a[m]) {
        forall k | from <= k < j ensures !Less(o, a[k], a[j]) {
          if Less(o, a[k], a[j]) {
            LessTransitive(o, a[k], a[j], a[m]);
          }
        }
        m := j;
      }
      j := j + 1;
    }
  }

  /** Everything before `i` is not greater than anything from `i` on. */
  ghost predicate SplitAt(o: Ordering, s: seq<Event>, i: nat) {
    forall x, y :: 0 <= x < i <= y < |s| ==> !Less(o, s[y], s[x])
  }

  /** Moving a least event of `s[i..]` to position `i` extends the ordered prefix by one. */
  lemma SelectionStep(o: Ordering, s: seq<Event>, i: nat, m: nat)
    requires i <= m < |s|
    requires Sorted(o, s[..i]) && SplitAt(o, s, i)
    requires forall k :: i <= k < |s| ==> !Less(o, s[k], s[m])
    ensures Sorted(o, s[i := s[m]][m := s[i]][..i + 1])
    ensures SplitAt(o, s[i := s[m]][m := s[i]], i + 1)
  {
    var t := s[i := s[m]][m := s[i]];
    var p := t[..i + 1];
    forall x, y | 0 <= x < y < |p| ensures !Less(o, p[y], p[x]) {
      if y < i {
        assert s[..i][x] == p[x] && s[..i][y] == p[y];
      }
    }
    forall x, y | 0 <= x < i + 1 <= y < |t| ensures !Less(o, t[y], t[x]) {
      if y == m {
        assert t[y] == s[i];
      }
    }
  }

  /** Swapping two positions keeps the same events. */
  lemma SwapPermutes(s: seq<Event>, i: nat, m: nat)
    requires i < |s| && m < |s|
    ensures multiset(s[i := s[m]][m := s[i]]) == multiset(s)
  {
  }

  /** `sort.Sort(EventsBySeverity(es))` and `sort.Sort(EventsByTimestamp(es, desc))`:
      reorders the events in place into an ordered permutation (by selection,
      one least remaining event at a time). */
  method Sort(a: array<Event>, o: Ordering)
    modifies a
    ensures Sorted(o, a[..])
    ensures multiset(a[..]) == multiset(old(a[..]))
  {
    var i := 0;
    while i < a.Length
      invariant 0 <= i <= a.Length
      invariant Sorted(o, a[..i])
      invariant SplitAt(o, a[..], i)
      invariant multiset(a[..]) == multiset(old(a[..]))
    {
      var m := IndexOfLeast(a, o, i);
      ghost var s := a[..];
      SelectionStep(o, s, i, m);
      SwapPermutes(s, i, m);
      a[i], a[m] := a[m], a[i];
      assert a[..] == s[i := s[m]][m := s[i]];
      i := i + 1;
    }
    assert a[..i] == a[..];
  }

  /** Of two ordered permutations of pairwise-ordered events, neither starts
      with something the other's first event is less than. */
  lemma SameHead(o: Ordering, s: seq<Event>, t: seq<Event>)
    requires |s| > 0 && multiset(s) == multiset(t)
    requires Sorted(o, s) && Sorted(o, t)
    requires Connected(o, t)
    ensures |t| > 0 && s[0] == t[0]
  {
    assert |multiset(t)| == |s|;
    assert s[0] in multiset(t) && t[0] in multiset(s);
    var k :| 0 <= k < |t| && t[k] == s[0];
    var k' :| 0 <= k' < |s| && s[k'] == t[0];
    assert !Less(o, s[0], t[0]) by {
      if k > 0 {
        assert !Less(o, t[k], t[0]);
      }
    }
    assert !Less(o, t[0], s[0]) by {
      if k' > 0 {
        assert !Less(o, s[k'], s[0]);
      }
    }
  }

  lemma SortedTail(o: Ordering, t: seq<Event>)
    requires |t| > 0 && Sorted(o, t)
    ensures Sorted(o, t[1..])
  {
    var u := t[1..];
    forall i, j | 0 <= i < j < |u| ensures !Less(o, u[j], u[i]) {
      assert u[i] == t[i + 1] && u[j] == t[j + 1];
    }
  }

  lemma ConnectedTail(o: Ordering, t: seq<Event>)
    requires |t| > 0 && Connected(o, t)
    ensures Connected(o, t[1..])
  {
    var u := t[1..];
    forall i, j | 0 <= i < |u| && 0 <= j < |u| && u[i] != u[j]
      ensures Less(o, u[i], u[j]) || Less(o, u[j], u[i])
    {
      assert u[i] == t[i + 1] && u[j] == t[j + 1];
    }
  }

  lemma MultisetTail(s: seq<Event>, t: seq<Event>)
    requires |s| > 0 && |t| > 0 && s[0] == t[0] && multiset(s) == multiset(t)
    ensures multiset(s[1..]) == multiset(t[1..])
  {
    assert s == [s[0]] + s[1..] && t == [t[0]] + t[1..];
    assert multiset(s) == multiset([s[0]]) + multiset(s[1..]);
    assert multiset(t) == multiset([t[0]]) + multiset(t[1..]);
    assert multiset(s[1..]) == multiset(s) - multiset([s[0]]);
  }

  /** An ordered permutation of events that are pairwise ordered is unique:
      whatever algorithm `sort.Sort` uses, its result is fixed. */
  lemma {:induction false} SortedPermutationUnique(o: Ordering, s: seq<Event>, t: seq<Event>)
    requires multiset(s) == multiset(t)
    requires Sorted(o, s) && Sorted(o, t)
    requires Connected(o, t)
    ensures s == t
    decreases |s|
  {
    if |s| > 0 {
      SameHead(o, s, t);
      MultisetTail(s, t);
      SortedTail(o, s);
      SortedTail(o, t);
      ConnectedTail(o, t);
      SortedPermutationUnique(o, s[1..], t[1..]);
      assert s == [s[0]] + s[1..] && t == [t[0]] + t[1..];
    } else {
      assert |multiset(t)| == 0;
    }
  }

  /** Each event is less than or equal to the next. */
  ghost predicate Chain(o: Ordering, s: seq<Event>) {
    forall i :: 0 <= i < |s| - 1 ==> s[i] == s[i + 1] || Less(o, s[i], s[i + 1])
  }

  /** A chain is ordered, and any two different events in it are ordered. */
  lemma {:induction false} ChainOrdered(o: Ordering, s: seq<Event>)
    requires Chain(o, s)
    ensures Sorted(o, s) && Connected(o, s)
    ensures forall j :: 0 < j < |s| ==> s[0] == s[j] || Less(o, s[0], s[j])
    decreases |s|
  {
    if |s| > 1 {
      var t := s[1..];
      assert Chain(o, t) by {
        forall i | 0 <= i < |t| - 1 ensures t[i] == t[i + 1] || Less(o, t[i], t[i + 1]) {
          assert t[i] == s[i + 1] && t[i + 1] == s[i + 2];
        }
      }
      ChainOrdered(o, t);
      forall j | 0 < j < |s| ensures s[0] == s[j] || Less(o, s[0], s[j]) {
        if j > 1 && Less(o, s[0], s[1]) && s[1] != s[j] {
          assert Less(o, t[0], t[j - 1]);
          LessTransitive(o, s[0], s[1], s[j]);
        } else if j > 1 {
          assert t[0] == t[j - 1] || Less(o, t[0], t[j - 1]);
        }
      }
      forall x, y | 0 <= x < y < |s| ensures !Less(o, s[y], s[x]) {
        if x > 0 {
          assert s[x] == t[x - 1] && s[y] == t[y - 1];
        } else if Less(o, s[0], s[y]) && Less(o, s[y], s[0]) {
          LessTransitive(o, s[0], s[y], s[0]);
        }
      }
      forall x, y | 0 <= x < |s| && 0 <= y < |s| && s[x] != s[y]
        ensures Less(o, s[x], s[y]) || Less(o, s[y], s[x])
      {
        if x > 0 && y > 0 {
          assert s[x] == t[x - 1] && s[y] == t[y - 1];
        }
      }
    }
  }

  /** An ordered permutation of a chain is that chain. */
  lemma SortedChainUnique(o: Ordering, r: seq<Event>, e: seq<Event>)
    requires multiset(r) == multiset(e)
    requires Sorted(o, r) && Chain(o, e)
    ensures r == e
  {
    ChainOrdered(o, e);
    SortedPermutationUnique(o, r, e);
  }

  /** In a severity-ordered list, events without a check come last; among events
      with one, severity never decreases, and equal severities go newest first. */
  lemma SeverityOrderOfSorted(s: seq<Event>, i: nat, j: nat)
    requires Sorted(BySeverity, s) && i < j < |s|
    ensures !HasCheck(s[i]) ==> !HasCheck(s[j])
    ensures HasCheck(s[i]) && HasCheck(s[j]) ==>
              && SeverityRank(s[i].check.value.status) <= SeverityRank(s[j].check.value.status)
              && (SeverityRank(s[i].check.value.status) == SeverityRank(s[j].check.value.status) ==>
                    s[i].timestamp >= s[j].timestamp)
  {
    assert !Less(BySeverity, s[j], s[i]);
  }

  /** In a timestamp-ordered list timestamps go up, or down when descending. */
  lemma TimestampOrderOfSorted(s: seq<Event>, descending: bool, i: nat, j: nat)
    requires Sorted(ByTimestamp(descending), s) && i < j < |s|
    ensures !descending ==> s[i].timestamp <= s[j].timestamp
    ensures descending ==> s[i].timestamp >= s[j].timestamp
  {
    assert !Less(ByTimestamp(descending), s[j], s[i]);
  }

  function StatusEvent(status: nat, now: int): Event {
    FixtureEvent("entity", "check", now).(check := Some(Check("check", status, [], [])))
  }

  /** The events of the severity test: `critical`, `warn`, `unknown` and `ok`
      stamped `now`, `okOlder` stamped 42, and `noCheck`. */
  function Critical(now: int): Event { StatusEvent(1, now) }
  function Warn(now: int): Event { StatusEvent(2, now) }
  function Unknown(now: int): Event { StatusEvent(3, now) }
  function Ok(now: int): Event { StatusEvent(0, now) }
  function OkOlder(): Event { FixtureEvent("entity", "check", 42) }
  function NoCheck(now: int): Event { FixtureEvent("entity", "check", now).(check := None) }

  lemma SeverityTableChain(now: int)
    requires now > 42
    ensures Chain(BySeverity, [Critical(now), Warn(now), Unknown(now), Ok(now), OkOlder(), NoCheck(now)])
  {
    var e := [Critical(now), Warn(now), Unknown(now), Ok(now), OkOlder(), NoCheck(now)];
    assert Less(BySeverity, e[0], e[1]) && Less(BySeverity, e[1], e[2]) && Less(BySeverity, e[2], e[3]);
    assert Less(BySeverity, e[3], e[4]) && Less(BySeverity, e[4], e[5]);
  }

  /** The severity test's input holds the same events as its expected order. */
  lemma SeverityPermutation(now: int)
    ensures multiset([Ok(now), Warn(now), Unknown(now), NoCheck(now), OkOlder(), Critical(now)]) ==
            multiset([Critical(now), Warn(now), Unknown(now), Ok(now), OkOlder(), NoCheck(now)])
  {
  }

  lemma SortsBySeverity(now: int, r: seq<Event>)
    requires now > 42
    requires multiset(r) == multiset([Ok(now), Warn(now), Unknown(now), NoCheck(now), OkOlder(), Critical(now)])
    requires Sorted(BySeverity, r)
    ensures r == [Critical(now), Warn(now), Unknown(now), Ok(now), OkOlder(), NoCheck(now)]
  {
    var e := [Critical(now), Warn(now), Unknown(now), Ok(now), OkOlder(), NoCheck(now)];
    SeverityPermutation(now);
    SeverityTableChain(now);
    SortedChainUnique(BySeverity, r, e);
  }

  lemma SeverityFallsBackToTimestamp(now: int, r: seq<Event>)
    requires now > 42
    requires multiset(r) == multiset([OkOlder(), Ok(now), OkOlder()])
    requires Sorted(BySeverity, r)
    ensures r == [Ok(now), OkOlder(), OkOlder()]
  {
    var e := [Ok(now), OkOlder(), OkOlder()];
    assert multiset(r) == multiset(e);
    assert Chain(BySeverity, e) by {
      assert Less(BySeverity, e[0], e[1]);
    }
    SortedChainUnique(BySeverity, r, e);
  }

  lemma NoCheckSortsLast(now: int, r: seq<Event>)
    requires multiset(r) == multiset([Critical(now), NoCheck(now), Ok(now)])
    requires Sorted(BySeverity, r)
    ensures r == [Critical(now), Ok(now), NoCheck(now)]
  {
    var e := [Critical(now), Ok(now), NoCheck(now)];
    assert multiset(r) == multiset(e);
    assert Chain(BySeverity, e) by {
      assert Less(BySeverity, e[0], e[1]) && Less(BySeverity, e[1], e[2]);
    }
    SortedChainUnique(BySeverity, r, e);
  }

  function Stamped(t: int): Event {
    Event(t, None, None, [], None)
  }

  /** Events whose timestamps step strictly in the ordering's direction form a chain. */
  lemma StampedChain(descending: bool, e: seq<Event>)
    requires forall i :: 0 <= i < |e| - 1 ==>
               if descending then e[i].timestamp > e[i + 1].timestamp else e[i].timestamp < e[i + 1].timestamp
    ensures Chain(ByTimestamp(descending), e)
  {
  }

  /** The timestamp test's input holds the same events as either sorted order. */
  lemma StampedAscendingPermutation()
    ensures multiset([Stamped(3), Stamped(0), Stamped(1), Stamped(2)]) ==
            multiset([Stamped(0), Stamped(1), Stamped(2), Stamped(3)])
  {
  }

  lemma StampedDescendingPermutation()
    ensures multiset([Stamped(3), Stamped(0), Stamped(1), Stamped(2)]) ==
            multiset([Stamped(3), Stamped(2), Stamped(1), Stamped(0)])
  {
  }

  lemma SortsAscending(r: seq<Event>)
    requires multiset(r) == multiset([Stamped(3), Stamped(0), Stamped(1), Stamped(2)])
    requires Sorted(ByTimestamp(false), r)
    ensures r == [Stamped(0), Stamped(1), Stamped(2), Stamped(3)]
  {
    var e := [Stamped(0), Stamped(1), Stamped(2), Stamped(3)];
    StampedAscendingPermutation();
    StampedChain(false, e);
    SortedChainUnique(ByTimestamp(false), r, e);
  }

  lemma SortsDescending(r: seq<Event>)
    requires multiset(r) == multiset([Stamped(3), Stamped(0), Stamped(1), Stamped(2)])
    requires Sorted(ByTimestamp(true), r)
    ensures r == [Stamped(3), Stamped(2), Stamped(1), Stamped(0)]
  {
    var e := [Stamped(3), Stamped(2), Stamped(1), Stamped(0)];
    StampedDescendingPermutation();
    StampedChain(true, e);
    SortedChainUnique(ByTimestamp(true), r, e);
  }
}
