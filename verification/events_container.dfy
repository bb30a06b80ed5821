/** The events list panel of the dashboard: the per-row selection map (`rowState`)
    with its select-all, single-toggle, query and resolve operations, and the
    builders that turn a filter choice into a filter-language string. */
module EventsContainer {
  import opened Wrappers
  import opened Strings

  /** An event id, as found at `edge.node.id`. */
  type Id = string

  ghost predicate Distinct(ids: seq<Id>) {
    forall i, j :: 0 <= i < j < |ids| ==> ids[i] != ids[j]
  }

  /** `rowState` seen as a JavaScript object: `keys` lists its own properties,
      each once, in the order they were first assigned. */
  ghost predicate WellFormed(keys: seq<Id>, rowState: map<Id, bool>) {
    Distinct(keys) && forall k :: k in rowState <==> k in keys
  }

  /** `Boolean(rowState[id])`: an absent id reads as not selected. */
  predicate Truthy(rowState: map<Id, bool>, id: Id) {
    id in rowState && rowState[id]
  }

  /** The ids whose row is selected. */
  ghost function TrueIds(rowState: map<Id, bool>): set<Id> {
    set k | k in rowState && rowState[k]
  }

  /** `filter(rowState, Boolean)`: the truthy values, in property order. */
  function SelectedEvents(keys: seq<Id>, rowState: map<Id, bool>): (selected: seq<bool>)
    requires forall k :: k in keys ==> k in rowState
    ensures |selected| <= |keys|
    ensures forall i :: 0 <= i < |selected| ==> selected[i]
  {
    if keys == [] then []
    else
      assert forall k :: k in keys[1..] ==> k in keys;
      (if rowState[keys[0]] then [true] else []) + SelectedEvents(keys[1..], rowState)
  }

  /** `selectedEvents().length > 0` */
  predicate EventsSelected(keys: seq<Id>, rowState: map<Id, bool>)
    requires forall k :: k in keys ==> k in rowState
  {
    |SelectedEvents(keys, rowState)| > 0
  }

  /** The edge count equals the number of properties of `rowState` and every
      property is truthy; which ids the properties are is not looked at. */
  predicate AllEventsSelected(edgeCount: nat, keys: seq<Id>, rowState: map<Id, bool>) {
    edgeCount == |keys| && forall k :: k in rowState ==> rowState[k]
  }

  lemma {:induction false} DistinctCard(s: seq<Id>)
    requires Distinct(s)
    ensures |set x | x in s| == |s|
  {
    if s != [] {
      DistinctCard(s[1..]);
      assert (set x | x in s) == {s[0]} + (set x | x in s[1..]);
      assert s[0] !in s[1..];
    }
  }

  lemma {:induction false} SelectedAmong(keys: seq<Id>, rowState: map<Id, bool>)
    requires Distinct(keys)
    requires forall k :: k in keys ==> k in rowState
    ensures |SelectedEvents(keys, rowState)| == |set k | k in keys && Truthy(rowState, k)|
  {
    if keys != [] {
      assert forall k :: k in keys[1..] ==> k in keys;
      SelectedAmong(keys[1..], rowState);
      SelectedSetCons(keys, rowState);
    }
  }

  lemma SelectedSetCons(keys: seq<Id>, rowState: map<Id, bool>)
    requires keys != [] && Distinct(keys)
    ensures var tail := set k | k in keys[1..] && Truthy(rowState, k);
            |set k | k in keys && Truthy(rowState, k)| == |tail| + (if Truthy(rowState, keys[0]) then 1 else 0)
  {
    var h := keys[0];
    var tail := set k | k in keys[1..] && Truthy(rowState, k);
    assert h !in keys[1..];
    if Truthy(rowState, h) {
      assert (set k | k in keys && Truthy(rowState, k)) == {h} + tail;
    } else {
      assert (set k | k in keys && Truthy(rowState, k)) == tail;
    }
  }

  /** The length of `selectedEvents()` is the number of selected ids. */
  lemma SelectedEventsCount(keys: seq<Id>, rowState: map<Id, bool>)
    requires WellFormed(keys, rowState)
    ensures |SelectedEvents(keys, rowState)| == |TrueIds(rowState)|
  {
    SelectedAmong(keys, rowState);
    assert (set k | k in keys && Truthy(rowState, k)) == TrueIds(rowState);
  }

  /** `eventsSelected()` holds exactly when some entry of `rowState` is true. */
  lemma EventsSelectedIffSomeTrue(keys: seq<Id>, rowState: map<Id, bool>)
    requires WellFormed(keys, rowState)
    ensures EventsSelected(keys, rowState) <==> AnyTrue(rowState)
  {
    SelectedEventsCount(keys, rowState);
    if k :| k in rowState && rowState[k] {
      assert k in TrueIds(rowState);
    }
  }

  /** `allEventsSelected(n)` holds exactly when `rowState` has n entries and
      `selectedEvents()` has length n. */
  lemma AllEventsSelectedIffCount(n: nat, keys: seq<Id>, rowState: map<Id, bool>)
    requires WellFormed(keys, rowState)
    ensures AllEventsSelected(n, keys, rowState) <==>
            n == |rowState| && |SelectedEvents(keys, rowState)| == n
  {
    SelectedEventsCount(keys, rowState);
    DistinctCard(keys);
    assert (set x | x in keys) == rowState.Keys;
    var t := TrueIds(rowState);
    assert t <= rowState.Keys;
    if |t| == |rowState| {
      assert |rowState.Keys - t| == 0;
      forall k | k in rowState ensures rowState[k] {
        assert k !in rowState.Keys - t;
      }
    }
    if forall k :: k in rowState ==> rowState[k] {
      assert t == rowState.Keys;
    }
  }

  /** One single-row toggle: `rowState[id] = !rowState[id]`. */
  function Flip(rowState: map<Id, bool>, id: Id): (r: map<Id, bool>)
    ensures r.Keys == rowState.Keys + {id}
    ensures Truthy(r, id) == !Truthy(rowState, id)
    ensures forall k :: k != id ==> Truthy(r, k) == Truthy(rowState, k)
  {
    rowState[id := !Truthy(rowState, id)]
  }

  /** Toggling the same row twice restores what every row reads as. */
  lemma FlipTwice(rowState: map<Id, bool>, id: Id, k: Id)
    ensures Truthy(Flip(Flip(rowState, id), id), k) == Truthy(rowState, k)
  {
  }

  /** The map after the completions of the resolve requests for `done`, in that
      order, each setting its own key to false. */
  function Completed(rowState: map<Id, bool>, done: seq<Id>): map<Id, bool>
    decreases |done|
  {
    if done == [] then rowState else Completed(rowState[done[0] := false], done[1..])
  }

  /** A completion only clears its own key: rows whose request never completes
      keep their flag, rows whose request completed read as unselected, and no
      key is added beyond those completed. */
  lemma {:induction false} CompletedEffect(rowState: map<Id, bool>, done: seq<Id>, k: Id)
    ensures Completed(rowState, done).Keys == rowState.Keys + set d | d in done
    ensures k !in done ==> Truthy(Completed(rowState, done), k) == Truthy(rowState, k)
    ensures k in done ==> !Truthy(Completed(rowState, done), k)
    decreases |done|
  {
    if done != [] {
      CompletedEffect(rowState[done[0] := false], done[1..], k);
      assert (set d | d in done) == {done[0]} + set d | d in done[1..];
      if k == done[0] && k !in done[1..] {
        assert Truthy(Completed(rowState, done), k) == Truthy(rowState[done[0] := false], k);
      }
    }
  }

  /** Once every request issued by `resolve` has completed, nothing is selected. */
  lemma ResolvedClearsSelection(rowState: map<Id, bool>, done: seq<Id>)
    requires forall k :: Truthy(rowState, k) ==> k in done
    ensures forall k :: !Truthy(Completed(rowState, done), k)
  {
    forall k {
      CompletedEffect(rowState, done, k);
    }
  }

  /** The map after the header checkbox: every listed id holds `value`, every
      other entry is as it was. */
  function SelectAllState(rowState: map<Id, bool>, edgeIds: seq<Id>, value: bool): (r: map<Id, bool>)
    ensures forall id :: id in r <==> id in rowState || id in edgeIds
    ensures forall id :: id in edgeIds ==> r[id] == value
    ensures forall id :: id in rowState && id !in edgeIds ==> r[id] == rowState[id]
  {
    map k | k in rowState.Keys + (set id | id in edgeIds) :: if k in edgeIds then value else rowState[k]
  }

  /** Assigning one more listed id is one more step of the header checkbox. */
  lemma SelectAllStep(rowState: map<Id, bool>, edgeIds: seq<Id>, i: nat, value: bool)
    requires i < |edgeIds|
    ensures SelectAllState(rowState, edgeIds[..i + 1], value) ==
            SelectAllState(rowState, edgeIds[..i], value)[edgeIds[i] := value]
  {
    assert edgeIds[..i + 1] == edgeIds[..i] + [edgeIds[i]];
  }

  /** Pressing the header checkbox twice over the same non-empty list when
      nothing is selected: the first press selects every listed id, the second
      clears them again. */
  lemma SelectAllTwice(rowState: map<Id, bool>, edgeIds: seq<Id>)
    requires edgeIds != [] && !AnyTrue(rowState)
    ensures var once := SelectAllState(rowState, edgeIds, !AnyTrue(rowState));
            var twice := SelectAllState(once, edgeIds, !AnyTrue(once));
            (forall id :: id in edgeIds ==> once[id]) &&
            (forall id :: id in edgeIds ==> !twice[id])
  {
    var once := SelectAllState(rowState, edgeIds, !AnyTrue(rowState));
    assert once[edgeIds[0]];
  }

  /** A true entry for an id that is no longer listed makes the header checkbox
      clear every listed id, and it survives, so every later press clears too. */
  lemma StaleEntryForcesClear(rowState: map<Id, bool>, edgeIds: seq<Id>, stale: Id)
    requires stale in rowState && rowState[stale] && stale !in edgeIds
    ensures var after := SelectAllState(rowState, edgeIds, !AnyTrue(rowState));
            (forall id :: id in edgeIds ==> !after[id]) && after[stale] && AnyTrue(after)
  {
    var after := SelectAllState(rowState, edgeIds, !AnyTrue(rowState));
    assert after[stale];
  }

  ghost predicate AnyTrue(rowState: map<Id, bool>) {
    exists k :: k in rowState && rowState[k]
  }

  /** The dashboard component. Its `rowState` is the only state that these
      operations touch; the event edges are props and come in as parameters. */
  class Container {
    var keys: seq<Id>
    var rowState: map<Id, bool>

    ghost predicate Valid()
      reads this
    {
      WellFormed(keys, rowState)
    }

    constructor ()
      ensures Valid() && keys == [] && rowState == map[]
    {
      keys := [];
      rowState := map[];
    }

    /** `Object.assign(rowState, {[id]: value})`: an existing property keeps its
        place, a new one is appended. */
    method Assign(id: Id, value: bool)
      requires Valid()
      modifies this
      ensures Valid()
      ensures rowState == old(rowState)[id := value]
      ensures keys == if id in old(rowState) then old(keys) else old(keys) + [id]
    {
      if id !in rowState {
        keys := keys + [id];
      }
      rowState := rowState[id := value];
    }

    /** Header checkbox: every listed id gets `!eventsSelected()` as evaluated
        before the click; ids not listed keep their entry, stale ones included. */
    method SelectAll(edgeIds: seq<Id>)
      requires Valid()
      modifies this
      ensures Valid()
      ensures rowState == SelectAllState(old(rowState), edgeIds, !EventsSelected(old(keys), old(rowState)))
      ensures old(keys) <= keys
    {
      var newState := !EventsSelected(keys, rowState);
      ghost var before := rowState;
      var i := 0;
      while i < |edgeIds|
        invariant 0 <= i <= |edgeIds|
        invariant Valid()
        invariant rowState == SelectAllState(before, edgeIds[..i], newState)
        invariant old(keys) <= keys
      {
        SelectAllStep(before, edgeIds, i, newState);
        Assign(edgeIds[i], newState);
        i := i + 1;
      }
      assert edgeIds[..i] == edgeIds;
    }

    /** Row checkbox: flips that one row, an absent row counting as unselected. */
    method SelectCheckbox(id: Id)
      requires Valid()
      modifies this
      ensures Valid()
      ensures rowState == Flip(old(rowState), id)
      ensures keys == if id in old(rowState) then old(keys) else old(keys) + [id]
    {
      Assign(id, !Truthy(rowState, id));
    }

    /** The ids for which `resolve` issues a request: those whose entry is true, each once. */
    method Resolve() returns (requested: seq<Id>)
      requires Valid()
      ensures forall k :: k in requested <==> k in rowState && rowState[k]
      ensures Distinct(requested)
      ensures |requested| == |SelectedEvents(keys, rowState)|
    {
      requested := [];
      var i := 0;
      while i < |keys|
        invariant 0 <= i <= |keys|
        invariant forall k :: k in requested <==> k in keys[..i] && rowState[k]
        invariant Distinct(requested)
      {
        var key := keys[i];
        assert key !in keys[..i];
        if rowState[key] {
          requested := requested + [key];
        }
        assert keys[..i + 1] == keys[..i] + [key];
        i := i + 1;
      }
      assert keys[..i] == keys;
      DistinctCard(requested);
      SelectedEventsCount(keys, rowState);
      assert (set x | x in requested) == TrueIds(rowState);
    }

    /** The completion callback of the resolve request for `key`. */
    method CompleteResolve(key: Id)
      requires Valid()
      modifies this
      ensures Valid()
      ensures rowState == old(rowState)[key := false]
      ensures keys == if key in old(rowState) then old(keys) else old(keys) + [key]
    {
      Assign(key, false);
    }
  }

  /** A call of the query-change callback: which query parameter, and its new value. */
  datatype QueryChange = QueryChange(param: string, value: string)

  /** What the status menu hands over: a list of status codes, or a ready-made
      filter expression such as `HasCheck && IsIncident`. */
  datatype StatusChoice = Statuses(codes: seq<int>) | Expression(text: string)

  predicate IsPrefix(p: string, s: string) {
    |p| <= |s| && s[..|p|] == p
  }

  /** The operand `v` of a filter `<field>=='v'`, or None when the text has another shape. */
  function QuotedOperand(filter: string, field: string): Option<string> {
    var opening := field + "=='";
    if |filter| > |opening| && IsPrefix(opening, filter) && filter[|filter| - 1] == '\''
    then Some(filter[|opening|..|filter| - 1])
    else None
  }

  lemma QuotedOperandOf(field: string, v: string)
    ensures QuotedOperand(field + "=='" + v + "'", field) == Some(v)
  {
    var opening := field + "=='";
    var filter := opening + v + "'";
    assert filter[..|opening|] == opening;
    assert filter[|opening|..|filter| - 1] == v;
  }

  /** Entity menu: an equality filter on the entity id, the name inserted as is. */
  function RequeryEntity(name: string): (q: QueryChange)
    ensures q.param == "filter"
    ensures QuotedOperand(q.value, "Entity.ID") == Some(name)
  {
    QuotedOperandOf("Entity.ID", name);
    QueryChange("filter", "Entity.ID=='" + name + "'")
  }

  /** Check menu: an equality filter on the check name, the name inserted as is. */
  function RequeryCheck(name: string): (q: QueryChange)
    ensures q.param == "filter"
    ensures QuotedOperand(q.value, "Check.Name") == Some(name)
  {
    QuotedOperandOf("Check.Name", name);
    QueryChange("filter", "Check.Name=='" + name + "'")
  }

  const StatusEquals := "Check.Status=="
  const StatusIn := "Check.Status IN ("

  function Rendered(codes: seq<int>): (texts: seq<string>)
    ensures |texts| == |codes|
    ensures forall i :: 0 <= i < |codes| ==> texts[i] == IntToString(codes[i])
  {
    seq(|codes|, i requires 0 <= i < |codes| => IntToString(codes[i]))
  }

  function ParseInts(texts: seq<string>): Option<seq<int>> {
    if texts == [] then Some([])
    else if !CanonicalInt(texts[0]) then None
    else match ParseInts(texts[1..])
      case None => None
      case Some(rest) => Some([ParseInt(texts[0])] + rest)
  }

  /** Reads the status codes back out of a status filter. */
  function ParseStatusFilter(s: string): Option<seq<int>> {
    if IsPrefix(StatusEquals, s) then
      (if CanonicalInt(s[|StatusEquals|..]) then Some([ParseInt(s[|StatusEquals|..])]) else None)
    else if IsPrefix(StatusIn, s) && |s| > |StatusIn| && s[|s| - 1] == ')' then
      var inner := s[|StatusIn|..|s| - 1];
      if inner == "" then Some([]) else ParseInts(Split(inner, ','))
    else None
  }

  /** Status menu: one code gives an equality, any other number of codes
      (none included) a membership test, an expression passes through. */
  function RequeryStatus(choice: StatusChoice): (q: QueryChange)
    ensures q.param == "filter"
    ensures choice.Expression? ==> q.value == choice.text
    ensures choice.Statuses? ==> ParseStatusFilter(q.value) == Some(choice.codes)
    ensures choice.Statuses? ==>
              (IsPrefix(StatusEquals, q.value) <==> |choice.codes| == 1) &&
              (IsPrefix(StatusIn, q.value) <==> |choice.codes| != 1)
  {
    match choice
    case Expression(text) => QueryChange("filter", text)
    case Statuses(codes) =>
      if |codes| == 1 then
        var q := QueryChange("filter", StatusEquals + IntToString(codes[0]));
        StatusEqualsParses(codes[0]);
        assert codes == [codes[0]];
        q
      else
        var q := QueryChange("filter", StatusIn + Join(Rendered(codes), ',') + ")");
        StatusInParses(codes);
        q
  }

  /** Reading the codes back pins the text: a filter that parses to some codes is
      the one rendering of them in its form (no leading zeros, no "-0", no spaces). */
  lemma StatusFilterCanonical(s: string, codes: seq<int>)
    requires ParseStatusFilter(s) == Some(codes)
    ensures IsPrefix(StatusEquals, s) ==>
              |codes| == 1 && s == StatusEquals + IntToString(codes[0])
    ensures !IsPrefix(StatusEquals, s) ==>
              s == StatusIn + Join(Rendered(codes), ',') + ")"
  {
    if IsPrefix(StatusEquals, s) {
      CanonicalIntRoundTrip(s[|StatusEquals|..]);
      assert s == s[..|StatusEquals|] + s[|StatusEquals|..];
    } else {
      var inner := s[|StatusIn|..|s| - 1];
      if inner == "" {
        assert codes == [];
        assert Join(Rendered(codes), ',') == "";
      } else {
        ParseIntsCanonical(Split(inner, ','), codes);
        assert Split(inner, ',') == Rendered(codes);
      }
      assert s == s[..|StatusIn|] + inner + [s[|s| - 1]];
    }
  }

  /** Texts that parse are the renderings of the codes they parse to. */
  lemma {:induction false} ParseIntsCanonical(texts: seq<string>, codes: seq<int>)
    requires ParseInts(texts) == Some(codes)
    ensures |texts| == |codes|
    ensures forall i :: 0 <= i < |texts| ==> texts[i] == IntToString(codes[i])
    decreases |texts|
  {
    if texts != [] {
      var rest := ParseInts(texts[1..]).value;
      ParseIntsCanonical(texts[1..], rest);
      CanonicalIntRoundTrip(texts[0]);
      assert codes == [ParseInt(texts[0])] + rest;
    }
  }

  lemma StatusEqualsParses(code: int)
    ensures var s := StatusEquals + IntToString(code);
            ParseStatusFilter(s) == Some([code]) && !IsPrefix(StatusIn, s)
  {
    var s := StatusEquals + IntToString(code);
    assert s[..|StatusEquals|] == StatusEquals;
    assert s[|StatusEquals|..] == IntToString(code);
    IntToStringRoundTrip(code);
    assert s[12] == '=';
  }

  lemma StatusInParses(codes: seq<int>)
    requires |codes| != 1
    ensures var s := StatusIn + Join(Rendered(codes), ',') + ")";
            ParseStatusFilter(s) == Some(codes) && !IsPrefix(StatusEquals, s)
  {
    var inner := Join(Rendered(codes), ',');
    ParseStatusInShape(inner);
    if codes != [] {
      JoinRenderedNonEmpty(codes);
      RenderedNoComma(codes);
      SplitJoin(Rendered(codes), ',');
      ParseRendered(codes);
    }
  }

  /** A membership filter is read back by splitting what lies between the parentheses. */
  lemma ParseStatusInShape(inner: string)
    ensures var s := StatusIn + inner + ")";
            && ParseStatusFilter(s) == (if inner == "" then Some([]) else ParseInts(Split(inner, ',')))
            && !IsPrefix(StatusEquals, s)
  {
    var s := StatusIn + inner + ")";
    assert s[12] == ' ';
    assert s[..|StatusIn|] == StatusIn;
    assert s[|StatusIn|..|s| - 1] == inner;
  }

  lemma RenderedNoComma(codes: seq<int>)
    ensures forall i :: 0 <= i < |codes| ==> ',' !in Rendered(codes)[i]
  {
    var texts := Rendered(codes);
    forall i | 0 <= i < |texts| ensures ',' !in texts[i] {
      assert forall j :: 0 <= j < |texts[i]| ==> IsDigit(texts[i][j]) || texts[i][j] == '-';
    }
  }

  lemma JoinRenderedNonEmpty(codes: seq<int>)
    requires codes != []
    ensures Join(Rendered(codes), ',') != ""
  {
    var texts := Rendered(codes);
    if |texts| > 1 {
      assert Join(texts, ',')[0] == texts[0][0];
    }
  }

  lemma {:induction false} ParseRendered(codes: seq<int>)
    ensures ParseInts(Rendered(codes)) == Some(codes)
  {
    if codes != [] {
      IntToStringRoundTrip(codes[0]);
      assert Rendered(codes)[1..] == Rendered(codes[1..]);
      ParseRendered(codes[1..]);
      assert [codes[0]] + codes[1..] == codes;
    }
  }

  /** The menu choices the component offers, with the filter each one sends. */
  lemma StatusFilterExamples()
    ensures RequeryStatus(Statuses([2])).value == "Check.Status==2"
    ensures RequeryStatus(Statuses([1, 2])).value == "Check.Status IN (1,2)"
    ensures RequeryStatus(Statuses([])).value == "Check.Status IN ()"
    ensures RequeryStatus(Expression("HasCheck && IsIncident")).value == "HasCheck && IsIncident"
  {
    RenderedExamples();
  }

  lemma RenderedExamples()
    ensures IntToString(2) == "2"
    ensures Join(Rendered([1, 2]), ',') == "1,2"
    ensures Join(Rendered([]), ',') == ""
  {
    assert IntToString(1) == "1";
    assert Rendered([1, 2]) == ["1", "2"];
    assert Rendered([]) == [];
  }

  /** Sort menu: the chosen key goes out unchanged as the `order` parameter. */
  function RequerySort(key: string): (q: QueryChange)
    ensures q.param == "order" && q.value == key
  {
    QueryChange("order", key)
  }

  /** The check menu lists the checks' names in order, then `keepalive`. */
  function CheckNames(checkEdgeNames: seq<string>): (names: seq<string>)
    ensures |names| == |checkEdgeNames| + 1
    ensures names[..|checkEdgeNames|] == checkEdgeNames
    ensures names[|checkEdgeNames|] == "keepalive"
  {
    checkEdgeNames + ["keepalive"]
  }
}
