# Sensu: dashboard selection and menus, extended attributes, events, keepalived

This project models five pieces of the Sensu monitoring system in Dafny and proves properties of each.

- **Events panel of the dashboard** (`events_container.dfy`, module `EventsContainer`).
  - The panel keeps `rowState`, a JavaScript object from event id to a selected flag.
  - The class `Container` holds that object as a map plus the order of its properties.
  - Its methods are the header checkbox (`SelectAll`), the row checkbox (`SelectCheckbox`), `Resolve` and the completion of each resolve request.
  - The pure functions are the aggregate queries (`SelectedEvents`, `EventsSelected`, `AllEventsSelected`).
  - The filter builders produce the filter-language strings `Entity.ID=='x'`, `Check.Name=='x'`, `Check.Status==2` and `Check.Status IN (1,2)`. Each is proved to parse back to its input.
- **Namespace switcher menu** (`namespace_selector_menu.dfy`, module `NamespaceSelectorMenu`).
  - The organizations are split into the current one and the others, keeping order.
  - Navigation targets have the form `/<org>/<env>/`.
  - The menu entries are built: the current organization's environments, a divider, then each other organization's environments, with one divider between each two other organizations and none after the last.
  - A missing current organization is an explicit error.
- **Extended-attribute helpers of dynamic types** (`dynamic_util.dfy`, module `DynamicUtil`).
  - Reading a struct field's JSON name from its tag.
  - Listing a decoded JSON object's members in key order.
  - Keeping only the members that are not struct fields.
  - Wrapping a value into nested objects along a key path.
  - JSON values are an abstract datatype.
- **Events** (`event.dfy`, module `Events`).
  - The predicates pinned down by the table tests in `types/event_test.go`: incident, resolution, silenced, has metrics.
  - Validation and field lookup by name.
  - The orderings `EventsBySeverity` and `EventsByTimestamp`, applied by an in-place sort of an array.
  - A uniqueness lemma (an ordered permutation of pairwise-ordered events is unique) turns each sort test into a lemma about any sorting algorithm's result.
- **Keepalived** (`keepalived.dfy`, module `Keepalived`).
  - The class `Keepalived` holds the daemon's collaborators, handler count, monitor factory and the `monitors` registry.
  - `Start` checks its preconditions and fills in defaults.
  - `InitFromStore` rebuilds the registry from the store.
  - `ProcessKeepalive` is the get-or-create step for one message.
  - `Sweep` removes stopped monitors.
  - Each method is proved against a pure function (`InitFold`, `Handle`, `Running`), and the properties are proved about that function.

Shared helpers are in `strings.dfy` (module `Strings`): decimal rendering and parsing of integers, splitting and joining on a one-character separator, and Go's byte-wise string order. `wrappers.dfy` (module `Wrappers`) defines `Option` and `Result`.

Two behaviours of the events panel are easy to misread:

- The header checkbox asks whether any row is selected. If some rows are, one press clears every listed row, even when others are still unselected (`dashboard/src/components/EventsContainer.js:100`).
- `allEventsSelected` compares the edge count with the number of all properties of `rowState`, false ones included (`dashboard/src/components/EventsContainer.js:122-123`), not with the number of true entries. The two agree whenever every entry is true.

## Model

| member | source | states |
|---|---|---|
| EventsContainer.SelectedEvents | dashboard/src/components/EventsContainer.js:116 | the truthy values of `rowState`, never more than its properties, each one true |
| EventsContainer.SelectedEventsCount | dashboard/src/components/EventsContainer.js:116 | `selectedEvents().length` equals the number of ids whose entry is true |
| EventsContainer.EventsSelectedIffSomeTrue | dashboard/src/components/EventsContainer.js:117 | `EventsSelected` models `eventsSelected()`; it holds exactly when some entry of `rowState` is true |
| EventsContainer.AllEventsSelectedIffCount | dashboard/src/components/EventsContainer.js:119-125 | `AllEventsSelected` models `allEventsSelected()`; it holds exactly when the edge count equals the number of properties and equals the number of selected events, whatever the ids are |
| EventsContainer.Flip | dashboard/src/components/EventsContainer.js:112 | a row toggle negates that row's truthiness, an absent row counting as false, and changes no other row |
| EventsContainer.FlipTwice | dashboard/src/components/EventsContainer.js:111-114 | toggling one row twice restores what every row reads as |
| EventsContainer.SelectAllState | dashboard/src/components/EventsContainer.js:102-106 | after select-all every listed id holds the new value; unlisted entries, stale ones included, keep theirs; the only keys added are listed ids |
| EventsContainer.SelectAllStep | dashboard/src/components/EventsContainer.js:104 | folding in one more id is one more `Object.assign` of that id |
| EventsContainer.SelectAllTwice | dashboard/src/components/EventsContainer.js:97-107 | from a state with nothing selected, the first press selects every listed id and the second clears them |
| EventsContainer.StaleEntryForcesClear | dashboard/src/components/EventsContainer.js:98-106 | a true entry for an unlisted id makes the press clear every listed id; that entry survives, so later presses clear too |
| EventsContainer.Container.constructor | dashboard/src/components/EventsContainer.js:91-94 | the panel starts with an empty `rowState` |
| EventsContainer.Container.Assign | dashboard/src/components/EventsContainer.js:104 | `Object.assign` of one property: the map gets the value, and a new key is appended to the property order |
| EventsContainer.Container.SelectAll | dashboard/src/components/EventsContainer.js:97-107 | the new `rowState` is the select-all state for `!eventsSelected()` taken before the click |
| EventsContainer.Container.SelectCheckbox | dashboard/src/components/EventsContainer.js:111-114 | the new `rowState` is the old one with that row toggled |
| EventsContainer.Container.Resolve | dashboard/src/components/EventsContainer.js:127-134 | requests go out for exactly the ids whose entry is true, each once; their number equals `selectedEvents().length` |
| EventsContainer.Container.CompleteResolve | dashboard/src/components/EventsContainer.js:136-139 | a completion sets only its own key to false |
| EventsContainer.CompletedEffect | dashboard/src/components/EventsContainer.js:134-141 | `Completed` folds the `onCompleted` callbacks over `rowState`; after any sequence of completions, completed ids read false, all other ids keep their flag, and no other key appears |
| EventsContainer.ResolvedClearsSelection | dashboard/src/components/EventsContainer.js:127-143 | once every issued request has completed, nothing is selected |
| EventsContainer.RequeryEntity | dashboard/src/components/EventsContainer.js:149-151 | the `filter` value is `Entity.ID=='v'`, and `v` is read back from it |
| EventsContainer.RequeryCheck | dashboard/src/components/EventsContainer.js:153-155 | the `filter` value is `Check.Name=='v'`, and `v` is read back from it |
| EventsContainer.RequeryStatus | dashboard/src/components/EventsContainer.js:157-168 | one code gives `Check.Status==<n>`; any other list gives `Check.Status IN (...)`; the codes are parsed back from either; a non-list passes through; the parameter is always `filter`. With `StatusFilterCanonical` this fixes the text |
| EventsContainer.StatusFilterCanonical | dashboard/src/components/EventsContainer.js:159-164 | a status filter that parses to some codes is exactly their rendering: `Check.Status==` and the code's canonical decimal, or `Check.Status IN (` and the canonical decimals joined by commas and `)`; leading zeros, `-0` and spaces are not read |
| EventsContainer.ParseIntsCanonical | dashboard/src/components/EventsContainer.js:162 | comma-separated texts that parse as codes are, one by one, the renderings of those codes |
| EventsContainer.StatusFilterExamples | dashboard/src/components/EventsContainer.js:157-168 | `[2]`, `[1,2]` and `[]` give `Check.Status==2`, `Check.Status IN (1,2)` and `Check.Status IN ()`; an expression passes through |
| EventsContainer.RequerySort | dashboard/src/components/EventsContainer.js:170-172 | the sort key goes out unchanged under `order` |
| EventsContainer.CheckNames | dashboard/src/components/EventsContainer.js:179-182 | the check names in order, then `keepalive` last |
| NamespaceSelectorMenu.Partition | dashboard/src/components/NamespaceSelectorMenu.js:38-43 | `OtherOrganizations` is its second part; the organizations named like the current namespace, then the others; both are order-keeping subsequences that together hold every organization once |
| NamespaceSelectorMenu.CurrentOrganization | dashboard/src/components/NamespaceSelectorMenu.js:42 | the first organization with the current name, or none exactly when no organization has it |
| NamespaceSelectorMenu.FirstMatch | dashboard/src/components/NamespaceSelectorMenu.js:38-42 | the head of the matching part is the first organization with the current name |
| NamespaceSelectorMenu.SameNameLaterDropped | dashboard/src/components/NamespaceSelectorMenu.js:42-43 | a later organization with the current name is in neither the current slot nor the others |
| NamespaceSelectorMenu.PartitionExample | dashboard/src/components/NamespaceSelectorMenu.js:38-43 | organizations a and b with current b give current b and others [a] |
| NamespaceSelectorMenu.NavigateTo | dashboard/src/components/NamespaceSelectorMenu.js:35-36 | the target is "", org, env and "" joined by `/`, whatever the names hold; when neither name contains `/`, splitting it on `/` gives back exactly those four parts |
| NamespaceSelectorMenu.Menu | dashboard/src/components/NamespaceSelectorMenu.js:47-80 | the menu fails exactly when no organization has the current name |
| NamespaceSelectorMenu.EnvironmentItems | dashboard/src/components/NamespaceSelectorMenu.js:47-59 | one item per environment, in order, each naming its organization and environment |
| NamespaceSelectorMenu.OtherGroupsContent | dashboard/src/components/NamespaceSelectorMenu.js:61-80 | `OtherGroups` builds the part after the first divider; it holds max(0, n-1) dividers and lists each organization's environments in order |
| NamespaceSelectorMenu.OtherGroupsJoined | dashboard/src/components/NamespaceSelectorMenu.js:61-80 | for n >= 1 others, the part after the first divider is their environment groups with one divider between neighbours |
| NamespaceSelectorMenu.OtherGroupsSplit | dashboard/src/components/NamespaceSelectorMenu.js:61-80 | for n >= 1 others, cutting that part at its dividers gives exactly each organization's environment items, in order |
| NamespaceSelectorMenu.MenuDividers | dashboard/src/components/NamespaceSelectorMenu.js:60-79 | the whole menu holds one divider after the current organization plus max(0, n-1) among the n others |
| NamespaceSelectorMenu.MenuGroups | dashboard/src/components/NamespaceSelectorMenu.js:47-80 | cut at its dividers, the menu is the current organization's environment items, then one group per other organization in order, or a single empty group when there are none |
| NamespaceSelectorMenu.MenuDestinations | dashboard/src/components/NamespaceSelectorMenu.js:47-78 | the menu's items are the current organization's environments, then each other organization's, each paired with its own organization |
| NamespaceSelectorMenu.MenuTargets | dashboard/src/components/NamespaceSelectorMenu.js:50-65 | every item navigates to the target of its own organization and environment |
| DynamicUtil.JsonFieldName | types/dynamic/util.go:197-211 | without a tag: the Go name and no omitempty; with one: the Go name or a non-empty comma-free JSON name |
| DynamicUtil.JsonFieldNameOfTag | types/dynamic/util.go:202-208 | a non-empty first tag part becomes the name, an empty one keeps the Go name; omitempty holds exactly when the second part is `omitempty`; later parts are ignored |
| DynamicUtil.JsonFieldNameOmitEmpty | types/dynamic/util.go:197-211 | `name,omitempty` gives (name, true) |
| DynamicUtil.JsonFieldNameOnlyOptions | types/dynamic/util.go:203-205 | `,omitempty` keeps the Go name and gives omitempty |
| DynamicUtil.JsonFieldNameOmitEmptyNotSecond | types/dynamic/util.go:206-208 | `name,string,omitempty` is not omitempty |
| DynamicUtil.InsertByName | types/dynamic/util.go:178-180 | inserting one member adds exactly that member |
| DynamicUtil.InsertKeepsAscending | types/dynamic/util.go:178-180 | inserting a new name into names in ascending order keeps them ascending |
| DynamicUtil.SortAnys | types/dynamic/util.go:173-182 | one member per map key, with that key's value, names strictly ascending |
| DynamicUtil.WithoutFields | types/dynamic/util.go:40-45 | the members kept are exactly those whose name is not a struct field |
| DynamicUtil.WithoutFieldsAscending | types/dynamic/util.go:40-54 | dropping the struct fields keeps the members in ascending order |
| DynamicUtil.ExtractExtendedAttributes | types/dynamic/util.go:25-63 | errors for a nil value, a non-struct kind and an undecodable message; otherwise nil when no extra key remains, else exactly the non-field keys, ascending, with their values |
| DynamicUtil.ExtractNonPathValues | types/dynamic/util.go:67-75 | every top-level member of an object, none of anything else; the path is not used |
| DynamicUtil.EnvelopeWithoutPath | types/dynamic/util.go:111-141 | with no path the envelope is just the top-level members |
| DynamicUtil.MakeEnvelopeResult | types/dynamic/util.go:111-141 | `MakeEnvelope` models `makeEnvelope`; the envelope keeps every top-level key, changes none but the path's first, and holds the value at the end of the path |
| DynamicUtil.PutThenLookup | types/dynamic/util.go:115-139 | `Put` models the walk and the final assignment; after the walk, the value is found at the path |
| DynamicUtil.PutFrame | types/dynamic/util.go:118-129 | whatever lies off the path is untouched, so siblings of every reused object survive |
| DynamicUtil.PutFreshStep | types/dynamic/util.go:119-124 | a step that held no object (missing, or another kind of value) becomes a fresh object whose only key is the next step |
| DynamicUtil.IsEmpty | types/dynamic/util.go:94-107 | empty means zero length (array, channel, map, slice, string) or nil (interface, pointer), and nothing else |
| Events.ResolutionIsNotIncident | types/event_test.go:74-159 | no event is both an incident and a resolution |
| Events.IncidentTable | types/event_test.go:74-103 | for `IsIncident`: status 0 is not an incident, status 1 is |
| Events.ResolutionTable | types/event_test.go:105-159 | for `IsResolution`: history [0] or [1,0] with status 0 is no resolution; [0,1] with status 0 is one; [0,2] with status 1 is not |
| Events.SilencedTable | types/event_test.go:161-187 | `IsSilenced` holds exactly when the silenced list is not empty |
| Events.MetricsTable | types/event_test.go:45-72 | `HasMetrics` holds exactly when metrics are present |
| Events.FirstUnnamedHook | types/event_test.go:30-33 | the first hook without a name, or none when all are named |
| Events.Validate | types/event_test.go:19-37 | valid exactly when the entity is present with an ID, a present check has a name, and every hook has a name |
| Events.ValidateTable | types/event_test.go:19-37 | the fixture is valid; an empty check name, entity ID or hook name makes it invalid; naming the hook makes it valid again |
| Events.Get | types/event_test.go:267-289 | Timestamp, Entity, Check and Metrics return that field; any other name is an error |
| Events.GetTable | types/event_test.go:267-289 | `Get("Timestamp")` returns the timestamp; `Get("Non Existence")` fails |
| Events.SeverityRank | types/event_test.go:189-211 | status 1 ranks first, 2 second, 3 and other non-zero statuses third, 0 last |
| Events.LessTransitive | types/event_test.go:189-265 | `Less` models the `Less` of `EventsBySeverity` and of `EventsByTimestamp`; each is transitive |
| Events.LessIrreflexive | types/event_test.go:189-265 | no event precedes itself in either ordering |
| Events.IndexOfLeast | types/event_test.go:227 | finds an event of the unsorted tail that no other event there precedes |
| Events.Sort | types/event_test.go:225-229 | `sort.Sort` leaves the array ordered and a permutation of what it held |
| Events.SortedPermutationUnique | types/event_test.go:225-229 | two ordered permutations of pairwise-ordered events are equal, so the tests' expectations fix the sort's result |
| Events.ChainOrdered | types/event_test.go:211 | an expected list whose neighbours are ordered is ordered, and any two different events in it are ordered |
| Events.SeverityOrderOfSorted | types/event_test.go:189-223 | in a severity-ordered list, events without a check come last; severity never decreases; equal severities go newest first |
| Events.TimestampOrderOfSorted | types/event_test.go:233-265 | timestamps ascend, or descend when the flag is set |
| Events.SortsBySeverity | types/event_test.go:208-212 | sorting ok, warn, unknown, noCheck, okOlder, critical gives critical, warn, unknown, ok, okOlder, noCheck |
| Events.SeverityFallsBackToTimestamp | types/event_test.go:213-217 | okOlder, ok, okOlder sorts to ok, okOlder, okOlder |
| Events.NoCheckSortsLast | types/event_test.go:218-222 | critical, noCheck, ok sorts to critical, ok, noCheck |
| Events.SortsAscending | types/event_test.go:245-250 | timestamps 3, 0, 1, 2 sort to 0, 1, 2, 3 |
| Events.SortsDescending | types/event_test.go:251-256 | descending they sort to 3, 2, 1, 0 |
| Keepalived.NewMonitor | backend/keepalived/keepalived.go:82-95 | a fresh monitor watches the given entity, is not stopped, and has its timer set as asked |
| Keepalived.InitFoldError | backend/keepalived/keepalived.go:154-160 | `InitFold` is the loop of `initFromStore` and `Register` one pass of its body; rebuilding fails exactly when some event lookup fails, with the first failing lookup's error |
| Keepalived.InitFoldKeys | backend/keepalived/keepalived.go:154-177 | without errors, the registry gains a monitor for exactly the entity IDs of failing keepalives whose event exists with a non-zero status |
| Keepalived.InitFoldMonitors | backend/keepalived/keepalived.go:154-177 | without errors, an entity ID holds the monitor made from the last keepalive that registers it: the factory's monitor for the stored event's entity, reset to that keepalive's time, so a later duplicate replaces an earlier one; an ID no keepalive registers keeps its monitor |
| Keepalived.PassingEventWithoutEntitySkipped | backend/keepalived/keepalived.go:162-170 | a stored passing keepalive event without an entity is admitted, and the rebuild skips it without touching the registry or reporting an error |
| Keepalived.InitFoldMonitorsRun | backend/keepalived/keepalived.go:172-176 | the monitors the rebuild leaves are running when those it started from were |
| Keepalived.Handle | backend/keepalived/keepalived.go:200-221 | a non-event or an invalid entity changes nothing; otherwise only the entity's entry changes, and afterwards it exists and is running; a running monitor is reused; a missing or stopped one is replaced by a fresh started one |
| Keepalived.HandleTwice | backend/keepalived/keepalived.go:213-220 | handling the same keepalive again changes nothing more |
| Keepalived.Running | backend/keepalived/keepalived.go:236-242 | exactly the monitors that are not stopped, unchanged |
| Keepalived.SweepTwice | backend/keepalived/keepalived.go:236-242 | a second sweep removes nothing more |
| Keepalived.HandledSurvivesSweep | backend/keepalived/keepalived.go:213-242 | the monitor a valid keepalive touched survives the next sweep |
| Keepalived.Keepalived.constructor | backend/keepalived/keepalived.go:57-69 | a daemon holds the collaborators it was given, has no subscription yet, and has an empty registry |
| Keepalived.Keepalived.Start | backend/keepalived/keepalived.go:73-121 | first "no message bus found", then "no keepalive store found", with nothing touched; then the default factory if none was given; a subscribe error is returned; a zero handler count becomes 10; the registry is rebuilt from the store |
| Keepalived.Keepalived.InitFromStore | backend/keepalived/keepalived.go:147-180 | the registry and error are those of the rebuild over the failing keepalives in order; an error from fetching the failing keepalives is returned with the registry untouched |
| Keepalived.Keepalived.ProcessKeepalive | backend/keepalived/keepalived.go:200-221 | the registry becomes the result of handling the message |
| Keepalived.Keepalived.Sweep | backend/keepalived/keepalived.go:236-242 | the registry becomes its running monitors |
| Strings.Split | types/dynamic/util.go:202 | `strings.Split` on one separator: at least one part, none containing the separator, and joining them with it (`Join`, also ramda's `join`) gives back the input |
| Strings.SplitJoin | types/dynamic/util.go:202 | splitting on the separator undoes joining parts that do not contain it |
| Strings.LexLeTotal | types/dynamic/util.go:179 | `LexLe` is Go's `<=` on strings; it is total |
| Strings.LexLessTransitive | types/dynamic/util.go:179 | Go's `<` on strings is transitive |
| Strings.IntToString | dashboard/src/components/EventsContainer.js:160-163 | how a status code is rendered: canonical decimal text, an optional minus sign then digits without a leading zero |
| Strings.IntToStringRoundTrip | dashboard/src/components/EventsContainer.js:160-163 | the rendered status code parses back to itself |
| Strings.CanonicalIntRoundTrip | dashboard/src/components/EventsContainer.js:160-163 | canonical decimal text is the rendering of the number it denotes, so no two canonical texts denote the same code |

## Left out

- Rendering, styling, the GraphQL fragments and routing of both dashboard components are left out. The model keeps only the data they compute.
- `ResolveEventMutation.commit` is a network call. It is modelled as the list of ids for which a request is issued, plus a separate completion step per id. A request that never completes leaves its row selected.
- The completion callback passes `rowState` itself as the partial state. React therefore also copies every row id into the component's top-level state. The model keeps only the in-place change to `rowState`.
- JavaScript orders integer-like property names numerically. The property order in `Container.keys` is insertion order, which is right for the non-numeric event ids the dashboard uses.
- `window.location.assign` is I/O. Only the target string is modelled.
- NamespaceSelectorMenu.Menu: rendering with no matching organization throws on `undefined.environments`. The model returns `Failure(NoCurrentOrganization)` instead of a thrown error.
- DynamicUtil: reflection is left out. The nil value, the value's kind and its JSON field names come in as a `Target`. `getJSONFields` is not part of this model.
- DynamicUtil: `isExtendedAttributes`, `addressOfExtendedAttributes` and `structField.isEmpty` compare pointers or use `reflect.DeepEqual`. `mapOfExtendedAttributes` depends on `strings.Title`. All four are left out.
- DynamicUtil.ExtractExtendedAttributes: the jsoniter stream's bytes are not modelled. The result is the list of members written, or None for the nil buffer. Decoding is given as a `Result`.
- DynamicUtil.SortAnys: the appending loop and `sort.Slice` are fused into one loop that inserts each key at its sorted place. Map keys are distinct, so the result is the same.
- DynamicUtil.MakeEnvelope: Go walks and mutates nested maps through aliases. The model rebuilds the same tree as a value (`Put`), so it captures the result but not the in-place update.
- DynamicUtil: a JSON number is kept as an unbounded integer. jsoniter keeps it as text and `GetInterface` turns it into a `float64`, so fractions and exponents (`1.5`, `1e3`) are not represented. No property depends on this, since values are only copied.
- DynamicUtil: Go compares strings byte by byte. The model compares code points, which gives the same order for UTF-8 text.
- Events: `types/event.go` is not part of this model. `IsIncident`, `IsResolution`, `IsSilenced`, `HasMetrics`, `Validate`, `Get` and both orderings are defined so as to agree with every case of `types/event_test.go`.
  - Behaviour the tests do not fix follows the simplest reading: a missing entity is an error; only the four tested names are fields for `Get`; statuses above 3 rank with 3.
- Events.Validate: the name-format rules of entity, check and hook names and the exact error texts are left out. Only emptiness and presence are modelled.
- Events: the Go `FixtureEvent` is defined outside the files modelled here. The Dafny `FixtureEvent` stands in for it and assumes an entity with the given ID, a check with the given name, status 0, an empty history and an empty silenced list, no hooks and no metrics. The tests rely on each of these: `ValidateTable` on the named entity, check and absent hooks, `SilencedTable` on the empty silenced list, `SortsBySeverity` on status 0 before the statuses are set.
- Events: the fixture's clock time is the parameter `now`, which the severity tests need above the 42 given to `okOlder`.
- Events.Sort: `sort.Sort` uses its own algorithm, and the model sorts by selection. The uniqueness lemma shows that the tests' expectations hold for any algorithm that yields an ordered permutation.
- Events: statuses are `uint32` and timestamps `int64` in Go. The model uses unbounded integers, since no arithmetic is done on them.
- Keepalived: goroutines, the mutex, the wait group, channels, the ten-minute sweep timer, `Stop`, `Status` and `Err` are concurrency or plumbing and are left out. Each modelled step is one uninterrupted update.
- Keepalived: the internals of `KeepaliveMonitor` are not part of this model, including `Start`, `Reset`, `Update`, `IsStopped` and the deregistration and event-creation collaborators. A monitor is a record with a `stopped` flag that something outside the model sets. A freshly created monitor is taken to be running. `monitor.Update(event)` is left out.
- Keepalived: `entity.Validate()` lives in `types/entity.go`, which is not part of this model. It is modelled as a non-empty ID.
- Keepalived.Keepalived.ProcessKeepalive: an event message whose entity is nil would dereference nil in the source, so the model requires an entity.
- Keepalived.Keepalived.InitFromStore and Keepalived.Keepalived.Start: the source reads a stored keepalive event's check without a nil check, so the model requires a check. A failing event's entity becomes the new monitor's; a nil one there is left out, so the model requires an entity on stored events with a non-zero status. A passing event may lack an entity, since it is skipped before the entity is read.
- Strings.IntToString: JavaScript renders a status code as a Number, so codes from 1e21 up take exponent form and codes beyond 2^53 lose precision. The model renders an unbounded integer in plain decimal. The status menu offers only 0 to 3, so nothing depends on this.
- Keepalived: the store and the message bus are given as values: the failing keepalives, each event lookup's outcome, and the outcome of subscribing.
