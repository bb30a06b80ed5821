/** Helpers behind the extended attributes of Sensu's dynamic types: reading a
    struct field's JSON name from its tag, listing a decoded object's members in
    key order, keeping only the members that are not struct fields, and wrapping
    a value into nested objects along a key path. JSON values are abstract: what
    the decoder produced, not bytes. */
module DynamicUtil {
  import opened Wrappers
  import opened Strings

  /** A decoded JSON value; an object is what Go holds as `map[string]interface{}`. */
  datatype Value =
    | Null
    | Bool(b: bool)
    | Number(n: int)
    | Str(s: string)
    | Array(items: seq<Value>)
    | Object(fields: map<string, Value>)

  /** A named member of an object (`anyT`). */
  datatype Member = Member(name: string, value: Value)

  /** A struct field as reflection sees it: its Go name and, if present, its `json` tag. */
  datatype StructField = StructField(name: string, jsonTag: Option<string>)

  /** `structField.jsonFieldName`: the JSON name of the field and whether it is `omitempty`. */
  function JsonFieldName(f: StructField): (r: (string, bool))
    ensures f.jsonTag.None? ==> r == (f.name, false)
    ensures r.0 == f.name || (f.jsonTag.Some? && r.0 != "" && ',' !in r.0)
  {
    match f.jsonTag
    case None => (f.name, false)
    case Some(tag) =>
      var parts := Split(tag, ',');
      (if |parts[0]| > 0 then parts[0] else f.name, |parts| > 1 && parts[1] == "omitempty")
  }

  /** Every tag is a comma-separated list: its first part, when not empty, is the
      JSON name, and the field is `omitempty` exactly when the second part is
      `omitempty`; later parts are not looked at. */
  lemma JsonFieldNameOfTag(goName: string, first: string, options: seq<string>)
    requires ',' !in first
    requires forall i :: 0 <= i < |options| ==> ',' !in options[i]
    ensures JsonFieldName(StructField(goName, Some(Join([first] + options, ',')))) ==
            (if first != "" then first else goName, |options| >= 1 && options[0] == "omitempty")
  {
    var parts := [first] + options;
    ConsWithoutSeparator(first, options, ',');
    SplitJoin(parts, ',');
    assert |options| >= 1 ==> parts[1] == options[0];
  }

  lemma ConsWithoutSeparator(first: string, options: seq<string>, sep: char)
    requires sep !in first
    requires forall i :: 0 <= i < |options| ==> sep !in options[i]
    ensures forall i :: 0 <= i < |[first] + options| ==> sep !in ([first] + options)[i]
  {
    var parts := [first] + options;
    forall i | 0 <= i < |parts| ensures sep !in parts[i] {
      if i > 0 {
        assert parts[i] == options[i - 1];
      }
    }
  }

  lemma JsonFieldNameOmitEmpty()
    ensures JsonFieldName(StructField("Name", Some("name,omitempty"))) == ("name", true)
  {
    JsonFieldNameOfTag("Name", "name", ["omitempty"]);
    assert Join(["name"] + ["omitempty"], ',') == "name,omitempty";
  }

  lemma JsonFieldNameOnlyOptions()
    ensures JsonFieldName(StructField("Name", Some(",omitempty"))) == ("Name", true)
  {
    JsonFieldNameOfTag("Name", "", ["omitempty"]);
    assert Join([""] + ["omitempty"], ',') == ",omitempty";
  }

  lemma JsonFieldNameOmitEmptyNotSecond()
    ensures JsonFieldName(StructField("Name", Some("name,string,omitempty"))) == ("name", false)
  {
    JsonFieldNameOfTag("Name", "name", ["string", "omitempty"]);
    ThreePartTag();
  }

  /** Evaluates the literal tag join on its own, which keeps the cost of
      `JsonFieldNameOmitEmptyNotSecond` low; it states nothing about the source. */
  lemma ThreePartTag()
    ensures Join(["name"] + ["string", "omitempty"], ',') == "name,string,omitempty"
  {
    var parts := ["name"] + ["string", "omitempty"];
    assert parts[1..][1..] == ["omitempty"];
    assert Join(parts[1..], ',') == "string,omitempty";
  }

  ghost function Names(members: seq<Member>): set<string> {
    set y | y in members :: y.name
  }

  lemma NamesAppend(members: seq<Member>, x: Member)
    ensures Names(members + [x]) == Names(members) + {x.name}
  {
    assert x in members + [x];
    forall n | n in Names(members) ensures n in Names(members + [x]) {
      var y :| y in members && y.name == n;
      assert y in members + [x];
    }
  }

  /** Names strictly increase in Go's string order (so each occurs once). */
  ghost predicate StrictlyAscending(members: seq<Member>) {
    forall i, j :: 0 <= i < j < |members| ==> LexLess(members[i].name, members[j].name)
  }

  /** Places `x` before the first member whose name is greater. */
  function InsertByName(x: Member, members: seq<Member>): (r: seq<Member>)
    ensures multiset(r) == multiset(members) + multiset{x}
    decreases |members|
  {
    if members == [] || LexLess(x.name, members[0].name) then [x] + members
    else
      assert members == [members[0]] + members[1..];
      [members[0]] + InsertByName(x, members[1..])
  }

  /** A member placed before ascending members that all have greater names. */
  lemma ConsAscending(m0: Member, tail: seq<Member>)
    requires StrictlyAscending(tail)
    requires forall j :: 0 <= j < |tail| ==> LexLess(m0.name, tail[j].name)
    ensures StrictlyAscending([m0] + tail)
  {
    var r := [m0] + tail;
    forall i, j | 0 <= i < j < |r| ensures LexLess(r[i].name, r[j].name) {
      assert r[j] == tail[j - 1];
      if i > 0 {
        assert r[i] == tail[i - 1];
      }
    }
  }

  /** Inserting a new name into members in ascending order keeps them ascending. */
  lemma {:induction false} InsertKeepsAscending(x: Member, members: seq<Member>)
    requires StrictlyAscending(members) && x.name !in Names(members)
    ensures StrictlyAscending(InsertByName(x, members))
    decreases |members|
  {
    if members == [] {
    } else if LexLess(x.name, members[0].name) {
      forall j | 0 <= j < |members| ensures LexLess(x.name, members[j].name) {
        if j > 0 {
          LexLessTransitive(x.name, members[0].name, members[j].name);
        }
      }
      ConsAscending(x, members);
    } else {
      var m0 := members[0];
      var rest := members[1..];
      assert m0 in members;
      LexLessConnected(x.name, m0.name);
      assert Names(rest) <= Names(members) by {
        forall n | n in Names(rest) ensures n in Names(members) {
          var y :| y in rest && y.name == n;
          assert y in members;
        }
      }
      InsertKeepsAscending(x, rest);
      InsertTailAbove(x, m0, rest);
      ConsAscending(m0, InsertByName(x, rest));
    }
  }

  /** After inserting `x` into the members that follow `m0`, all still have
      names greater than `m0`'s, provided `x` does. */
  lemma InsertTailAbove(x: Member, m0: Member, rest: seq<Member>)
    requires StrictlyAscending([m0] + rest)
    requires LexLess(m0.name, x.name)
    ensures forall j :: 0 <= j < |InsertByName(x, rest)| ==> LexLess(m0.name, InsertByName(x, rest)[j].name)
  {
    var tail := InsertByName(x, rest);
    var members := [m0] + rest;
    assert members[0] == m0;
    forall j | 0 <= j < |tail| ensures LexLess(m0.name, tail[j].name) {
      assert tail[j] in multiset(tail);
      if tail[j] != x {
        assert tail[j] in rest;
        var k :| 0 <= k < |rest| && rest[k] == tail[j];
        assert members[k + 1] == rest[k];
      }
    }
  }

  lemma InsertNames(x: Member, members: seq<Member>)
    ensures Names(InsertByName(x, members)) == Names(members) + {x.name}
  {
    var r := InsertByName(x, members);
    assert forall y :: y in r <==> y in multiset(r);
    assert x in multiset(r);
    forall n | n in Names(members) ensures n in Names(r) {
      var y :| y in members && y.name == n;
      assert y in multiset(members);
    }
    forall n | n in Names(r) ensures n in Names(members) + {x.name} {
      var y :| y in r && y.name == n;
      if y != x {
        assert y in multiset(members);
      }
    }
  }

  /** Every member is some key of `m` with that key's value. */
  ghost predicate MembersOf(members: seq<Member>, m: map<string, Value>) {
    forall y :: y in members ==> y.name in m && y.value == m[y.name]
  }

  lemma InsertMembersOf(x: Member, members: seq<Member>, m: map<string, Value>)
    requires MembersOf(members, m) && x.name in m && x.value == m[x.name]
    ensures MembersOf(InsertByName(x, members), m)
    ensures |InsertByName(x, members)| == |members| + 1
  {
    var r := InsertByName(x, members);
    assert |multiset(r)| == |multiset(members)| + 1;
    forall y | y in r ensures y.name in m && y.value == m[y.name] {
      assert y in multiset(r);
      if y != x {
        assert y in multiset(members);
      }
    }
  }

  /** `sortAnys`: one member per key of `m`, carrying that key's value, in
      ascending key order. */
  method SortAnys(m: map<string, Value>) returns (anys: seq<Member>)
    ensures StrictlyAscending(anys)
    ensures Names(anys) == m.Keys
    ensures MembersOf(anys, m)
    ensures |anys| == |m|
  {
    anys := [];
    var rest := m.Keys;
    while rest != {}
      invariant SortedSoFar(anys, rest, m)
      decreases rest
    {
      var key :| key in rest;
      SortStep(anys, rest, m, key);
      anys := InsertByName(Member(key, m[key]), anys);
      rest := rest - {key};
    }
  }

  /** The loop state of `sortAnys`: the keys not yet inserted are `rest`, and
      the members so far are those of the other keys, in ascending order. */
  ghost predicate SortedSoFar(anys: seq<Member>, rest: set<string>, m: map<string, Value>) {
    && rest <= m.Keys
    && StrictlyAscending(anys)
    && Names(anys) !! rest && Names(anys) + rest == m.Keys
    && MembersOf(anys, m)
    && |anys| + |rest| == |m|
  }

  /** Inserting one more key keeps the loop state. */
  lemma SortStep(anys: seq<Member>, rest: set<string>, m: map<string, Value>, key: string)
    requires SortedSoFar(anys, rest, m) && key in rest
    ensures SortedSoFar(InsertByName(Member(key, m[key]), anys), rest - {key}, m)
  {
    var any := Member(key, m[key]);
    InsertKeepsAscending(any, anys);
    InsertNames(any, anys);
    InsertMembersOf(any, anys, m);
  }

  /** What the reflected `v` is: nothing (a nil pointer or interface), a value
      of some other kind, or a struct whose JSON field names are given. */
  datatype Target = NilValue | NonStruct(kind: string) | Struct(jsonFields: set<string>)

  datatype ExtractError = NilAttributes | InvalidKind(kind: string) | UnmarshalFailed

  /** The members of the message as a `map[string]Any`: an object gives its
      members, `null` gives none, any other JSON value and any decoding failure
      (given as Failure) cannot be read as a map. */
  function DecodedMembers(msg: Result<Value, string>): Option<map<string, Value>> {
    match msg
    case Success(Object(fields)) => Some(fields)
    case Success(Null) => Some(map[])
    case _ => None
  }

  /** The members whose names are not struct fields, in their order. */
  function WithoutFields(members: seq<Member>, fields: set<string>): (r: seq<Member>)
    ensures forall y :: y in r <==> y in members && y.name !in fields
    decreases |members|
  {
    if members == [] then []
    else
      var last := members[|members| - 1];
      var init := members[..|members| - 1];
      assert members == init + [last];
      WithoutFields(init, fields) + (if last.name in fields then [] else [last])
  }

  lemma WithoutFieldsStep(members: seq<Member>, i: nat, fields: set<string>)
    requires i < |members|
    ensures WithoutFields(members[..i + 1], fields) ==
            WithoutFields(members[..i], fields) + (if members[i].name in fields then [] else [members[i]])
  {
    assert members[..i + 1][..i] == members[..i];
  }

  lemma {:induction false} WithoutFieldsAscending(members: seq<Member>, fields: set<string>)
    requires StrictlyAscending(members)
    ensures StrictlyAscending(WithoutFields(members, fields))
    decreases |members|
  {
    if members != [] {
      var last := members[|members| - 1];
      var init := members[..|members| - 1];
      WithoutFieldsAscending(init, fields);
      var w := WithoutFields(init, fields);
      forall i | 0 <= i < |w| ensures LexLess(w[i].name, last.name) {
        assert w[i] in init;
        var k :| 0 <= k < |init| && init[k] == w[i];
        assert members[k] == init[k];
      }
    }
  }

  lemma WithoutFieldsNames(members: seq<Member>, fields: set<string>)
    ensures Names(WithoutFields(members, fields)) == Names(members) - fields
  {
    var w := WithoutFields(members, fields);
    forall n | n in Names(members) - fields ensures n in Names(w) {
      var y :| y in members && y.name == n;
      assert y in w;
    }
  }

  /** `members` is the JSON object of the extended attributes of `m`: every key
      that is not a struct field, once, in ascending order, with its own value. */
  ghost predicate ExtendedObject(members: seq<Member>, m: map<string, Value>, jsonFields: set<string>) {
    && StrictlyAscending(members)
    && Names(members) == m.Keys - jsonFields
    && MembersOf(members, m)
  }

  /** `extractExtendedAttributes`: the object written to the output stream, or
      None for the nil buffer left when no member was written. */
  method ExtractExtendedAttributes(v: Target, msg: Result<Value, string>)
    returns (r: Result<Option<seq<Member>>, ExtractError>)
    ensures v.NilValue? ==> r == Failure(NilAttributes)
    ensures v.NonStruct? ==> r == Failure(InvalidKind(v.kind))
    ensures v.Struct? && DecodedMembers(msg).None? ==> r == Failure(UnmarshalFailed)
    ensures v.Struct? && DecodedMembers(msg).Some? ==>
              var m := DecodedMembers(msg).value;
              r.Success? &&
              (r.value.None? <==> m.Keys - v.jsonFields == {}) &&
              (r.value.Some? ==> ExtendedObject(r.value.value, m, v.jsonFields))
  {
    if v.NilValue? {
      return Failure(NilAttributes);
    }
    if v.NonStruct? {
      return Failure(InvalidKind(v.kind));
    }
    var fields := v.jsonFields;
    var decoded := DecodedMembers(msg);
    if decoded.None? {
      return Failure(UnmarshalFailed);
    }
    var m := decoded.value;
    var anys := SortAnys(m);
    var written: seq<Member> := [];
    var j := 0;
    var i := 0;
    while i < |anys|
      invariant 0 <= i <= |anys|
      invariant j == |written|
      invariant written == WithoutFields(anys[..i], fields)
    {
      WithoutFieldsStep(anys, i, fields);
      if anys[i].name !in fields {
        written := written + [anys[i]];
        j := j + 1;
      }
      i := i + 1;
    }
    assert anys[..i] == anys;
    WithoutFieldsExtended(anys, m, fields);
    if j > 0 {
      r := Success(Some(written));
    } else {
      r := Success(None);
    }
  }

  /** Dropping the struct fields from the sorted members of `m` leaves its
      extended object, which is empty exactly when every key is a struct field. */
  lemma WithoutFieldsExtended(anys: seq<Member>, m: map<string, Value>, fields: set<string>)
    requires StrictlyAscending(anys) && Names(anys) == m.Keys && MembersOf(anys, m)
    ensures ExtendedObject(WithoutFields(anys, fields), m, fields)
    ensures WithoutFields(anys, fields) == [] <==> m.Keys - fields == {}
  {
    var w := WithoutFields(anys, fields);
    WithoutFieldsAscending(anys, fields);
    WithoutFieldsNames(anys, fields);
    if w != [] {
      assert w[0] in w && w[0].name in Names(w);
    } else {
      assert Names(w) == {};
    }
  }

  /** `extractNonPathValues`: every top-level member of `any`; the path is not looked at. */
  function ExtractNonPathValues(any: Value, parts: seq<string>): (r: map<string, Value>)
    ensures any.Object? ==> r == any.fields
    ensures !any.Object? ==> r == map[]
  {
    if any.Object? then any.fields else map[]
  }

  /** The value reached from `v` by following the keys of `path` through objects. */
  function Lookup(v: Value, path: seq<string>): Option<Value>
    decreases |path|
  {
    if path == [] then Some(v)
    else if v.Object? && path[0] in v.fields then Lookup(v.fields[path[0]], path[1..])
    else None
  }

  /** The walk of `makeEnvelope`: every key of `parts` but the last is made to
      hold an object (the one already there, or a fresh empty one in place of a
      missing or non-object value), and the last key receives `value`. */
  function Put(obj: map<string, Value>, parts: seq<string>, value: Value): map<string, Value>
    decreases |parts|
  {
    if parts == [] then obj
    else if |parts| == 1 then obj[parts[0] := value]
    else
      var child := if parts[0] in obj && obj[parts[0]].Object? then obj[parts[0]].fields else map[];
      obj[parts[0] := Object(Put(child, parts[1..], value))]
  }

  /** `makeEnvelope` */
  function MakeEnvelope(any: Value, parts: seq<string>, value: Value): map<string, Value> {
    Put(ExtractNonPathValues(any, parts), parts, value)
  }

  predicate IsPrefixOf(p: seq<string>, q: seq<string>) {
    |p| <= |q| && q[..|p|] == p
  }

  /** With no path the envelope is just the top-level members of `any`. */
  lemma EnvelopeWithoutPath(any: Value, value: Value)
    ensures MakeEnvelope(any, [], value) == ExtractNonPathValues(any, [])
  {
  }

  /** The value sits at the end of the path. */
  lemma {:induction false} PutThenLookup(obj: map<string, Value>, parts: seq<string>, value: Value)
    requires parts != []
    ensures Lookup(Object(Put(obj, parts, value)), parts) == Some(value)
    decreases |parts|
  {
    if |parts| > 1 {
      var child := if parts[0] in obj && obj[parts[0]].Object? then obj[parts[0]].fields else map[];
      PutThenLookup(child, parts[1..], value);
    }
  }

  /** The envelope keeps every top-level member of `any`, changes none but the
      first key of the path, and holds `value` at the end of the path. */
  lemma MakeEnvelopeResult(any: Value, parts: seq<string>, value: Value)
    ensures var top := ExtractNonPathValues(any, parts);
            var env := MakeEnvelope(any, parts, value);
            && env.Keys == top.Keys + (if parts == [] then {} else {parts[0]})
            && (forall k :: k in top && (parts == [] || k != parts[0]) ==> env[k] == top[k])
            && (parts != [] ==> Lookup(Object(env), parts) == Some(value))
  {
    if parts != [] {
      PutThenLookup(ExtractNonPathValues(any, parts), parts, value);
    }
  }

  /** A path made of one key is a prefix of every path starting with that key. */
  lemma SingletonPrefix(p: seq<string>, q: seq<string>)
    ensures |p| == 1 && q != [] && q[0] == p[0] ==> IsPrefixOf(p, q)
  {
    if |p| == 1 && q != [] && q[0] == p[0] {
      assert q[..1] == [q[0]];
    }
  }

  /** Two paths with the same first key are prefix-related exactly when their rests are. */
  lemma PrefixOfTails(p: seq<string>, q: seq<string>)
    requires p != [] && q != [] && p[0] == q[0]
    ensures IsPrefixOf(p, q) <==> IsPrefixOf(p[1..], q[1..])
  {
    if |p| <= |q| {
      assert q[..|p|] == [q[0]] + q[1..][..|p| - 1];
      assert p == [p[0]] + p[1..];
    }
  }

  /** Only the path changes: whatever is reached by a key path that neither
      leads into the path nor is a prefix of it is the same before and after,
      so the siblings met along the way and every other top-level key survive. */
  lemma {:induction false} PutFrame(obj: map<string, Value>, parts: seq<string>, value: Value, q: seq<string>)
    requires !IsPrefixOf(q, parts) && !IsPrefixOf(parts, q)
    ensures Lookup(Object(Put(obj, parts, value)), q) == Lookup(Object(obj), q)
    decreases |parts|
  {
    assert q != [] && parts != [];
    if q[0] == parts[0] {
      SingletonPrefix(parts, q);
      SingletonPrefix(q, parts);
      PrefixOfTails(q, parts);
      PrefixOfTails(parts, q);
      var child := if parts[0] in obj && obj[parts[0]].Object? then obj[parts[0]].fields else map[];
      PutFrame(child, parts[1..], value, q[1..]);
    }
  }

  /** A step of the path that did not hold an object (missing or another kind of
      value) holds, afterwards, a fresh object whose only key is the next step. */
  lemma {:induction false} PutFreshStep(obj: map<string, Value>, parts: seq<string>, value: Value, i: nat)
    requires 0 < i < |parts|
    requires !(Lookup(Object(obj), parts[..i]).Some? && Lookup(Object(obj), parts[..i]).value.Object?)
    ensures var after := Lookup(Object(Put(obj, parts, value)), parts[..i]);
            after.Some? && after.value.Object? && after.value.fields.Keys == {parts[i]}
    decreases i
  {
    var child := if parts[0] in obj && obj[parts[0]].Object? then obj[parts[0]].fields else map[];
    var rest := parts[1..];
    assert parts[..i][1..] == rest[..i - 1];
    if i == 1 {
      assert child == map[];
      PutKeys(child, rest, value);
    } else {
      if !(parts[0] in obj && obj[parts[0]].Object?) {
        assert Lookup(Object(map[]), rest[..i - 1]) == None;
      }
      PutFreshStep(child, rest, value, i - 1);
    }
  }

  /** The walk adds the first key of a non-empty path, and no other. */
  lemma PutKeys(obj: map<string, Value>, parts: seq<string>, value: Value)
    requires parts != []
    ensures Put(obj, parts, value).Keys == obj.Keys + {parts[0]}
  {
  }

  /** What reflection reports of a value, as far as `isEmpty` looks at it. */
  datatype Reflected =
    | ArrayOf(len: nat)
    | ChanOf(len: nat)
    | MapOf(len: nat)
    | SliceOf(len: nat)
    | StringOf(len: nat)
    | InterfaceOf(isNil: bool)
    | PtrOf(isNil: bool)
    | OtherKind

  /** `isEmpty`: a zero-length array, channel, map, slice or string, or a nil
      interface or pointer; nothing of any other kind. */
  predicate IsEmpty(v: Reflected)
    ensures IsEmpty(v) <==>
              ((v.ArrayOf? || v.ChanOf? || v.MapOf? || v.SliceOf? || v.StringOf?) && v.len == 0) ||
              ((v.InterfaceOf? || v.PtrOf?) && v.isNil)
  {
    match v
    case ArrayOf(n) => n == 0
    case ChanOf(n) => n == 0
    case MapOf(n) => n == 0
    case SliceOf(n) => n == 0
    case StringOf(n) => n == 0
    case InterfaceOf(isNil) => isNil
    case PtrOf(isNil) => isNil
    case OtherKind => false
  }
}
