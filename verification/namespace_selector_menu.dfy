/** The namespace switcher: the viewer's organizations are split into the current
    one and the others, and the menu lists the current organization's
    environments, a divider, then each other organization's environments, with
    dividers between those groups. Each item navigates to `/<org>/<env>/`. */
module NamespaceSelectorMenu {
  import opened Wrappers
  import opened Strings

  datatype Environment = Environment(name: string)

  datatype Organization = Organization(name: string, environments: seq<Environment>)

  /** `a` is `b` with some elements left out, the rest in the same order. */
  predicate IsSubsequence<T(==)>(a: seq<T>, b: seq<T>)
    decreases |b|
  {
    if a == [] then true
    else if b == [] then false
    else (a[0] == b[0] && IsSubsequence(a[1..], b[1..])) || IsSubsequence(a, b[1..])
  }

  /** lodash `partition` on "the name is the current organization": the
      organizations that match and those that do not, each in input order. */
  function Partition(orgs: seq<Organization>, current: string): (parts: (seq<Organization>, seq<Organization>))
    ensures forall o :: o in parts.0 <==> o in orgs && o.name == current
    ensures forall o :: o in parts.1 <==> o in orgs && o.name != current
    ensures multiset(parts.0) + multiset(parts.1) == multiset(orgs)
    ensures IsSubsequence(parts.0, orgs) && IsSubsequence(parts.1, orgs)
  {
    if orgs == [] then ([], [])
    else
      var rest := Partition(orgs[1..], current);
      assert orgs == [orgs[0]] + orgs[1..];
      if orgs[0].name == current then
        assert ([orgs[0]] + rest.0)[1..] == rest.0;
        ([orgs[0]] + rest.0, rest.1)
      else
        assert ([orgs[0]] + rest.1)[1..] == rest.1;
        (rest.0, [orgs[0]] + rest.1)
  }

  /** `partitionedOrganizations[0][0]`: undefined when nothing matches. */
  function CurrentOrganization(orgs: seq<Organization>, current: string): (r: Option<Organization>)
    ensures r.None? <==> forall i :: 0 <= i < |orgs| ==> orgs[i].name != current
    ensures r.Some? ==> exists i :: 0 <= i < |orgs| && orgs[i] == r.value && orgs[i].name == current &&
                                   forall j :: 0 <= j < i ==> orgs[j].name != current
  {
    var matching := Partition(orgs, current).0;
    if matching == [] then
      assert forall i :: 0 <= i < |orgs| ==> orgs[i] !in matching;
      None
    else
      FirstMatch(orgs, current);
      Some(matching[0])
  }

  /** The head of the matching part is the first organization with the current name. */
  lemma {:induction false} FirstMatch(orgs: seq<Organization>, current: string)
    requires Partition(orgs, current).0 != []
    ensures exists i :: 0 <= i < |orgs| && orgs[i] == Partition(orgs, current).0[0] &&
                        orgs[i].name == current && forall j :: 0 <= j < i ==> orgs[j].name != current
  {
    var m := Partition(orgs, current).0;
    if orgs[0].name == current {
      assert orgs[0] == m[0];
    } else {
      var tail := orgs[1..];
      assert m == Partition(tail, current).0;
      FirstMatch(tail, current);
      var k :| 0 <= k < |tail| && tail[k] == m[0] &&
               tail[k].name == current && forall j :: 0 <= j < k ==> tail[j].name != current;
      assert orgs[k + 1] == m[0];
      forall j | 0 <= j < k + 1 ensures orgs[j].name != current {
        if j > 0 {
          assert orgs[j] == tail[j - 1];
        }
      }
    }
  }

  /** `partitionedOrganizations[1]` */
  function OtherOrganizations(orgs: seq<Organization>, current: string): seq<Organization> {
    Partition(orgs, current).1
  }

  /** An organization that shares the current name but is not the first such
      one is in neither list: it is not the current organization and not among the others. */
  lemma SameNameLaterDropped(orgs: seq<Organization>, current: string, o: Organization)
    requires o in orgs && o.name == current && CurrentOrganization(orgs, current) != Some(o)
    ensures o !in OtherOrganizations(orgs, current)
  {
  }

  lemma PartitionExample()
    ensures var a := Organization("a", [Environment("default")]);
            var b := Organization("b", [Environment("default")]);
            CurrentOrganization([a, b], "b") == Some(b) && OtherOrganizations([a, b], "b") == [a]
  {
    var a := Organization("a", [Environment("default")]);
    var b := Organization("b", [Environment("default")]);
    assert [a, b][1..] == [b];
  }

  /** The navigation target of a menu item. */
  function NavigateTo(organization: string, environment: string): (target: string)
    ensures target == Join(["", organization, environment, ""], '/')
    ensures '/' !in organization && '/' !in environment ==>
              Split(target, '/') == ["", organization, environment, ""]
  {
    var target := "/" + organization + "/" + environment + "/";
    assert Join(["", organization, environment, ""], '/') == target by {
      assert ["", organization, environment, ""][1..] == [organization, environment, ""];
      assert [organization, environment, ""][1..] == [environment, ""];
      assert [environment, ""][1..] == [""];
      assert Join([""], '/') == "";
      assert Join([environment, ""], '/') == environment + "/";
      assert Join([organization, environment, ""], '/') == organization + "/" + environment + "/";
    }
    if '/' !in organization && '/' !in environment then
      SplitJoin(["", organization, environment, ""], '/');
      target
    else
      target
  }

  datatype MenuEntry = Item(organization: string, environment: string, target: string) | Divider

  datatype MenuError = NoCurrentOrganization

  /** One item per environment of `org`, in order. */
  function EnvironmentItems(org: Organization): (items: seq<MenuEntry>)
    ensures |items| == |org.environments|
    ensures forall i :: 0 <= i < |items| ==>
              items[i] == Item(org.name, org.environments[i].name, NavigateTo(org.name, org.environments[i].name))
  {
    seq(|org.environments|, i requires 0 <= i < |org.environments| =>
      Item(org.name, org.environments[i].name, NavigateTo(org.name, org.environments[i].name)))
  }

  /** The groups of the other organizations, a divider after each group but the last. */
  function OtherGroups(others: seq<Organization>): seq<MenuEntry>
    decreases |others|
  {
    if others == [] then []
    else if |others| == 1 then EnvironmentItems(others[0])
    else EnvironmentItems(others[0]) + [Divider] + OtherGroups(others[1..])
  }

  /** The entries of the rendered menu, or the failure to read the environments
      of an organization that does not exist. */
  function Menu(orgs: seq<Organization>, current: string): (r: Result<seq<MenuEntry>, MenuError>)
    ensures r.Failure? <==> forall i :: 0 <= i < |orgs| ==> orgs[i].name != current
  {
    match CurrentOrganization(orgs, current)
    case None => Failure(NoCurrentOrganization)
    case Some(org) =>
      Success(EnvironmentItems(org) + [Divider] + OtherGroups(OtherOrganizations(orgs, current)))
  }

  function DividerCount(entries: seq<MenuEntry>): nat {
    if entries == [] then 0 else (if entries[0].Divider? then 1 else 0) + DividerCount(entries[1..])
  }

  /** The (organization, environment) pairs the items of `entries` navigate to, in order. */
  function Destinations(entries: seq<MenuEntry>): seq<(string, string)> {
    if entries == [] then []
    else (if entries[0].Item? then [(entries[0].organization, entries[0].environment)] else [])
         + Destinations(entries[1..])
  }

  /** Each environment of `org`, paired with the organization's name. */
  function Pairs(org: Organization): (pairs: seq<(string, string)>)
    ensures |pairs| == |org.environments|
    ensures forall i :: 0 <= i < |pairs| ==> pairs[i] == (org.name, org.environments[i].name)
  {
    seq(|org.environments|, i requires 0 <= i < |org.environments| => (org.name, org.environments[i].name))
  }

  function AllPairs(orgs: seq<Organization>): seq<(string, string)> {
    if orgs == [] then [] else Pairs(orgs[0]) + AllPairs(orgs[1..])
  }

  lemma {:induction false} DividerCountAppend(a: seq<MenuEntry>, b: seq<MenuEntry>)
    ensures DividerCount(a + b) == DividerCount(a) + DividerCount(b)
    ensures Destinations(a + b) == Destinations(a) + Destinations(b)
  {
    if a == [] {
      assert a + b == b;
    } else {
      assert (a + b)[0] == a[0];
      assert (a + b)[1..] == a[1..] + b;
      DividerCountAppend(a[1..], b);
    }
  }

  lemma {:induction false} EnvironmentItemsContent(org: Organization, n: nat)
    requires n <= |org.environments|
    ensures DividerCount(EnvironmentItems(org)[..n]) == 0
    ensures Destinations(EnvironmentItems(org)[..n]) == Pairs(org)[..n]
  {
    if n > 0 {
      var items := EnvironmentItems(org)[..n];
      EnvironmentItemsContent(org, n - 1);
      assert items == EnvironmentItems(org)[..n - 1] + [items[n - 1]];
      DividerCountAppend(EnvironmentItems(org)[..n - 1], [items[n - 1]]);
      assert Pairs(org)[..n] == Pairs(org)[..n - 1] + [Pairs(org)[n - 1]];
    }
  }

  lemma EnvironmentItemsAreItems(org: Organization)
    ensures DividerCount(EnvironmentItems(org)) == 0
    ensures Destinations(EnvironmentItems(org)) == Pairs(org)
  {
    var n := |org.environments|;
    EnvironmentItemsContent(org, n);
    assert EnvironmentItems(org)[..n] == EnvironmentItems(org);
    assert Pairs(org)[..n] == Pairs(org);
  }

  /** Two runs of entries with a divider between them. */
  lemma AroundDivider(a: seq<MenuEntry>, b: seq<MenuEntry>)
    ensures DividerCount(a + [Divider] + b) == DividerCount(a) + 1 + DividerCount(b)
    ensures Destinations(a + [Divider] + b) == Destinations(a) + Destinations(b)
  {
    DividerCountAppend(a + [Divider], b);
    DividerCountAppend(a, [Divider]);
    assert DividerCount([Divider]) == 1;
    assert Destinations([Divider]) == [];
  }

  /** The other groups hold one divider fewer than there are groups, and go to
      every other organization's environments in order. */
  lemma {:induction false} OtherGroupsContent(others: seq<Organization>)
    ensures DividerCount(OtherGroups(others)) == if others == [] then 0 else |others| - 1
    ensures Destinations(OtherGroups(others)) == AllPairs(others)
    decreases |others|
  {
    if others != [] {
      var head := EnvironmentItems(others[0]);
      EnvironmentItemsAreItems(others[0]);
      if |others| == 1 {
        assert AllPairs(others) == Pairs(others[0]) + AllPairs(others[1..]);
        assert AllPairs(others[1..]) == [];
      } else {
        var tail := OtherGroups(others[1..]);
        OtherGroupsContent(others[1..]);
        assert OtherGroups(others) == head + [Divider] + tail;
        AroundDivider(head, tail);
        assert AllPairs(others) == Pairs(others[0]) + AllPairs(others[1..]);
      }
    }
  }

  /** The rendered menu has one divider after the current organization's
      environments and one between each two groups of the others. */
  lemma MenuDividers(orgs: seq<Organization>, current: string)
    requires Menu(orgs, current).Success?
    ensures var others := OtherOrganizations(orgs, current);
            DividerCount(Menu(orgs, current).value) == 1 + (if others == [] then 0 else |others| - 1)
  {
    var others := OtherOrganizations(orgs, current);
    var org := CurrentOrganization(orgs, current).value;
    assert Menu(orgs, current).value == EnvironmentItems(org) + [Divider] + OtherGroups(others);
    EnvironmentItemsAreItems(org);
    OtherGroupsContent(others);
    AroundDivider(EnvironmentItems(org), OtherGroups(others));
  }

  /** The items of the rendered menu go, in order, to the current organization's
      environments and then to those of every other organization, each paired
      with its own organization. */
  lemma MenuDestinations(orgs: seq<Organization>, current: string)
    requires Menu(orgs, current).Success?
    ensures Destinations(Menu(orgs, current).value) ==
            Pairs(CurrentOrganization(orgs, current).value) + AllPairs(OtherOrganizations(orgs, current))
  {
    var others := OtherOrganizations(orgs, current);
    var org := CurrentOrganization(orgs, current).value;
    assert Menu(orgs, current).value == EnvironmentItems(org) + [Divider] + OtherGroups(others);
    EnvironmentItemsAreItems(org);
    OtherGroupsContent(others);
    AroundDivider(EnvironmentItems(org), OtherGroups(others));
  }

  /** The environment items of each organization, one group per organization, in order. */
  function GroupsOf(orgs: seq<Organization>): (groups: seq<seq<MenuEntry>>)
    ensures |groups| == |orgs|
    ensures forall i :: 0 <= i < |orgs| ==> groups[i] == EnvironmentItems(orgs[i])
  {
    seq(|orgs|, i requires 0 <= i < |orgs| => EnvironmentItems(orgs[i]))
  }

  lemma NoDividerAmongItems(org: Organization)
    ensures Divider !in EnvironmentItems(org)
  {
    EnvironmentItemsAreItems(org);
  }

  /** The other groups are those organizations' items with a divider between neighbours. */
  lemma {:induction false} OtherGroupsJoined(others: seq<Organization>)
    requires others != []
    ensures OtherGroups(others) == Join(GroupsOf(others), Divider)
    decreases |others|
  {
    if |others| > 1 {
      OtherGroupsJoined(others[1..]);
      assert GroupsOf(others)[1..] == GroupsOf(others[1..]);
    }
  }

  /** Cut at its dividers, the other groups fall apart into exactly the groups of the
      other organizations, in order: what sits between two dividers is one
      organization's environments and nothing else. */
  lemma OtherGroupsSplit(others: seq<Organization>)
    requires others != []
    ensures Split(OtherGroups(others), Divider) == GroupsOf(others)
  {
    OtherGroupsJoined(others);
    forall i | 0 <= i < |others| ensures Divider !in GroupsOf(others)[i] {
      NoDividerAmongItems(others[i]);
    }
    SplitJoin(GroupsOf(others), Divider);
  }

  /** Cut at its dividers, the rendered menu is the current organization's
      environments, then one group per other organization in order, or one empty
      group after the divider when there are no others. */
  lemma MenuGroups(orgs: seq<Organization>, current: string)
    requires Menu(orgs, current).Success?
    ensures var others := OtherOrganizations(orgs, current);
            Split(Menu(orgs, current).value, Divider) ==
            [EnvironmentItems(CurrentOrganization(orgs, current).value)] +
            (if others == [] then [[]] else GroupsOf(others))
  {
    var others := OtherOrganizations(orgs, current);
    var org := CurrentOrganization(orgs, current).value;
    var rest: seq<seq<MenuEntry>> := if others == [] then [[]] else GroupsOf(others);
    var groups := [EnvironmentItems(org)] + rest;
    assert Join(rest, Divider) == OtherGroups(others) by {
      if others != [] {
        OtherGroupsJoined(others);
      }
    }
    assert groups[1..] == rest;
    assert Menu(orgs, current).value == Join(groups, Divider);
    forall i | 0 <= i < |groups| ensures Divider !in groups[i] {
      if i == 0 {
        NoDividerAmongItems(org);
      } else if others != [] {
        NoDividerAmongItems(others[i - 1]);
      }
    }
    SplitJoin(groups, Divider);
  }

  /** Every item navigates to `/<its organization>/<its environment>/`. */
  predicate WellTargeted(entries: seq<MenuEntry>) {
    forall i :: 0 <= i < |entries| && entries[i].Item? ==>
      entries[i].target == NavigateTo(entries[i].organization, entries[i].environment)
  }

  lemma WellTargetedAppend(a: seq<MenuEntry>, b: seq<MenuEntry>)
    requires WellTargeted(a) && WellTargeted(b)
    ensures WellTargeted(a + b)
  {
    forall i | 0 <= i < |a + b| && (a + b)[i].Item?
      ensures (a + b)[i].target == NavigateTo((a + b)[i].organization, (a + b)[i].environment)
    {
      if i >= |a| {
        assert (a + b)[i] == b[i - |a|];
      }
    }
  }

  lemma {:induction false} OtherGroupsTargets(others: seq<Organization>)
    ensures WellTargeted(OtherGroups(others))
    decreases |others|
  {
    if |others| > 1 {
      OtherGroupsTargets(others[1..]);
      WellTargetedAppend(EnvironmentItems(others[0]), [Divider]);
      WellTargetedAppend(EnvironmentItems(others[0]) + [Divider], OtherGroups(others[1..]));
    }
  }

  /** Every item of the rendered menu navigates to `/<its organization>/<its environment>/`. */
  lemma MenuTargets(orgs: seq<Organization>, current: string)
    requires Menu(orgs, current).Success?
    ensures WellTargeted(Menu(orgs, current).value)
  {
    var head := EnvironmentItems(CurrentOrganization(orgs, current).value);
    OtherGroupsTargets(OtherOrganizations(orgs, current));
    WellTargetedAppend(head, [Divider]);
    WellTargetedAppend(head + [Divider], OtherGroups(OtherOrganizations(orgs, current)));
  }
}
