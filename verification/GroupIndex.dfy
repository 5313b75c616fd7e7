/** One tenant's fleet groups, indexed for the lookups the scope filters need. */
module GroupIndex {
  import opened Wrappers
  import opened TokenLists
  import Sorting
  import Text

  datatype Group = Group(id: string, name: string, color: string, tokenIDs: seq<int>)
  datatype GroupRef = GroupRef(id: string, name: string, color: string)

  function RefOf(g: Group): GroupRef { GroupRef(g.id, g.name, g.color) }

  /** Never changed once built: instances are shared between requests. */
  datatype Index = Index(
    ordered: seq<Group>,
    byID: map<string, GroupRef>,
    members: map<string, seq<int>>,
    byToken: map<int, seq<GroupRef>>)

  // ---- the order of groups ----

  /** By name, then by id. */
  predicate Before(a: Group, b: Group) {
    Text.Less(a.name, b.name) || (a.name == b.name && Text.Less(a.id, b.id))
  }

  ghost predicate InOrder(groups: seq<Group>) {
    forall i, j :: 0 <= i < j < |groups| ==> Before(groups[i], groups[j])
  }

  ghost predicate UniqueIds(groups: seq<Group>) {
    forall i, j :: 0 <= i < j < |groups| ==> groups[i].id != groups[j].id
  }

  lemma BeforeIsStrictOrder(a: Group, b: Group, c: Group)
    ensures !Before(a, a)
    ensures Before(a, b) && Before(b, c) ==> Before(a, c)
    ensures a.id != b.id ==> Before(a, b) || Before(b, a)
  {
    Text.LessIrreflexive(a.name);
    Text.LessIrreflexive(a.id);
    if Text.Less(a.name, b.name) && Text.Less(b.name, c.name) { Text.LessTransitive(a.name, b.name, c.name); }
    if Text.Less(a.id, b.id) && Text.Less(b.id, c.id) { Text.LessTransitive(a.id, b.id, c.id); }
    Text.LessTotal(a.name, b.name);
    Text.LessTotal(a.id, b.id);
  }

  function SortGroups(groups: seq<Group>): (r: seq<Group>)
    ensures multiset(r) == multiset(groups) && forall g :: g in r <==> g in groups
  {
    Sorting.Sort(groups, Before)
  }

  lemma SortOrders(groups: seq<Group>)
    requires UniqueIds(groups)
    ensures InOrder(SortGroups(groups)) && UniqueIds(SortGroups(groups))
  {
    var r := SortGroups(groups);
    forall a, b, c ensures !Before(a, a) && (Before(a, b) && Before(b, c) ==> Before(a, c)) { BeforeIsStrictOrder(a, b, c); }
    forall i, j | 0 <= i < j < |groups| ensures Before(groups[i], groups[j]) || Before(groups[j], groups[i]) {
      BeforeIsStrictOrder(groups[i], groups[j], groups[i]);
    }
    Sorting.SortOrders(groups, Before);
    forall i, j | 0 <= i < j < |r| ensures r[i].id != r[j].id {
      assert Before(r[i], r[j]) && r[i] in groups && r[j] in groups;
    }
  }

  // ---- the index ----

  /** The groups of the list the vehicle is in, in its order. */
  function GroupsOf(groups: seq<Group>, token: int): (r: seq<GroupRef>) {
    if groups == [] then []
    else
      var rest, g := GroupsOf(groups[..|groups| - 1], token), groups[|groups| - 1];
      if token in g.tokenIDs then rest + [RefOf(g)] else rest
  }

  function Lookup<T>(m: map<int, seq<T>>, t: int): seq<T> {
    if t in m then m[t] else []
  }

  ghost predicate TokensIndexed(byToken: map<int, seq<GroupRef>>, groups: seq<Group>) {
    forall t :: Lookup(byToken, t) == GroupsOf(groups, t)
  }

  ghost predicate Held(byID: map<string, GroupRef>, members: map<string, seq<int>>, g: Group) {
    g.id in members && members[g.id] == SortedSet(g.tokenIDs) && g.id in byID && byID[g.id] == RefOf(g)
  }

  ghost predicate SameKeys(byID: map<string, GroupRef>, members: map<string, seq<int>>) {
    byID.Keys == members.Keys
  }

  ghost predicate AllNamed(members: map<string, seq<int>>, groups: seq<Group>) {
    forall id :: id in members ==> Named(groups, id)
  }

  ghost predicate AllHeld(byID: map<string, GroupRef>, members: map<string, seq<int>>, groups: seq<Group>) {
    forall g :: g in groups ==> Held(byID, members, g)
  }

  ghost predicate IdsIndexed(byID: map<string, GroupRef>, members: map<string, seq<int>>, groups: seq<Group>) {
    SameKeys(byID, members) && AllNamed(members, groups) && AllHeld(byID, members, groups)
  }

  /** What the index must say, in terms of the ordered list alone. */
  ghost predicate Indexes(idx: Index, groups: seq<Group>) {
    idx.ordered == groups && TokensIndexed(idx.byToken, groups) && IdsIndexed(idx.byID, idx.members, groups)
  }

  /** One group comes before another: by name, and of equal names by id. */
  ghost predicate ByName(name: string, id: string, name': string, id': string) {
    Text.Less(name, name') || (name == name' && Text.Less(id, id'))
  }

  /** The groups a vehicle is listed with. */
  ghost predicate ListsGroups(refs: seq<GroupRef>, groups: seq<Group>, t: int) {
    && (forall ref :: ref in refs <==> exists g :: g in groups && t in g.tokenIDs && ref == GroupRef(g.id, g.name, g.color))
    && (forall i, j :: 0 <= i < j < |refs| ==> ByName(refs[i].name, refs[i].id, refs[j].name, refs[j].id))
  }

  /** The index holds the group's own name and color, and its vehicles in ascending order. */
  ghost predicate HoldsGroup(idx: Index, g: Group) {
    && g.id in idx.byID && idx.byID[g.id] == GroupRef(g.id, g.name, g.color)
    && g.id in idx.members && StrictlyAscending(idx.members[g.id])
    && forall t :: t in idx.members[g.id] <==> t in g.tokenIDs
  }

  ghost predicate SortedByName(groups: seq<Group>) {
    forall i, j :: 0 <= i < j < |groups| ==> ByName(groups[i].name, groups[i].id, groups[j].name, groups[j].id)
  }

  ghost predicate HoldsOnly(idx: Index, groups: seq<Group>) {
    forall id :: id in idx.byID || id in idx.members ==> exists g :: g in groups && g.id == id
  }

  ghost predicate ListsAll(byToken: map<int, seq<GroupRef>>, groups: seq<Group>) {
    forall t :: ListsGroups(if t in byToken then byToken[t] else [], groups, t)
  }

  /** What the index says of a list of groups. */
  ghost predicate Describes(idx: Index, groups: seq<Group>) {
    && multiset(idx.ordered) == multiset(groups) && SortedByName(idx.ordered)
    && (forall g :: g in groups ==> HoldsGroup(idx, g))
    && HoldsOnly(idx, groups) && ListsAll(idx.byToken, groups)
  }

  lemma IndexDescribes(idx: Index, groups: seq<Group>)
    requires UniqueIds(groups) && idx.ordered == SortGroups(groups) && Indexes(idx, idx.ordered)
    ensures Describes(idx, groups)
  {
    SortOrders(groups);
    InOrderIs(idx.ordered);
    IndexHolds(idx, groups);
    IndexHoldsOnly(idx, groups);
    IndexLists(idx, groups);
  }

  lemma IndexHolds(idx: Index, groups: seq<Group>)
    requires idx.ordered == SortGroups(groups) && AllHeld(idx.byID, idx.members, idx.ordered)
    ensures forall g :: g in groups ==> HoldsGroup(idx, g)
  {
    forall g | g in groups ensures HoldsGroup(idx, g) { assert Held(idx.byID, idx.members, g); }
  }

  lemma IndexHoldsOnly(idx: Index, groups: seq<Group>)
    requires idx.ordered == SortGroups(groups) && SameKeys(idx.byID, idx.members) && AllNamed(idx.members, idx.ordered)
    ensures HoldsOnly(idx, groups)
  {
    forall id | id in idx.byID || id in idx.members ensures exists g :: g in groups && g.id == id {
      assert id in idx.byID.Keys <==> id in idx.members.Keys;
      assert Named(idx.ordered, id);
    }
  }

  lemma IndexLists(idx: Index, groups: seq<Group>)
    requires UniqueIds(groups) && TokensIndexed(idx.byToken, SortGroups(groups))
    ensures ListsAll(idx.byToken, groups)
  {
    forall t ensures ListsGroups(if t in idx.byToken then idx.byToken[t] else [], groups, t) {
      assert Lookup(idx.byToken, t) == GroupsOf(SortGroups(groups), t);
      VehicleListed(groups, t);
    }
  }

  lemma InOrderIs(groups: seq<Group>)
    requires InOrder(groups)
    ensures SortedByName(groups)
  {
  }

  lemma VehicleListed(groups: seq<Group>, t: int)
    requires UniqueIds(groups)
    ensures ListsGroups(GroupsOf(SortGroups(groups), t), groups, t)
  {
    var ordered := SortGroups(groups);
    SortOrders(groups);
    GroupsOfMembers(ordered, t);
    var its := GroupsOfInOrder(ordered, t);
    var refs := GroupsOf(ordered, t);
    InOrderIs(its);
    forall i, j | 0 <= i < j < |refs| ensures ByName(refs[i].name, refs[i].id, refs[j].name, refs[j].id) {
      assert refs[i] == RefOf(its[i]) && refs[j] == RefOf(its[j]);
    }
  }

  method NewGroupIndex(groups: seq<Group>) returns (idx: Index)
    ensures idx.ordered == SortGroups(groups)
    ensures UniqueIds(groups) ==> InOrder(idx.ordered) && UniqueIds(idx.ordered) && Indexes(idx, idx.ordered)
    ensures UniqueIds(groups) ==> Describes(idx, groups)
  {
    var ordered := SortGroups(groups);
    if UniqueIds(groups) { SortOrders(groups); }
    var byID: map<string, GroupRef> := map[];
    var members: map<string, seq<int>> := map[];
    var byToken: map<int, seq<GroupRef>> := map[];
    for i := 0 to |ordered|
      invariant TokensIndexed(byToken, ordered[..i])
      invariant UniqueIds(ordered) ==> IdsIndexed(byID, members, ordered[..i])
    {
      var g := ordered[i];
      TakeNext(ordered, i);
      var ref := GroupRef(g.id, g.name, g.color);
      var ids := SortedSet(g.tokenIDs);
      if UniqueIds(ordered) { NextIds(byID, members, ordered, i); }
      byID := byID[g.id := ref];
      members := members[g.id := ids];
      ghost var before := byToken;
      byToken := AddToTokens(byToken, ids, ref);
      TokensStep(before, byToken, ordered[..i], g);
    }
    assert ordered[..|ordered|] == ordered;
    idx := Index(ordered, byID, members, byToken);
    if UniqueIds(groups) { IndexDescribes(idx, groups); }
  }

  /** Appends the group to the list of each of its vehicles. */
  method AddToTokens(byToken: map<int, seq<GroupRef>>, ids: seq<int>, ref: GroupRef) returns (out: map<int, seq<GroupRef>>)
    requires StrictlyAscending(ids)
    ensures forall t :: Lookup(out, t) == if t in ids then Lookup(byToken, t) + [ref] else Lookup(byToken, t)
  {
    out := byToken;
    for k := 0 to |ids|
      invariant forall t :: Lookup(out, t) == if t in ids[..k] then Lookup(byToken, t) + [ref] else Lookup(byToken, t)
    {
      TakeNext(ids, k);
      assert ids[k] !in ids[..k];
      out := out[ids[k] := Lookup(out, ids[k]) + [ref]];
    }
    assert ids[..|ids|] == ids;
  }

  lemma TokensStep(before: map<int, seq<GroupRef>>, after: map<int, seq<GroupRef>>, groups: seq<Group>, g: Group)
    requires TokensIndexed(before, groups)
    requires forall t :: Lookup(after, t) == if t in SortedSet(g.tokenIDs) then Lookup(before, t) + [RefOf(g)] else Lookup(before, t)
    ensures TokensIndexed(after, groups + [g])
  {
    assert (groups + [g])[..|groups|] == groups;
  }

  ghost predicate Named(groups: seq<Group>, id: string) {
    exists g :: g in groups && g.id == id
  }

  lemma NamedStep(groups: seq<Group>, g: Group, id: string)
    ensures Named(groups + [g], id) <==> Named(groups, id) || id == g.id
  {
    if Named(groups, id) {
      var h :| h in groups && h.id == id;
      assert h in groups + [g];
    }
    assert g in groups + [g];
  }

  lemma HeldStays(byID: map<string, GroupRef>, members: map<string, seq<int>>, h: Group, id: string, ref: GroupRef, ids: seq<int>)
    requires Held(byID, members, h) && h.id != id
    ensures Held(byID[id := ref], members[id := ids], h)
  {
  }

  lemma HeldStep(byID: map<string, GroupRef>, members: map<string, seq<int>>, groups: seq<Group>, g: Group)
    requires AllHeld(byID, members, groups) && forall h :: h in groups ==> h.id != g.id
    ensures AllHeld(byID[g.id := RefOf(g)], members[g.id := SortedSet(g.tokenIDs)], groups + [g])
  {
    forall h | h in groups + [g] ensures Held(byID[g.id := RefOf(g)], members[g.id := SortedSet(g.tokenIDs)], h) {
      if h in groups { HeldStays(byID, members, h, g.id, RefOf(g), SortedSet(g.tokenIDs)); }
    }
  }

  lemma IdsStep(byID: map<string, GroupRef>, members: map<string, seq<int>>, groups: seq<Group>, g: Group)
    requires IdsIndexed(byID, members, groups) && forall h :: h in groups ==> h.id != g.id
    ensures IdsIndexed(byID[g.id := RefOf(g)], members[g.id := SortedSet(g.tokenIDs)], groups + [g])
  {
    HeldStep(byID, members, groups, g);
    assert AllNamed(members[g.id := SortedSet(g.tokenIDs)], groups + [g]) by {
      forall id | id in members[g.id := SortedSet(g.tokenIDs)] ensures Named(groups + [g], id) { NamedStep(groups, g, id); }
    }
    assert SameKeys(byID[g.id := RefOf(g)], members[g.id := SortedSet(g.tokenIDs)]);
  }

  lemma NextIds(byID: map<string, GroupRef>, members: map<string, seq<int>>, groups: seq<Group>, i: nat)
    requires UniqueIds(groups) && i < |groups| && IdsIndexed(byID, members, groups[..i])
    ensures IdsIndexed(byID[groups[i].id := RefOf(groups[i])], members[groups[i].id := SortedSet(groups[i].tokenIDs)], groups[..i + 1])
  {
    TakeNext(groups, i);
    forall h | h in groups[..i] ensures h.id != groups[i].id { }
    IdsStep(byID, members, groups[..i], groups[i]);
  }

  // ---- lookups ----

  /** The union of the named groups' members. */
  ghost predicate InUnion(groups: seq<Group>, groupIDs: seq<string>, t: int) {
    exists g :: g in groups && g.id in groupIDs && t in g.tokenIDs
  }

  function MembersOf(idx: Index, id: string): seq<int> {
    if id in idx.members then idx.members[id] else []
  }

  /** Never missing: an empty answer is a member who reaches no vehicle. */
  method TokenIDsForGroups(idx: Index, groupIDs: seq<string>) returns (out: seq<int>)
    ensures StrictlyAscending(out)
    ensures forall t :: t in out <==> exists id :: id in groupIDs && t in MembersOf(idx, id)
  {
    var all: seq<int> := [];
    for i := 0 to |groupIDs|
      invariant forall t :: t in all <==> exists id :: id in groupIDs[..i] && t in MembersOf(idx, id)
    {
      TakeNext(groupIDs, i);
      var before := all;
      all := all + MembersOf(idx, groupIDs[i]);
      forall t ensures t in all <==> exists id :: id in groupIDs[..i + 1] && t in MembersOf(idx, id) {
        if id :| id in groupIDs[..i] && t in MembersOf(idx, id) { assert id in groupIDs[..i + 1]; }
        assert groupIDs[i] in groupIDs[..i + 1];
      }
    }
    assert groupIDs[..|groupIDs|] == groupIDs;
    CompactAscends(Sort(all));
    out := Compact(Sort(all));
  }

  method VehicleInGroups(idx: Index, token: int, groupIDs: seq<string>) returns (found: bool)
    ensures found <==> exists ref :: ref in Lookup(idx.byToken, token) && ref.id in groupIDs
  {
    var refs := Lookup(idx.byToken, token);
    for i := 0 to |refs|
      invariant forall j :: 0 <= j < i ==> refs[j].id !in groupIDs
    {
      if refs[i].id in groupIDs {
        return true;
      }
    }
    return false;
  }

  lemma {:induction false} GroupsOfMembers(groups: seq<Group>, t: int)
    ensures forall ref :: ref in GroupsOf(groups, t) <==> exists g :: g in groups && t in g.tokenIDs && ref == RefOf(g)
  {
    if groups != [] {
      var init, last := groups[..|groups| - 1], groups[|groups| - 1];
      GroupsOfMembers(init, t);
      assert groups == init + [last];
      forall ref ensures ref in GroupsOf(groups, t) <==> exists g :: g in groups && t in g.tokenIDs && ref == RefOf(g) {
        if g :| g in groups && t in g.tokenIDs && ref == RefOf(g) { assert g in init || g == last; }
        if ref in GroupsOf(init, t) { var g :| g in init && t in g.tokenIDs && ref == RefOf(g); assert g in groups; }
      }
    }
  }

  lemma TokenLookupIsUnion(idx: Index, groups: seq<Group>, groupIDs: seq<string>, t: int)
    requires Indexes(idx, groups)
    ensures (exists ref :: ref in Lookup(idx.byToken, t) && ref.id in groupIDs) <==> InUnion(groups, groupIDs, t)
  {
    GroupsOfMembers(groups, t);
    if ref :| ref in Lookup(idx.byToken, t) && ref.id in groupIDs {
      var g :| g in groups && t in g.tokenIDs && ref == RefOf(g);
    }
    if g :| g in groups && g.id in groupIDs && t in g.tokenIDs {
      assert RefOf(g) in Lookup(idx.byToken, t);
    }
  }

  lemma GroupLookupIsUnion(idx: Index, groups: seq<Group>, groupIDs: seq<string>, t: int)
    requires Indexes(idx, groups)
    ensures (exists id :: id in groupIDs && t in MembersOf(idx, id)) <==> InUnion(groups, groupIDs, t)
  {
    if id :| id in groupIDs && t in MembersOf(idx, id) {
      var g :| g in groups && g.id == id;
      assert t in SortedSet(g.tokenIDs);
    }
    if g :| g in groups && g.id in groupIDs && t in g.tokenIDs {
      assert t in MembersOf(idx, g.id);
    }
  }

  /** Asking for a vehicle's groups and asking for the groups' vehicles agree, for any group ids. */
  lemma LookupsAgree(idx: Index, groups: seq<Group>, groupIDs: seq<string>, t: int)
    requires Indexes(idx, groups)
    ensures (exists ref :: ref in Lookup(idx.byToken, t) && ref.id in groupIDs)
            <==> (exists id :: id in groupIDs && t in MembersOf(idx, id))
  {
    TokenLookupIsUnion(idx, groups, groupIDs, t);
    GroupLookupIsUnion(idx, groups, groupIDs, t);
  }

  /** A vehicle's groups come once each and in the order of names, then ids. */
  lemma {:induction false} GroupsOfInOrder(groups: seq<Group>, t: int) returns (its: seq<Group>)
    requires InOrder(groups) && UniqueIds(groups)
    ensures InOrder(its) && |its| == |GroupsOf(groups, t)|
    ensures forall i :: 0 <= i < |its| ==> its[i] in groups && t in its[i].tokenIDs && GroupsOf(groups, t)[i] == RefOf(its[i])
    ensures forall i, j :: 0 <= i < j < |GroupsOf(groups, t)| ==> GroupsOf(groups, t)[i].id != GroupsOf(groups, t)[j].id
  {
    if groups == [] {
      its := [];
    } else {
      var init, last := groups[..|groups| - 1], groups[|groups| - 1];
      its := GroupsOfInOrder(init, t);
      assert groups == init + [last];
      forall g | g in init ensures Before(g, last) && g.id != last.id { }
      if t in last.tokenIDs { its := its + [last]; }
    }
  }

  /** The count of a group-scoped fence counts a vehicle in two of its groups once. */
  lemma CountIsUnionSize(idx: Index, groups: seq<Group>, groupIDs: seq<string>, out: seq<int>, union: set<int>)
    requires Indexes(idx, groups)
    requires StrictlyAscending(out) && forall t :: t in out <==> exists id :: id in groupIDs && t in MembersOf(idx, id)
    requires forall t :: t in union <==> InUnion(groups, groupIDs, t)
    ensures |out| == |union|
  {
    forall t ensures t in out <==> t in union { GroupLookupIsUnion(idx, groups, groupIDs, t); }
    AscendingCount(out, union);
  }
}
