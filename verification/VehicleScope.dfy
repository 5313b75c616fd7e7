/** Which vehicles a caller reaches, and how a tenant's rows follow its entitlements. */
module VehicleScope {
  import opened Wrappers
  import opened TokenLists
  import opened GroupIndex

  /** The membership gate: not wired, not answering, not enforced, or the paid-for vehicles. */
  datatype Gate = NoGate | Unavailable | Unenforced | Active(tokenIDs: seq<int>)

  predicate Passes(gate: Gate, t: int) {
    gate.Active? ==> t in gate.tokenIDs
  }

  /** The vehicle is a member of one of the groups, by the index's table of members. */
  predicate InGroups(idx: Index, allowed: seq<string>, t: int) {
    exists id :: id in allowed && id in idx.members && t in idx.members[id]
  }

  lemma InGroupsIff(idx: Index, allowed: seq<string>, t: int)
    ensures InGroups(idx, allowed, t) <==> exists id :: id in allowed && t in MembersOf(idx, id)
  {
    if id :| id in allowed && t in MembersOf(idx, id) { assert id in idx.members && t in idx.members[id]; }
    if id :| id in allowed && id in idx.members && t in idx.members[id] { assert t in MembersOf(idx, id); }
  }

  lemma AllInGroups(idx: Index, allowed: seq<string>, tokens: seq<int>)
    requires forall t :: t in tokens <==> exists id :: id in allowed && t in MembersOf(idx, id)
    ensures forall t :: t in tokens <==> InGroups(idx, allowed, t)
  {
    forall t ensures t in tokens <==> InGroups(idx, allowed, t) { InGroupsIff(idx, allowed, t); }
  }

  /** Narrows the set to active memberships; an unavailable answer fails instead of letting everything through. */
  method IntersectActiveMemberships(gate: Gate, tokens: set<int>) returns (ok: bool, out: set<int>)
    ensures ok == !gate.Unavailable?
    ensures ok ==> forall t :: t in out <==> t in tokens && (gate.Active? ==> t in gate.tokenIDs)
  {
    match gate
    case NoGate => return true, tokens;
    case Unavailable => return false, {};
    case Unenforced => return true, tokens;
    case Active(tokenIDs) =>
      var active := set t | t in tokenIDs;
      out := KeepIn(tokens, active);
      ok := true;
  }

  /** Deletes the members that are not to be kept, one by one. */
  method KeepIn(tokens: set<int>, keep: set<int>) returns (out: set<int>)
    ensures out == tokens * keep
  {
    out := tokens;
    var todo := tokens;
    while todo != {}
      invariant todo <= tokens
      invariant out == tokens - ((tokens - todo) - keep)
      decreases todo
    {
      var t := PickAny(todo);
      todo := todo - {t};
      if t !in keep {
        out := out - {t};
      }
    }
  }

  method SortedList(tokens: set<int>) returns (out: seq<int>)
    ensures StrictlyAscending(out) && forall t :: t in out <==> t in tokens
  {
    var list: seq<int> := [];
    var todo := tokens;
    while todo != {}
      invariant todo <= tokens
      invariant forall t :: t in list <==> t in tokens && t !in todo
      decreases todo
    {
      var t := PickAny(todo);
      list := list + [t];
      todo := todo - {t};
    }
    out := SortedSet(list);
  }

  /**
   entitled, narrowed by the gate, narrowed by the caller's groups when the caller is limited. allowed is None for an
   unrestricted caller; an empty list reaches nothing. A leg that cannot be read gives no set at all.
   */
  method ResolveTokenSet(entitled: Option<seq<int>>, gate: Gate, idx: Option<Index>, allowed: Option<seq<string>>)
    returns (out: Option<seq<int>>)
    ensures out.Some? <==> entitled.Some? && !gate.Unavailable? && (allowed.Some? ==> idx.Some?)
    ensures out.Some? ==> StrictlyAscending(out.value)
    ensures out.Some? ==> forall t :: t in out.value <==>
              && t in entitled.value && (gate.Active? ==> t in gate.tokenIDs)
              && (allowed.Some? ==> InGroups(idx.value, allowed.value, t))
  {
    if entitled.None? {
      return None;
    }
    var reached := set t | t in entitled.value;
    var ok, narrowed := IntersectActiveMemberships(gate, reached);
    if !ok {
      return None;
    }
    if allowed.Some? {
      if idx.None? {
        return None;
      }
      var tokens := TokenIDsForGroups(idx.value, allowed.value);
      AllInGroups(idx.value, allowed.value, tokens);
      narrowed := KeepIn(narrowed, set t | t in tokens);
    }
    var list := SortedList(narrowed);
    return Some(list);
  }

  /** The vehicles a limited member may touch. */
  method AccessibleTokenIDs(idx: Option<Index>, gate: Gate, allowed: seq<string>) returns (out: Option<set<int>>)
    ensures out.Some? <==> idx.Some? && !gate.Unavailable?
    ensures out.Some? ==> forall t :: t in out.value <==>
              InGroups(idx.value, allowed, t) && (gate.Active? ==> t in gate.tokenIDs)
  {
    if idx.None? {
      return None;
    }
    var tokens := TokenIDsForGroups(idx.value, allowed);
    AllInGroups(idx.value, allowed, tokens);
    var ok, reached := IntersectActiveMemberships(gate, set t | t in tokens);
    return if ok then Some(reached) else None;
  }

  /** One vehicle by token; a token outside the listed set is not found, whether or not it exists. */
  method GetResolvedVehicle(entitled: Option<seq<int>>, gate: Gate, idx: Option<Index>, allowed: Option<seq<string>>, token: int)
    returns (found: Option<bool>)
    ensures found.Some? <==> entitled.Some? && !gate.Unavailable? && (allowed.Some? ==> idx.Some?)
    ensures found.Some? ==> (found.value <==> token in entitled.value && (gate.Active? ==> token in gate.tokenIDs)
                                              && (allowed.Some? ==> InGroups(idx.value, allowed.value, token)))
  {
    var tokens := ResolveTokenSet(entitled, gate, idx, allowed);
    if tokens.None? {
      return None;
    }
    for i := 0 to |tokens.value|
      invariant token !in tokens.value[..i]
    {
      TakeNext(tokens.value, i);
      if tokens.value[i] == token {
        return Some(true);
      }
    }
    assert tokens.value[..|tokens.value|] == tokens.value;
    return Some(false);
  }

  /** For a limited caller the listed set is the entitled part of what the caller may touch. */
  method ListedIsAccessible(entitled: Option<seq<int>>, gate: Gate, idx: Option<Index>, allowed: seq<string>)
    returns (listed: Option<seq<int>>, accessible: Option<set<int>>)
    ensures listed.Some? <==> entitled.Some? && accessible.Some?
    ensures listed.Some? ==> forall t :: t in listed.value <==> t in entitled.value && t in accessible.value
  {
    listed := ResolveTokenSet(entitled, gate, idx, Some(allowed));
    accessible := AccessibleTokenIDs(idx, gate, allowed);
  }

  // ---- the entitlement sync ----

  function Elems(s: seq<int>): set<int> {
    set t | t in s
  }

  /** Handling one node moves it from wanted to handled; a repeated node is not wanted any more. */
  lemma HandleNext(entitled: set<int>, vehicles: seq<int>, i: nat, handled: set<int>)
    requires i < |vehicles| && handled == entitled * Elems(vehicles[..i])
    ensures vehicles[i] in entitled - handled ==>
              entitled * Elems(vehicles[..i + 1]) == handled + {vehicles[i]} && |handled + {vehicles[i]}| == |handled| + 1
    ensures vehicles[i] !in entitled - handled ==> entitled * Elems(vehicles[..i + 1]) == handled
    ensures handled <= entitled * Elems(vehicles) && (vehicles[i] in entitled ==> vehicles[i] in entitled * Elems(vehicles))
  {
    TakeNext(vehicles, i);
    assert Elems(vehicles[..i + 1]) == Elems(vehicles[..i]) + {vehicles[i]};
  }

  /** What the sync reads and which of its writes get through. */
  datatype SyncCalls = SyncCalls(
    explicitMode: Option<bool>,
    entitlements: Option<seq<int>>,
    credential: bool,
    privileged: Option<seq<int>>,
    upsertFails: set<int>,
    prunes: bool)

  /** Everything the upserts need could be read. */
  ghost predicate Reaches(calls: SyncCalls) {
    && calls.explicitMode == Some(true) && calls.entitlements.Some?
    && (calls.entitlements.value != [] ==> calls.credential && calls.privileged.Some?)
  }

  /** The sync completes: the reads do, the upserts of the entitled vehicles in sight do, and the prune does. */
  ghost predicate Syncs(calls: SyncCalls) {
    && Reaches(calls) && calls.prunes
    && (calls.entitlements.value != [] ==>
          forall t :: t in calls.entitlements.value && t in calls.privileged.value ==> t !in calls.upsertFails)
  }

  ghost predicate NoneFails(tokens: set<int>, fails: set<int>) {
    forall t :: t in tokens ==> t !in fails
  }

  lemma NextFails(tokens: set<int>, all: set<int>, t: int, fails: set<int>)
    ensures NoneFails(tokens, fails) && t !in fails ==> NoneFails(tokens + {t}, fails)
    ensures t in all && t in fails ==> !NoneFails(all, fails)
  {
  }

  lemma NoneFailsIff(entitled: seq<int>, vehicles: seq<int>, fails: set<int>)
    ensures NoneFails(Elems(entitled) * Elems(vehicles), fails) <==>
              forall t :: t in entitled && t in vehicles ==> t !in fails
  {
  }

  class VehicleRows {
    var local: set<int>

    constructor (local: set<int>)
      ensures this.local == local
    {
      this.local := local;
    }

    /** The upsert loop: every wanted vehicle once, however often its node comes up. */
    method UpsertPrivileged(entitled: set<int>, vehicles: seq<int>, fails: set<int>) returns (ok: bool, count: nat)
      modifies this
      ensures ok <==> NoneFails(entitled * Elems(vehicles), fails)
      ensures old(local) <= local <= old(local) + entitled * Elems(vehicles)
      ensures ok ==> local == old(local) + entitled * Elems(vehicles) && count == |entitled * Elems(vehicles)|
    {
      var want := entitled;
      count := 0;
      ghost var handled: set<int> := {};
      for i := 0 to |vehicles|
        invariant handled == entitled * Elems(vehicles[..i]) && NoneFails(handled, fails)
        invariant want == entitled - handled && local == old(local) + handled && count == |handled|
      {
        HandleNext(entitled, vehicles, i, handled);
        var t := vehicles[i];
        NextFails(handled, entitled * Elems(vehicles), t, fails);
        if t !in want {
          continue;
        }
        if t in fails {
          return false, count;
        }
        local := local + {t};
        want := want - {t};
        handled := handled + {t};
        count := count + 1;
      }
      assert vehicles[..|vehicles|] == vehicles;
      ok := true;
    }

    /** Upserts the entitled vehicles the license can see, then prunes the rows outside the entitled set. */
    method SyncEntitledVehicles(calls: SyncCalls) returns (synced: Option<nat>)
      modifies this
      ensures synced.Some? <==> Syncs(calls)
      ensures synced.Some? <==>
                && calls.explicitMode == Some(true) && calls.entitlements.Some? && calls.prunes
                && (calls.entitlements.value != [] ==>
                      && calls.credential && calls.privileged.Some?
                      && forall t :: t in calls.entitlements.value && t in calls.privileged.value ==> t !in calls.upsertFails)
      ensures synced.Some? ==> forall t :: t in local <==>
                t in calls.entitlements.value && (t in old(local) || t in calls.privileged.value)
      ensures synced.Some? ==> var entitled := Elems(calls.entitlements.value);
                               && (entitled != {} ==> calls.privileged.Some?)
                               && local == entitled * (old(local) + Privileged(calls))
                               && synced.value == |entitled * Privileged(calls)|
      ensures synced.None? ==> old(local) <= local
      ensures !Reaches(calls) ==> local == old(local)
    {
      if calls.explicitMode != Some(true) || calls.entitlements.None? {
        return None;
      }
      var entitled := calls.entitlements.value;
      var count: nat := 0;
      if |entitled| > 0 {
        if !calls.credential || calls.privileged.None? {
          return None;
        }
        var ok;
        NoneFailsIff(entitled, calls.privileged.value, calls.upsertFails);
        ok, count := UpsertPrivileged(Elems(entitled), calls.privileged.value, calls.upsertFails);
        if !ok {
          return None;
        }
      }
      assert entitled == [] ==> Elems(entitled) == {};
      if !calls.prunes {
        return None;
      }
      local := set t | t in local && t in entitled;
      return Some(count);
    }
  }

  ghost function Privileged(calls: SyncCalls): set<int> {
    if calls.privileged.None? then {} else Elems(calls.privileged.value)
  }

  // ---- the diff of rows against entitlements ----

  datatype VehicleDiff = VehicleDiff(agree: seq<int>, missingLocal: seq<int>, extraLocal: seq<int>)

  method CompareVehicleSets(entitled: seq<int>, local: seq<int>) returns (d: VehicleDiff)
    ensures StrictlyAscending(d.agree) && StrictlyAscending(d.missingLocal) && StrictlyAscending(d.extraLocal)
    ensures forall t :: t in d.agree <==> t in entitled && t in local
    ensures forall t :: t in d.missingLocal <==> t in entitled && t !in local
    ensures forall t :: t in d.extraLocal <==> t in local && t !in entitled
  {
    var inLocal := set t | t in local;
    var inEntitled := set t | t in entitled;
    var agree, missing: seq<int>, extra: seq<int> := [], [], [];
    var todo := inEntitled;
    while todo != {}
      invariant todo <= inEntitled
      invariant forall t :: t in agree <==> t in inEntitled - todo && t in inLocal
      invariant forall t :: t in missing <==> t in inEntitled - todo && t !in inLocal
      decreases todo
    {
      var t := PickAny(todo);
      todo := todo - {t};
      if t in inLocal {
        agree := agree + [t];
      } else {
        missing := missing + [t];
      }
    }
    assert forall t :: t in agree <==> t in entitled && t in local;
    assert forall t :: t in missing <==> t in entitled && t !in local;
    todo := inLocal;
    while todo != {}
      invariant todo <= inLocal
      invariant forall t :: t in extra <==> t in inLocal - todo && t !in inEntitled
      decreases todo
    {
      var t := PickAny(todo);
      todo := todo - {t};
      if t !in inEntitled {
        extra := extra + [t];
      }
    }
    assert forall t :: t in extra <==> t in local && t !in entitled;
    d := VehicleDiff(SortedSet(agree), SortedSet(missing), SortedSet(extra));
  }

  lemma FirstMember(s: seq<int>) returns (t: int)
    requires s != []
    ensures t in s
  {
    t := s[0];
  }

  /**
   A completed sync leaves the diff nothing extra, and exactly the entitled vehicles missing that neither had a row
   nor can be seen by the license.
   */
  method SyncThenCompare(rows: VehicleRows, calls: SyncCalls) returns (synced: Option<nat>, d: VehicleDiff)
    modifies rows
    ensures synced.Some? <==> Syncs(calls)
    ensures synced.Some? ==> d.extraLocal == []
    ensures synced.Some? ==> forall t :: t in d.missingLocal <==>
              t in calls.entitlements.value && t !in old(rows.local) && t !in Privileged(calls)
  {
    d := VehicleDiff([], [], []);
    synced := rows.SyncEntitledVehicles(calls);
    if synced.Some? {
      var local := SortedList(rows.local);
      d := CompareVehicleSets(calls.entitlements.value, local);
      if d.extraLocal != [] { var t := FirstMember(d.extraLocal); }
    }
  }
}
