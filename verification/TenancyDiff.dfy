/** The comparison of a local membership with the shared service's answer, decided by the order of access. */
module TenancyDiff {
  import opened Wrappers
  import opened Text
  import opened Membership
  import Sorting

  /** unrestricted is told apart from an empty list of groups. */
  datatype LocalAccess = LocalAccess(role: string, permissions: seq<string>, unrestricted: bool, scopeGroups: seq<string>)
  datatype Authz = Authz(via: string, role: string, permissions: seq<string>, scopeGroupIDs: Option<seq<string>>)
  datatype Verdict = Agree | RoleDiffers | RemoteExtra | Differ | MissingRemote

  function FleetLiteLocalAccess(role: string, allowed: Scope): LocalAccess {
    LocalAccess(role, if role == ROLE_OWNER then ["manage_members", "manage_settings"] else [],
                allowed.None?, if allowed.None? then [] else allowed.value)
  }

  // ---- normalized sets ----

  function Normal(s: string): string { ToLower(TrimSpace(s)) }

  ghost function Normalized(input: seq<string>): set<string> {
    set s | s in input && Normal(s) != "" :: Normal(s)
  }

  /** Lowercases, trims, drops empties and duplicates, and sorts. */
  method NormalizeSet(input: seq<string>) returns (out: seq<string>)
    ensures Sorted(out) && forall x :: x in out <==> x in Normalized(input)
  {
    var seen: set<string> := {};
    out := [];
    for i := 0 to |input|
      invariant Sorted(out) && (forall x :: x in out <==> x in Normalized(input[..i]))
      invariant forall x :: x in seen <==> x in out
    {
      var s := Normal(input[i]);
      TakeNext(input, i);
      NormalizedStep(input[..i], input[i]);
      if s == "" || s in seen {
        continue;
      }
      seen := seen + {s};
      InsertKeepsSorted(s, out);
      out := Sorting.Insert(s, out, Less);
    }
    assert input[..|input|] == input;
  }

  lemma NormalizedStep(input: seq<string>, s: string)
    ensures Normalized(input + [s]) == Normalized(input) + (if Normal(s) == "" then {} else {Normal(s)})
  {
    assert forall t :: t in input + [s] <==> t in input || t == s;
  }

  /** The members of a that are not in b. */
  method SetDifference(a: seq<string>, b: seq<string>) returns (out: seq<string>)
    ensures forall x :: x in out <==> x in a && x !in b
    ensures Sorted(a) ==> Sorted(out)
  {
    var inB: set<string> := set x | x in b;
    out := [];
    for i := 0 to |a|
      invariant forall x :: x in out <==> x in a[..i] && x !in b
      invariant Sorted(a) ==> Sorted(out)
    {
      TakeNext(a, i);
      if a[i] !in inB {
        if Sorted(a) {
          forall k | 0 <= k < |out| ensures Less(out[k], a[i]) { assert out[k] in out; }
        }
        out := out + [a[i]];
      }
    }
    assert a[..|a|] == a;
  }

  // ---- the access order ----

  /** What a record lets a wallet do; a scope of None reaches every group. */
  datatype Access = Access(permissions: set<string>, scope: Option<set<string>>)

  ghost predicate ScopeWithin(a: Option<set<string>>, b: Option<set<string>>) {
    b.None? || (a.Some? && a.value <= b.value)
  }

  ghost predicate Within(a: Access, b: Access) {
    a.permissions <= b.permissions && ScopeWithin(a.scope, b.scope)
  }

  ghost function LocalGrants(local: LocalAccess): Access {
    Access(Normalized(local.permissions), if local.unrestricted then None else Some(Normalized(local.scopeGroups)))
  }

  ghost function RemoteGrants(remote: Authz): Access {
    Access(Normalized(remote.permissions),
           if remote.scopeGroupIDs.None? then None else Some(Normalized(remote.scopeGroupIDs.value)))
  }

  lemma WithinIsPartialOrder(a: Access, b: Access, c: Access)
    ensures Within(a, a)
    ensures Within(a, b) && Within(b, a) ==> a == b
    ensures Within(a, b) && Within(b, c) ==> Within(a, c)
  {
    if Within(a, b) && Within(b, a) {
      assert a.permissions == b.permissions;
      assert a.scope.Some? ==> a.scope.value == b.scope.value;
    }
  }

  /** The verdict in terms of the order: less is a difference, more is expected, equal is agreement. */
  ghost function OrderVerdict(local: LocalAccess, remote: Option<Authz>): Verdict {
    if remote.None? || remote.value.via == "none" then MissingRemote
    else
      var l, r := LocalGrants(local), RemoteGrants(remote.value);
      if !Within(l, r) then Differ
      else if l != r then RemoteExtra
      else if EqualFold(local.role, remote.value.role) then Agree else RoleDiffers
  }

  /** The list names x, whatever the case and the blanks around. */
  ghost predicate Names(list: seq<string>, x: string) {
    exists y :: y in list && EqualFold(TrimSpace(y), TrimSpace(x))
  }

  /** Something of the first list, blanks aside, is not in the second. */
  ghost predicate Misses(list: seq<string>, other: seq<string>) {
    exists x :: x in list && TrimSpace(x) != "" && !Names(other, x)
  }

  /** The local member could do something, or reach something, that the shared record does not grant. */
  ghost predicate Loses(local: LocalAccess, remote: Authz) {
    || Misses(local.permissions, remote.permissions)
    || (remote.scopeGroupIDs.Some? && (local.unrestricted || Misses(local.scopeGroups, remote.scopeGroupIDs.value)))
  }

  /** The shared record grants something, or reaches something, that the local member had not. */
  ghost predicate Gains(local: LocalAccess, remote: Authz) {
    || Misses(remote.permissions, local.permissions)
    || (!local.unrestricted && (remote.scopeGroupIDs.None? || Misses(remote.scopeGroupIDs.value, local.scopeGroups)))
  }

  lemma LowerEmpty(s: string)
    ensures ToLower(s) == "" <==> s == ""
  {
  }

  lemma MissesIff(list: seq<string>, other: seq<string>)
    ensures Misses(list, other) <==> !(Normalized(list) <= Normalized(other))
  {
    if x :| x in list && TrimSpace(x) != "" && !Names(other, x) {
      LowerEmpty(TrimSpace(x));
      assert Normal(x) in Normalized(list);
      forall y | y in other ensures Normal(y) != Normal(x) { assert !EqualFold(TrimSpace(y), TrimSpace(x)); }
    }
    if !(Normalized(list) <= Normalized(other)) {
      var n :| n in Normalized(list) && n !in Normalized(other);
      var x :| x in list && Normal(x) != "" && Normal(x) == n;
      LowerEmpty(TrimSpace(x));
      forall y | y in other ensures !EqualFold(TrimSpace(y), TrimSpace(x)) { assert Normal(y) == n ==> n in Normalized(other); }
    }
  }

  /** The verdict by what a wallet would lose or gain. */
  lemma OrderVerdictIs(local: LocalAccess, remote: Option<Authz>)
    ensures var v := OrderVerdict(local, remote);
            if remote.None? || remote.value.via == "none" then v == MissingRemote
            else if Loses(local, remote.value) then v == Differ
            else if Gains(local, remote.value) then v == RemoteExtra
            else if EqualFold(local.role, remote.value.role) then v == Agree
            else v == RoleDiffers
  {
    if remote.Some? {
      var r := remote.value;
      MissesIff(local.permissions, r.permissions);
      MissesIff(r.permissions, local.permissions);
      if r.scopeGroupIDs.Some? {
        MissesIff(local.scopeGroups, r.scopeGroupIDs.value);
        MissesIff(r.scopeGroupIDs.value, local.scopeGroups);
      }
      WithinIff(local, r);
    }
  }

  lemma WithinIff(local: LocalAccess, remote: Authz)
    ensures Within(LocalGrants(local), RemoteGrants(remote)) && Within(RemoteGrants(remote), LocalGrants(local)) <==>
              LocalGrants(local) == RemoteGrants(remote)
  {
    WithinIsPartialOrder(LocalGrants(local), RemoteGrants(remote), LocalGrants(local));
  }

  method CompareScope(local: LocalAccess, remote: Authz) returns (v: Verdict)
    ensures v == if !ScopeWithin(LocalGrants(local).scope, RemoteGrants(remote).scope) then Differ
                 else if LocalGrants(local).scope != RemoteGrants(remote).scope then RemoteExtra else Agree
  {
    var remoteUnrestricted := remote.scopeGroupIDs.None?;
    if local.unrestricted && remoteUnrestricted {
      return Agree;
    }
    if local.unrestricted && !remoteUnrestricted {
      return Differ;
    }
    if !local.unrestricted && remoteUnrestricted {
      return RemoteExtra;
    }
    var localSet := NormalizeSet(local.scopeGroups);
    var remoteSet := NormalizeSet(remote.scopeGroupIDs.value);
    var missing := SetDifference(localSet, remoteSet);
    var extra := SetDifference(remoteSet, localSet);
    DifferenceDecides(localSet, Normalized(local.scopeGroups), remoteSet, Normalized(remote.scopeGroupIDs.value), missing);
    DifferenceDecides(remoteSet, Normalized(remote.scopeGroupIDs.value), localSet, Normalized(local.scopeGroups), extra);
    if |missing| > 0 {
      return Differ;
    }
    if |extra| > 0 {
      return RemoteExtra;
    }
    assert Normalized(local.scopeGroups) == Normalized(remote.scopeGroupIDs.value);
    return Agree;
  }

  lemma DifferenceDecides(a: seq<string>, setA: set<string>, b: seq<string>, setB: set<string>, diff: seq<string>)
    requires forall x :: x in a <==> x in setA
    requires forall x :: x in b <==> x in setB
    requires forall x :: x in diff <==> x in a && x !in b
    ensures |diff| == 0 <==> setA <= setB
  {
    if |diff| > 0 { assert diff[0] in diff; }
  }

  method CompareAccess(local: LocalAccess, remote: Option<Authz>) returns (v: Verdict)
    ensures v == OrderVerdict(local, remote)
    ensures v == MissingRemote <==> remote.None? || remote.value.via == "none"
    ensures v != MissingRemote ==>
              && (v == Differ <==> Loses(local, remote.value))
              && (v == RemoteExtra <==> !Loses(local, remote.value) && Gains(local, remote.value))
              && (v == Agree ==> EqualFold(local.role, remote.value.role))
              && (v == RoleDiffers ==> !EqualFold(local.role, remote.value.role))
  {
    OrderVerdictIs(local, remote);
    if remote.None? || remote.value.via == "none" {
      return MissingRemote;
    }
    var localPerms := NormalizeSet(local.permissions);
    var remotePerms := NormalizeSet(remote.value.permissions);
    var missing := SetDifference(localPerms, remotePerms);
    var extra := SetDifference(remotePerms, localPerms);
    DifferenceDecides(localPerms, Normalized(local.permissions), remotePerms, Normalized(remote.value.permissions), missing);
    DifferenceDecides(remotePerms, Normalized(remote.value.permissions), localPerms, Normalized(local.permissions), extra);
    var scopeVerdict := CompareScope(local, remote.value);
    if scopeVerdict == Differ {
      return Differ;
    }
    if |missing| > 0 {
      return Differ;
    }
    if |extra| > 0 || scopeVerdict == RemoteExtra {
      return RemoteExtra;
    }
    if !EqualFold(local.role, remote.value.role) {
      return RoleDiffers;
    }
    return Agree;
  }

  /** What the shared service answers for a wallet it holds a membership of. */
  function AuthzOf(m: RemoteMember): Authz {
    Authz("direct", m.role, m.permissions, m.scope)
  }

  /**
   After any completed grant the diff tool finds nobody losing access: the verdict is never differ or missing-remote,
   whatever the shared record held before.
   */
  lemma GrantNeverDiffers(p: Records, role: string, allowed: Scope, calls: Calls)
    requires Grant(p, true, role, allowed, calls).outcome == Done
    ensures var q := Grant(p, true, role, allowed, calls).after;
            && q.local.Some? && q.remote.Some?
            && OrderVerdict(FleetLiteLocalAccess(q.local.value.role, q.local.value.allowed), Some(AuthzOf(q.remote.value)))
               in {Agree, RoleDiffers, RemoteExtra}
  {
    var q := Grant(p, true, role, allowed, calls).after;
    var local, remote := q.local.value, q.remote.value;
    assert forall c :: c in FleetLiteLocalAccess(local.role, local.allowed).permissions ==> c in remote.permissions;
    assert local.allowed == remote.scope;
  }

  ghost function GroupsOf(scope: Scope): Option<set<string>> {
    if scope.None? then None else Some(Normalized(scope.value))
  }

  /**
   After a completed scope edit of a local member the tool finds a loss exactly when the edit could not read the row
   it was to change: the old local scope then reaches further than the new shared one, or an owner's capabilities,
   which the shared record lacked, were not restored.
   */
  lemma ScopeEditDiffersIff(p: Records, allowed: Scope, calls: Calls)
    requires p.local.Some? && ChangeScope(p, true, allowed, calls).outcome == Done
    ensures var q := ChangeScope(p, true, allowed, calls).after;
            && q.local.Some? && q.remote.Some?
            && (OrderVerdict(FleetLiteLocalAccess(q.local.value.role, q.local.value.allowed), Some(AuthzOf(q.remote.value)))
                  in {Differ, MissingRemote}
                <==> || (!calls.localRead && !ScopeWithin(GroupsOf(p.local.value.allowed), GroupsOf(allowed)))
                     || (!calls.roleRead && !(Normalized(RolePermissions(p.local.value.role)) <= SharedPermissions(p.remote))))
  {
    var q := ChangeScope(p, true, allowed, calls).after;
    var local, remote := q.local.value, q.remote.value;
    assert FleetLiteLocalAccess(local.role, local.allowed).permissions == RolePermissions(p.local.value.role);
    if calls.roleRead {
      assert forall c :: c in RolePermissions(local.role) ==> c in remote.permissions;
    } else {
      assert Normalized(remote.permissions) == SharedPermissions(p.remote);
    }
  }

  ghost function SharedPermissions(remote: Option<RemoteMember>): set<string> {
    if remote.None? then {} else Normalized(remote.value.permissions)
  }
}
