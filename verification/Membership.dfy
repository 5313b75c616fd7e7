/** Memberships in two stores: this app's rows and the shared record, written in a fixed order, merged on every write. */
module Membership {
  import opened Wrappers

  const ROLE_OWNER := "owner"
  const ROLE_ADMIN := "admin"
  const ROLE_MEMBER := "member"

  /** A wallet up to letter case. */
  type Wallet = string

  /** None is unrestricted; an empty list is restricted to nothing. */
  type Scope = Option<seq<string>>

  datatype LocalRow = LocalRow(role: string, allowed: Scope)
  datatype RemoteMember = RemoteMember(role: string, permissions: seq<string>, scope: Scope)

  function RolePermissions(role: string): seq<string> {
    if role == ROLE_OWNER then ["manage_members", "manage_settings"] else []
  }

  function RoleRank(role: string): nat {
    if role == ROLE_OWNER then 3 else if role == ROLE_ADMIN then 2 else if role == ROLE_MEMBER then 1 else 0
  }

  // ---- unionStrings ----

  /** The first occurrences, in order. */
  function Dedup(s: seq<string>): (r: seq<string>)
    ensures forall x :: x in r <==> x in s
  {
    if s == [] then []
    else
      var rest, last := Dedup(s[..|s| - 1]), s[|s| - 1];
      assert s == s[..|s| - 1] + [last];
      if last in rest then rest else rest + [last]
  }

  ghost predicate NoDuplicates(s: seq<string>) {
    forall i, j :: 0 <= i < j < |s| ==> s[i] != s[j]
  }

  lemma {:induction false} DedupHasNoDuplicates(s: seq<string>)
    ensures NoDuplicates(Dedup(s))
  {
    if s != [] { DedupHasNoDuplicates(s[..|s| - 1]); }
  }

  /** Once its members are in, adding a list again changes nothing. */
  lemma {:induction false} DedupAbsorbs(s: seq<string>, t: seq<string>)
    requires forall x :: x in t ==> x in s
    ensures Dedup(s + t) == Dedup(s)
  {
    if t == [] {
      assert s + t == s;
    } else {
      assert (s + t)[..|s + t| - 1] == s + t[..|t| - 1];
      DedupAbsorbs(s, t[..|t| - 1]);
    }
  }

  lemma {:induction false} DedupFirst(s: seq<string>, t: seq<string>)
    ensures Dedup(Dedup(s) + t) == Dedup(s + t)
  {
    if t == [] {
      assert Dedup(s) + t == Dedup(s) && s + t == s;
      DedupIdempotent(s);
    } else {
      assert (s + t)[..|s + t| - 1] == s + t[..|t| - 1];
      assert (Dedup(s) + t)[..|Dedup(s) + t| - 1] == Dedup(s) + t[..|t| - 1];
      DedupFirst(s, t[..|t| - 1]);
    }
  }

  /** x is met before y when s is read from the front. */
  ghost predicate MetBefore(s: seq<string>, x: string, y: string) {
    exists k :: 0 <= k < |s| && s[k] == x && forall m :: 0 <= m <= k ==> s[m] != y
  }

  /** r has the members of s, each once, in the order in which they are first met in s. */
  ghost predicate FirstSeen(r: seq<string>, s: seq<string>) {
    && (forall x :: x in r <==> x in s)
    && (forall i, j :: 0 <= i < j < |r| ==> MetBefore(s, r[i], r[j]))
  }

  lemma MetBeforeLast(s: seq<string>, x: string, y: string)
    requires s != []
    ensures var init := s[..|s| - 1];
            && (MetBefore(init, x, y) ==> MetBefore(s, x, y))
            && (x in init && y !in init ==> MetBefore(s, x, y))
            && (MetBefore(s, x, y) && y in s ==> MetBefore(init, x, y))
  {
    var init := s[..|s| - 1];
    assert s == init + [s[|s| - 1]];
    if MetBefore(init, x, y) {
      var k :| 0 <= k < |init| && init[k] == x && forall m :: 0 <= m <= k ==> init[m] != y;
      assert s[k] == x && forall m :: 0 <= m <= k ==> s[m] == init[m];
    }
    if x in init && y !in init {
      var k :| 0 <= k < |init| && init[k] == x;
      assert s[k] == x && forall m :: 0 <= m <= k ==> s[m] == init[m] && init[m] in init;
    }
    if MetBefore(s, x, y) && y in s {
      var k :| 0 <= k < |s| && s[k] == x && forall m :: 0 <= m <= k ==> s[m] != y;
      assert k < |init|;
      assert init[k] == x && forall m :: 0 <= m <= k ==> s[m] == init[m];
    }
  }

  /** A union is its first occurrences, in order, and nothing else is. */
  lemma {:induction false} DedupIsFirstSeen(s: seq<string>, r: seq<string>)
    ensures FirstSeen(r, s) <==> r == Dedup(s)
  {
    if s == [] {
      assert r == [] || r[0] in r;
    } else {
      var init := s[..|s| - 1];
      DedupIsFirstSeen(init, Dedup(init));
      DedupListsFirstSeen(s);
      if FirstSeen(r, s) {
        WithoutLast(s, r);
        DedupIsFirstSeen(init, if s[|s| - 1] in init then r else r[..|r| - 1]);
      }
    }
  }

  lemma DedupListsFirstSeen(s: seq<string>)
    requires s != [] && FirstSeen(Dedup(s[..|s| - 1]), s[..|s| - 1])
    ensures FirstSeen(Dedup(s), s)
  {
    var before, d := Dedup(s[..|s| - 1]), Dedup(s);
    forall i, j | 0 <= i < j < |d| ensures MetBefore(s, d[i], d[j]) {
      assert d[i] == before[i] && before[i] in before;
      assert j < |before| ==> d[j] == before[j];
      MetBeforeLast(s, d[i], d[j]);
    }
  }

  lemma WithoutLast(s: seq<string>, r: seq<string>)
    requires s != [] && FirstSeen(r, s)
    ensures s[|s| - 1] in s[..|s| - 1] ==> FirstSeen(r, s[..|s| - 1])
    ensures s[|s| - 1] !in s[..|s| - 1] ==> r != [] && r == r[..|r| - 1] + [s[|s| - 1]] && FirstSeen(r[..|r| - 1], s[..|s| - 1])
  {
    var init, last := s[..|s| - 1], s[|s| - 1];
    assert s == init + [last];
    assert r[..|r|] == r && last in r;
    var at :| 0 <= at < |r| && r[at] == last;
    if last in init {
      ShorterFirstSeen(s, r, |r|);
    } else {
      LastSeenIsLast(s, r, at);
      ShorterFirstSeen(s, r, at);
    }
  }

  lemma LastSeenIsLast(s: seq<string>, r: seq<string>, at: nat)
    requires s != [] && FirstSeen(r, s) && s[|s| - 1] !in s[..|s| - 1] && at < |r| && r[at] == s[|s| - 1]
    ensures at == |r| - 1
    ensures forall x :: x in r[..at] <==> x in s[..|s| - 1]
  {
    var init, last := s[..|s| - 1], s[|s| - 1];
    assert s == init + [last];
    if at < |r| - 1 {
      assert r[at + 1] in r;
      MetBeforeLast(s, r[at], r[at + 1]);
    }
    assert r == r[..at] + [last];
    forall i | 0 <= i < at ensures r[i] != last {
      var k :| 0 <= k < |s| && s[k] == r[i] && forall m :: 0 <= m <= k ==> s[m] != r[at];
      assert s[k] != r[at];
    }
    forall x ensures x in r[..at] <==> x in init {
      assert x in s <==> x in init || x == last;
      assert x in r <==> x in r[..at] || x == last;
    }
  }

  lemma ShorterFirstSeen(s: seq<string>, r: seq<string>, n: nat)
    requires s != [] && FirstSeen(r, s) && n <= |r| && forall x :: x in r[..n] <==> x in s[..|s| - 1]
    ensures FirstSeen(r[..n], s[..|s| - 1])
  {
    forall i, j | 0 <= i < j < n ensures MetBefore(s[..|s| - 1], r[i], r[j]) {
      assert r[j] in r;
      MetBeforeLast(s, r[i], r[j]);
    }
  }

  lemma {:induction false} DedupIdempotent(s: seq<string>)
    ensures Dedup(Dedup(s)) == Dedup(s)
  {
    if s != [] { DedupIdempotent(s[..|s| - 1]); }
  }

  function Members(s: seq<string>): set<string> {
    set x | x in s
  }

  lemma DedupNext(before: seq<string>, list: seq<string>, i: nat)
    requires i < |list|
    ensures var d, v := Dedup(before + list[..i]), list[i];
            && (v in Members(d) ==> Dedup(before + list[..i + 1]) == d)
            && (v !in Members(d) ==> Dedup(before + list[..i + 1]) == d + [v] && Members(d + [v]) == Members(d) + {v})
  {
    var longer := before + list[..i + 1];
    assert longer[..|longer| - 1] == before + list[..i] && longer[|longer| - 1] == list[i];
  }

  /** Keeps the first occurrence of every member of a, then of b. */
  method UnionStrings(a: seq<string>, b: seq<string>) returns (out: seq<string>)
    ensures FirstSeen(out, a + b)
    ensures out == Dedup(a + b)
  {
    out := [];
    var seen: set<string> := {};
    var lists := [a, b];
    ghost var before: seq<string> := [];
    for l := 0 to 2
      invariant before == if l == 0 then [] else if l == 1 then a else a + b
      invariant out == Dedup(before) && seen == Members(out)
    {
      var list := lists[l];
      assert before + list[..0] == before;
      for i := 0 to |list|
        invariant out == Dedup(before + list[..i]) && seen == Members(out)
      {
        var v := list[i];
        DedupNext(before, list, i);
        if v !in seen {
          seen := seen + {v};
          out := out + [v];
        }
      }
      assert list[..|list|] == list && [] + a == a;
      before := before + list;
    }
    DedupIsFirstSeen(a + b, out);
  }

  // ---- the write-through ----

  /** What is written for a record merged from the shared one: union of capabilities, higher label, the new scope. */
  function Merged(remote: Option<RemoteMember>, role: string, allowed: Scope): RemoteMember {
    var permissions := if remote.Some? then Dedup(remote.value.permissions + RolePermissions(role)) else RolePermissions(role);
    var kept := if remote.Some? && RoleRank(remote.value.role) > RoleRank(role) then remote.value.role else role;
    RemoteMember(if kept == "" then ROLE_MEMBER else kept, permissions, allowed)
  }

  /** The label two records agree on: the higher of owner, admin and member; else the one written, or "member". */
  ghost predicate LabelOf(kept: string, held: string, written: string) {
    if held == "owner" || written == "owner" then kept == "owner"
    else if held == "admin" || written == "admin" then kept == "admin"
    else if held == "member" || written == "member" || written == "" then kept == "member"
    else kept == written
  }

  /** m is what a write of this role and scope makes of the shared record: its label, what it may do, where. */
  ghost predicate Merges(m: RemoteMember, remote: Option<RemoteMember>, role: string, scope: Scope) {
    var held := if remote.Some? then remote.value.permissions else [];
    && LabelOf(m.role, if remote.Some? then remote.value.role else "", role)
    && FirstSeen(m.permissions, if role == "owner" then held + ["manage_members", "manage_settings"] else held)
    && m.scope == scope
  }

  /** A write makes one record of the shared one, and no other. */
  lemma MergedIs(m: RemoteMember, remote: Option<RemoteMember>, role: string, scope: Scope)
    ensures Merges(m, remote, role, scope) <==> m == Merged(remote, role, scope)
  {
    var held := if remote.Some? then remote.value.permissions else [];
    MergedPermissions(held, role);
    DedupIsFirstSeen(held + RolePermissions(role), m.permissions);
    MergedLabel(m.role, if remote.Some? then remote.value.role else "", role);
  }

  lemma MergedPermissions(held: seq<string>, role: string)
    ensures held + RolePermissions(role) == if role == "owner" then held + ["manage_members", "manage_settings"] else held
    ensures held == [] ==> Dedup(held + RolePermissions(role)) == RolePermissions(role)
  {
    RolePermissionsAreDistinct(role);
    assert [] + RolePermissions(role) == RolePermissions(role);
  }

  lemma MergedLabel(kept: string, held: string, written: string)
    ensures var higher := if RoleRank(held) > RoleRank(written) then held else written;
            LabelOf(kept, held, written) <==> kept == if higher == "" then ROLE_MEMBER else higher
  {
  }

  lemma RolePermissionsAreDistinct(role: string)
    ensures Dedup(RolePermissions(role)) == RolePermissions(role)
  {
    var a, b := "manage_members", "manage_settings";
    assert a[7] != b[7];
    var none: seq<string> := [];
    assert [a, b][..1] == [a] && [a][..0] == none;
    assert Dedup([a]) == [a] && Dedup([a, b]) == [a, b];
  }

  /** Which store calls of one operation get through. */
  datatype Calls = Calls(localRead: bool, localWrite: bool, roleRead: bool, remoteRead: bool, remoteWrite: bool)
  const ALL_CALLS := Calls(true, true, true, true, true)

  datatype Outcome = Done | LocalFailed | TenancyFailed | OwnersAreUnrestricted

  /** One wallet's two records. */
  datatype Records = Records(local: Option<LocalRow>, remote: Option<RemoteMember>)
  datatype Result = Result(after: Records, outcome: Outcome)

  function PutThrough(p: Records, configured: bool, role: string, allowed: Scope, calls: Calls): Result {
    if !configured then Result(p, Done)
    else if !calls.remoteRead || !calls.remoteWrite then Result(p, TenancyFailed)
    else Result(p.(remote := Some(Merged(p.remote, role, allowed))), Done)
  }

  /** Owners are unrestricted whatever was asked for. */
  function Effective(role: string, allowed: Scope): Scope {
    if role == ROLE_OWNER then None else allowed
  }

  /** A grant: the local row first, then the shared record. */
  function Grant(p: Records, configured: bool, role: string, allowed: Scope, calls: Calls): Result {
    if !calls.localWrite then Result(p, LocalFailed)
    else
      var local := LocalRow(if role == "" then ROLE_MEMBER else role, Effective(role, allowed));
      PutThrough(p.(local := Some(local)), configured, role, Effective(role, allowed), calls)
  }

  /** A scope edit: any failed read of the local row counts as there being none. */
  function ChangeScope(p: Records, configured: bool, allowed: Scope, calls: Calls): Result {
    var found := calls.localRead && p.local.Some?;
    if found && p.local.value.role == ROLE_OWNER && allowed.Some? then Result(p, OwnersAreUnrestricted)
    else if found && !calls.localWrite then Result(p, LocalFailed)
    else
      var q := if found then p.(local := Some(p.local.value.(allowed := allowed))) else p;
      var role := if calls.roleRead && q.local.Some? then q.local.value.role else "";
      PutThrough(q, configured, role, allowed, calls)
  }

  /** A revocation: the shared record first, then the local row. */
  function Revoke(p: Records, configured: bool, calls: Calls): Result {
    if configured && !calls.remoteWrite then Result(p, TenancyFailed)
    else
      var q := if configured then p.(remote := None) else p;
      if !calls.localWrite then Result(q, LocalFailed) else Result(q.(local := None), Done)
  }

  class Stores {
    var local: map<Wallet, LocalRow>
    var remote: map<Wallet, RemoteMember>
    const configured: bool

    constructor (configured: bool)
      ensures local == map[] && remote == map[] && this.configured == configured
    {
      local, remote := map[], map[];
      this.configured := configured;
    }

    ghost function At(w: Wallet): Records
      reads this
    {
      Records(if w in local then Some(local[w]) else None, if w in remote then Some(remote[w]) else None)
    }

    twostate predicate OthersUnchanged(w: Wallet)
      reads this
    {
      forall v :: v != w ==> At(v) == old(At(v))
    }

    method PutMembershipThrough(w: Wallet, role: string, allowed: Scope, calls: Calls) returns (r: Outcome)
      modifies this`remote
      ensures Result(At(w), r) == PutThrough(old(At(w)), configured, role, allowed, calls)
      ensures r == Done <==> !configured || (calls.remoteRead && calls.remoteWrite)
      ensures r == Done && configured ==> w in remote && Merges(remote[w], old(At(w)).remote, role, allowed)
      ensures r != Done || !configured ==> remote == old(remote)
      ensures OthersUnchanged(w)
    {
      ghost var before := At(w).remote;
      if !configured {
        return Done;
      }
      var write := RemoteMember(role, RolePermissions(role), allowed);
      if !calls.remoteRead {
        return TenancyFailed;
      }
      if w in remote {
        var permissions := UnionStrings(remote[w].permissions, write.permissions);
        write := write.(permissions := permissions);
        if RoleRank(remote[w].role) > RoleRank(write.role) {
          write := write.(role := remote[w].role);
        }
      }
      if write.role == "" {
        write := write.(role := ROLE_MEMBER);
      }
      if !calls.remoteWrite {
        return TenancyFailed;
      }
      remote := remote[w := write];
      MergedIs(write, before, role, allowed);
      r := Done;
    }

    method AddMember(w: Wallet, role: string, allowed: Scope, calls: Calls) returns (ok: bool)
      modifies this`local
      ensures ok == calls.localWrite && OthersUnchanged(w)
      ensures ok ==> w in local && local[w].role == (if role == "" then "member" else role)
      ensures ok ==> local[w].allowed == if role == "owner" then None else allowed
      ensures !ok ==> local == old(local)
    {
      var role', allowed' := role, allowed;
      if role' == "" {
        role' := ROLE_MEMBER;
      }
      if role' == ROLE_OWNER {
        allowed' := None;
      }
      if !calls.localWrite {
        return false;
      }
      local := local[w := LocalRow(role', allowed')];
      ok := true;
    }

    method GrantMember(w: Wallet, role: string, allowed: Scope, calls: Calls) returns (r: Outcome)
      modifies this
      ensures Result(At(w), r) == Grant(old(At(w)), configured, role, allowed, calls)
      ensures r == LocalFailed <==> !calls.localWrite
      ensures r == LocalFailed ==> At(w) == old(At(w))
      ensures r == TenancyFailed <==> calls.localWrite && configured && !(calls.remoteRead && calls.remoteWrite)
      ensures r == LocalFailed || r == TenancyFailed || r == Done
      ensures r != LocalFailed ==> w in local && local[w].role == (if role == "" then "member" else role)
      ensures r != LocalFailed ==> local[w].allowed == if role == "owner" then None else allowed
      ensures r != Done || !configured ==> remote == old(remote)
      ensures r == Done && configured ==>
                w in remote && Merges(remote[w], old(At(w)).remote, role, if role == "owner" then None else allowed)
      ensures OthersUnchanged(w)
    {
      var ok := AddMember(w, role, allowed, calls);
      if !ok {
        return LocalFailed;
      }
      var allowed' := allowed;
      if role == ROLE_OWNER {
        allowed' := None;
      }
      r := PutMembershipThrough(w, role, allowed', calls);
    }

    method ChangeMemberScope(w: Wallet, allowed: Scope, calls: Calls) returns (r: Outcome)
      modifies this
      ensures Result(At(w), r) == ChangeScope(old(At(w)), configured, allowed, calls)
      ensures r == OwnersAreUnrestricted <==> calls.localRead && w in old(local) && old(local)[w].role == "owner" && allowed.Some?
      ensures r == LocalFailed <==> calls.localRead && w in old(local) && !(r == OwnersAreUnrestricted) && !calls.localWrite
      ensures r == OwnersAreUnrestricted || r == LocalFailed || !calls.localRead || w !in old(local) ==> local == old(local)
      ensures (r == Done || r == TenancyFailed) && calls.localRead && w in old(local) ==>
                w in local && local[w].role == old(local)[w].role && local[w].allowed == allowed
      ensures r == Done && configured ==>
                w in remote && Merges(remote[w], old(At(w)).remote,
                                      if calls.roleRead && w in old(local) then old(local)[w].role else "", allowed)
      ensures r != Done || !configured ==> remote == old(remote)
      ensures r == TenancyFailed ==> configured && !(calls.remoteRead && calls.remoteWrite)
      ensures OthersUnchanged(w)
    {
      // A membership that is missing, or could not be read, skips straight to the shared write.
      if calls.localRead && w in local {
        if local[w].role == ROLE_OWNER && allowed.Some? {
          return OwnersAreUnrestricted;
        }
        if !calls.localWrite {
          return LocalFailed;
        }
        local := local[w := local[w].(allowed := allowed)];
      }
      var role := if calls.roleRead && w in local then local[w].role else "";
      r := PutMembershipThrough(w, role, allowed, calls);
    }

    method RemoveMemberEverywhere(w: Wallet, calls: Calls) returns (r: Outcome)
      modifies this
      ensures Result(At(w), r) == Revoke(old(At(w)), configured, calls)
      ensures r == TenancyFailed <==> configured && !calls.remoteWrite
      ensures r == LocalFailed <==> r != TenancyFailed && !calls.localWrite
      ensures r == TenancyFailed ==> At(w) == old(At(w))
      ensures r == LocalFailed ==> local == old(local) && if configured then w !in remote else remote == old(remote)
      ensures r == Done ==> w !in local && if configured then w !in remote else remote == old(remote)
      ensures r == TenancyFailed || r == LocalFailed || r == Done
      ensures OthersUnchanged(w)
    {
      if configured {
        if !calls.remoteWrite {
          return TenancyFailed;
        }
        remote := remote - {w};
      }
      if !calls.localWrite {
        return LocalFailed;
      }
      local := local - {w};
      r := Done;
    }
  }

  /** After a completed grant both records reach what was asked for, and everything when the role is owner. */
  lemma GrantedScope(p: Records, role: string, allowed: Scope, calls: Calls)
    requires Grant(p, true, role, allowed, calls).outcome == Done
    ensures var q := Grant(p, true, role, allowed, calls).after;
            && q.local.Some? && q.remote.Some?
            && q.local.value.allowed == q.remote.value.scope == if role == "owner" then None else allowed
  {
  }

  // ---- interrupted operations ----

  /** What a pair of records lets the wallet do is the shared record's business; a half-done write never adds to it. */
  lemma InterruptedGrantKeepsShared(p: Records, configured: bool, role: string, allowed: Scope, calls: Calls)
    ensures Grant(p, configured, role, allowed, calls).outcome != Done ==> Grant(p, configured, role, allowed, calls).after.remote == p.remote
    ensures ChangeScope(p, configured, allowed, calls).outcome != Done ==> ChangeScope(p, configured, allowed, calls).after.remote == p.remote
  {
  }

  /** An interrupted revocation leaves both records, or at most the local one. */
  lemma InterruptedRevocation(p: Records, calls: Calls)
    ensures var r := Revoke(p, true, calls);
            if r.outcome == Done then r.after == Records(None, None)
            else r.after == p || r.after == Records(p.local, None)
  {
  }

  lemma UnionSettles(p: seq<string>, r: seq<string>)
    ensures Dedup(Dedup(p + r) + r) == Dedup(p + r)
  {
    DedupFirst(p + r, r);
    DedupAbsorbs(p + r, r);
  }

  lemma RolePermissionsSettle(role: string)
    ensures Dedup(RolePermissions(role) + RolePermissions(role)) == RolePermissions(role)
  {
    DedupAbsorbs(RolePermissions(role), RolePermissions(role));
    RolePermissionsAreDistinct(role);
  }

  /** Merging the same role again only sets the scope. */
  lemma MergedIsIdempotent(remote: Option<RemoteMember>, role: string, allowed: Scope, allowed': Scope)
    ensures Merged(Some(Merged(remote, role, allowed')), role, allowed) == Merged(remote, role, allowed)
  {
    RolePermissionsSettle(role);
    if remote.Some? { UnionSettles(remote.value.permissions, RolePermissions(role)); }
  }

  /** Retrying a grant until it completes gives what an uninterrupted grant gives, however often it failed or succeeded. */
  lemma GrantRetryConverges(p: Records, configured: bool, role: string, allowed: Scope, calls: Calls)
    ensures Grant(Grant(p, configured, role, allowed, calls).after, configured, role, allowed, ALL_CALLS)
            == Grant(p, configured, role, allowed, ALL_CALLS)
  {
    MergedIsIdempotent(p.remote, role, Effective(role, allowed), Effective(role, allowed));
  }

  lemma RevokeRetryConverges(p: Records, configured: bool, calls: Calls)
    ensures Revoke(Revoke(p, configured, calls).after, configured, ALL_CALLS) == Revoke(p, configured, ALL_CALLS)
  {
  }

  /** The edit's write to the shared record happens. */
  predicate ReachesShared(p: Records, configured: bool, allowed: Scope, calls: Calls) {
    && configured && calls.remoteRead && calls.remoteWrite
    && (calls.localRead && p.local.Some? ==> calls.localWrite && !(p.local.value.role == ROLE_OWNER && allowed.Some?))
  }

  /** The shared record has this scope, no capability twice and, when the role is known to be owner, what an owner gets. */
  ghost predicate HasNothingToMerge(remote: RemoteMember, owner: bool, allowed: Scope) {
    && remote.scope == allowed && NoDuplicates(remote.permissions)
    && (owner ==> remote.role == ROLE_OWNER && "manage_members" in remote.permissions && "manage_settings" in remote.permissions)
    && (!owner ==> RoleRank(remote.role) > 0)
  }

  /** The first try takes an unreadable owner row for a missing one, and has something to change in the shared record. */
  ghost predicate OwnerMistaken(p: Records, configured: bool, allowed: Scope, calls: Calls) {
    && p.local.Some? && p.local.value.role == ROLE_OWNER && allowed.Some? && !calls.localRead
    && ReachesShared(p, configured, allowed, calls)
    && !(p.remote.Some? && HasNothingToMerge(p.remote.value, calls.roleRead, allowed))
  }

  lemma {:induction false} DedupFixed(s: seq<string>)
    ensures Dedup(s) == s <==> NoDuplicates(s)
  {
    DedupHasNoDuplicates(s);
    if s != [] && NoDuplicates(s) {
      var init := s[..|s| - 1];
      DedupFixed(init);
      assert s == init + [s[|s| - 1]];
    }
  }

  /** A union leaves a list as it is exactly when it has no duplicates and the members are in. */
  lemma DedupUnchangedIff(s: seq<string>, t: seq<string>)
    ensures Dedup(s + t) == s <==> NoDuplicates(s) && forall x :: x in t ==> x in s
  {
    DedupHasNoDuplicates(s + t);
    DedupFixed(s);
    if forall x :: x in t ==> x in s { DedupAbsorbs(s, t); }
    assert forall x :: x in t ==> x in s + t;
  }

  /** A merge without a scope change leaves a record as it is exactly when there is nothing to merge. */
  lemma MergeUnchangedIff(remote: RemoteMember, owner: bool, allowed: Scope)
    ensures Merged(Some(remote), if owner then ROLE_OWNER else "", allowed) == remote <==> HasNothingToMerge(remote, owner, allowed)
  {
    DedupUnchangedIff(remote.permissions, RolePermissions(if owner then ROLE_OWNER else ""));
  }

  /** The first try does not know a local label outside the three known ones, and writes "member" for it. */
  predicate LabelForgotten(p: Records, configured: bool, allowed: Scope, calls: Calls) {
    && p.local.Some? && p.local.value.role != "" && RoleRank(p.local.value.role) == 0 && !calls.roleRead
    && ReachesShared(p, configured, allowed, calls)
    && (p.remote.None? || RoleRank(p.remote.value.role) == 0)
  }

  /**
   Retrying a scope edit gives what an uninterrupted edit gives, unless the first try wrote to the shared record
   without having read the local row it depends on.
   */
  lemma ScopeRetryConvergesIff(p: Records, configured: bool, allowed: Scope, calls: Calls)
    ensures ChangeScope(ChangeScope(p, configured, allowed, calls).after, configured, allowed, ALL_CALLS)
              == ChangeScope(p, configured, allowed, ALL_CALLS)
            <==> !OwnerMistaken(p, configured, allowed, calls) && !LabelForgotten(p, configured, allowed, calls)
  {
    var role := if p.local.Some? then p.local.value.role else "";
    MergedIsIdempotent(p.remote, role, allowed, allowed);
    if p.remote.Some? { MergeUnchangedIff(p.remote.value, calls.roleRead, allowed); }
    if role == "" || RoleRank(role) > 0 || (p.remote.Some? && RoleRank(p.remote.value.role) > 0) {
      ForgottenRole(p.remote, role, allowed);
    }
  }

  /** A merge without the role, made first, is absorbed by the merge with it. */
  lemma ForgottenRole(remote: Option<RemoteMember>, role: string, allowed: Scope)
    requires role == "" || RoleRank(role) > 0 || (remote.Some? && RoleRank(remote.value.role) > 0)
    ensures Merged(Some(Merged(remote, "", allowed)), role, allowed) == Merged(remote, role, allowed)
  {
    var r := RolePermissions(role);
    if remote.Some? {
      var p := remote.value.permissions;
      assert p + [] == p;
      DedupFirst(p, r);
    } else {
      assert [] + r == r && r + r[..0] == r;
      RolePermissionsSettle(role);
      DedupAbsorbs(r, r);
    }
  }

  /**
   Owners cannot be limited, except that a failed read of their local row passes for a missing membership: then, and
   only then, an edit restricting a local owner reaches the shared record.
   */
  lemma OwnerLimitedIff(p: Records, allowed: Scope, calls: Calls)
    requires p.local.Some? && p.local.value.role == ROLE_OWNER && allowed.Some?
    requires calls.remoteRead && calls.remoteWrite
    ensures (exists after :: ChangeScope(p, true, allowed, calls) == Result(after, Done) && after.remote.Some? && after.remote.value.scope == allowed)
            <==> !calls.localRead
  {
    var r := ChangeScope(p, true, allowed, calls);
    assert !calls.localRead ==> r == Result(r.after, Done);
  }

  /**
   An owner whose row cannot be read is limited in the shared record, and the retry, which can read it, refuses the
   edit and leaves the limit there.
   */
  lemma OwnerIsLimitedAnyway() returns (p: Records, allowed: Scope, calls: Calls, limited: Records)
    ensures p.local == Some(LocalRow(ROLE_OWNER, None)) && p.remote.Some? && p.remote.value.scope == None
    ensures allowed.Some? && !calls.localRead && ChangeScope(p, true, allowed, calls) == Result(limited, Done)
    ensures limited.remote.Some? && limited.remote.value.scope == allowed
    ensures ChangeScope(limited, true, allowed, ALL_CALLS) == Result(limited, OwnersAreUnrestricted)
  {
    p := Records(Some(LocalRow(ROLE_OWNER, None)), Some(RemoteMember(ROLE_OWNER, ["manage_members", "manage_settings"], None)));
    allowed, calls := Some(["vans"]), ALL_CALLS.(localRead := false);
    limited := p.(remote := Some(Merged(p.remote, ROLE_OWNER, allowed)));
  }

  /** A console's own label is lost to an edit of a tenant without a local row. */
  lemma ViewerBecomesMember() returns (p: Records, allowed: Scope, after: Records)
    ensures p.local.None? && p.remote.Some? && p.remote.value.role == "viewer"
    ensures ChangeScope(p, true, allowed, ALL_CALLS) == Result(after, Done)
    ensures after.remote.Some? && after.remote.value.role == ROLE_MEMBER
  {
    p, allowed := Records(None, Some(RemoteMember("viewer", [], None))), None;
    after := p.(remote := Some(Merged(p.remote, "", allowed)));
  }

  /** A scope edit that knows no local role keeps the shared label if and only if it is one of the three known labels. */
  lemma LabelSurvivesIff(remote: RemoteMember, allowed: Scope)
    ensures Merged(Some(remote), "", allowed).role == remote.role <==> RoleRank(remote.role) > 0
  {
  }

  // ---- runs ----

  datatype Op = GrantOp(role: string, allowed: Scope, calls: Calls) | ScopeOp(allowed: Scope, calls: Calls)

  function Apply(p: Records, configured: bool, op: Op): Result {
    match op
    case GrantOp(role, allowed, calls) => Grant(p, configured, role, allowed, calls)
    case ScopeOp(allowed, calls) => ChangeScope(p, configured, allowed, calls)
  }

  function Run(p: Records, configured: bool, ops: seq<Op>): Records {
    if ops == [] then p else Apply(Run(p, configured, ops[..|ops| - 1]), configured, ops[|ops| - 1]).after
  }

  /** The last operation that completed, if any did. */
  function LastDone(p: Records, ops: seq<Op>): Option<Op> {
    if ops == [] then None
    else
      var before := Run(p, true, ops[..|ops| - 1]);
      if Apply(before, true, ops[|ops| - 1]).outcome == Done then Some(ops[|ops| - 1]) else LastDone(p, ops[..|ops| - 1])
  }

  /** An operation asks for this scope: a grant of ownership for all, any other for the one it names. */
  ghost predicate AsksFor(op: Op, scope: Scope) {
    match op
    case GrantOp(role, allowed, _) => scope == if role == "owner" then None else allowed
    case ScopeOp(allowed, _) => scope == allowed
  }

  /** Access never shrinks by accident: capabilities only grow and the label's rank never drops. */
  ghost predicate Grows(before: Option<RemoteMember>, after: Option<RemoteMember>) {
    before.Some? ==> && after.Some?
                     && (forall c :: c in before.value.permissions ==> c in after.value.permissions)
                     && RoleRank(before.value.role) <= RoleRank(after.value.role)
  }

  /**
   * Over every run of grants and scope edits, interrupted anywhere, the shared record only grows, and its scope is
   * the one the last completed operation asked for.
   */
  lemma {:induction false} RunsOnlyGrow(p: Records, ops: seq<Op>)
    ensures Grows(p.remote, Run(p, true, ops).remote)
    ensures LastDone(p, ops).Some? ==>
              Run(p, true, ops).remote.Some? && AsksFor(LastDone(p, ops).value, Run(p, true, ops).remote.value.scope)
    ensures LastDone(p, ops).None? ==> Run(p, true, ops).remote == p.remote
  {
    if ops != [] {
      var op, before := ops[|ops| - 1], Run(p, true, ops[..|ops| - 1]);
      RunsOnlyGrow(p, ops[..|ops| - 1]);
      StepGrows(before, op);
    }
  }

  lemma StepGrows(p: Records, op: Op)
    ensures Grows(p.remote, Apply(p, true, op).after.remote)
    ensures Apply(p, true, op).outcome == Done ==> Apply(p, true, op).after.remote.Some?
                                                   && AsksFor(op, Apply(p, true, op).after.remote.value.scope)
    ensures Apply(p, true, op).outcome != Done ==> Apply(p, true, op).after.remote == p.remote
  {
  }
}
