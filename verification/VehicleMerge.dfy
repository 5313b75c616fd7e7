/** The two left joins from a resolved token set to the vehicle list, and the order they share. */
module VehicleMerge {
  import opened Wrappers
  import Sorting

  datatype Row = Row(tokenID: int, vin: string, plate: string, lastSeen: Option<int>)
  datatype Roster = Roster(tokenID: int, vin: string, plate: string)
  datatype Vehicle = Vehicle(tokenID: int, isFavorite: bool, pending: bool, vin: string, plate: string, lastSeen: Option<int>)

  // ---- the order: most recently seen first, never seen last, then by token ----

  predicate Before(seen: Option<int>, token: int, seen': Option<int>, token': int) {
    if seen.Some? && seen'.Some? && seen.value != seen'.value then seen.value > seen'.value
    else if seen.Some? && seen'.None? then true
    else if seen.None? && seen'.Some? then false
    else token < token'
  }

  predicate Comes(a: Vehicle, b: Vehicle) {
    Before(a.lastSeen, a.tokenID, b.lastSeen, b.tokenID)
  }

  /** A strict total order on vehicles of different tokens. */
  lemma ComesIsStrictTotal(a: Vehicle, b: Vehicle, c: Vehicle)
    ensures !Comes(a, a)
    ensures Comes(a, b) && Comes(b, c) ==> Comes(a, c)
    ensures a.tokenID != b.tokenID ==> Comes(a, b) || Comes(b, a)
  {
  }

  ghost predicate InOrder(vs: seq<Vehicle>) {
    forall i, j :: 0 <= i < j < |vs| ==> Comes(vs[i], vs[j])
  }

  /** Most recently seen first, those without a fix last, equal ones by token. */
  ghost predicate RecentFirst(vs: seq<Vehicle>) {
    forall i, j :: 0 <= i < j < |vs| ==>
                     && (vs[j].lastSeen.Some? ==> vs[i].lastSeen.Some? && vs[i].lastSeen.value >= vs[j].lastSeen.value)
                     && (vs[i].lastSeen == vs[j].lastSeen ==> vs[i].tokenID < vs[j].tokenID)
  }

  /** What the comparator orders by. */
  lemma InOrderIff(vs: seq<Vehicle>)
    ensures InOrder(vs) <==> RecentFirst(vs)
  {
  }

  /** The rows as the query returns them: last_seen descending with nulls last, then token. */
  ghost predicate SqlOrdered(rows: seq<Row>) {
    forall i, j :: 0 <= i < j < |rows| ==>
                     && (rows[j].lastSeen.Some? ==> rows[i].lastSeen.Some? && rows[i].lastSeen.value >= rows[j].lastSeen.value)
                     && (rows[i].lastSeen == rows[j].lastSeen ==> rows[i].tokenID < rows[j].tokenID)
  }

  ghost predicate Distinct(tokens: seq<int>) {
    forall i, j :: 0 <= i < j < |tokens| ==> tokens[i] != tokens[j]
  }

  function SortVehicles(vs: seq<Vehicle>): (r: seq<Vehicle>)
    ensures |r| == |vs| && forall x :: x in r <==> x in vs
  {
    Sorting.Sort(vs, Comes)
  }

  lemma SortOrders(vs: seq<Vehicle>)
    requires forall i, j :: 0 <= i < j < |vs| ==> vs[i].tokenID != vs[j].tokenID
    ensures InOrder(SortVehicles(vs))
  {
    forall i, j | 0 <= i < j < |vs| ensures Comes(vs[i], vs[j]) || Comes(vs[j], vs[i]) {
      ComesIsStrictTotal(vs[i], vs[j], vs[i]);
    }
    forall a, b, c ensures Comes(a, b) && Comes(b, c) ==> Comes(a, c) { ComesIsStrictTotal(a, b, c); }
    Sorting.SortOrders(vs, Comes);
  }

  /** An ordered list is determined by its members. */
  lemma {:induction false} OrderedUnique(a: seq<Vehicle>, b: seq<Vehicle>)
    requires InOrder(a) && InOrder(b) && forall x :: x in a <==> x in b
    ensures a == b
  {
    assert a == [] || a[0] in a;
    assert b == [] || b[0] in b;
    if a != [] && b != [] {
      HeadFirst(a);
      HeadFirst(b);
      ComesIsStrictTotal(a[0], b[0], a[0]);
      OrderedUnique(a[1..], b[1..]);
      assert a == [a[0]] + a[1..] && b == [b[0]] + b[1..];
    }
  }

  lemma HeadFirst(a: seq<Vehicle>)
    requires InOrder(a) && a != []
    ensures forall x :: x in a ==> x == a[0] || Comes(a[0], x)
    ensures forall x :: x in a[1..] <==> x in a && x != a[0]
  {
    assert a == [a[0]] + a[1..];
    forall i | 0 < i < |a| ensures a[i] != a[0] { ComesIsStrictTotal(a[0], a[i], a[0]); }
  }

  // ---- the joins ----

  /** Row k is the last one of the token. */
  ghost predicate LastRow(rows: seq<Row>, t: int, k: int) {
    0 <= k < |rows| && rows[k].tokenID == t && forall j :: k < j < |rows| ==> rows[j].tokenID != t
  }

  function RowOf(rows: seq<Row>, t: int): (r: Option<Row>)
    ensures r.Some? ==> r.value in rows && r.value.tokenID == t
    ensures r.None? ==> forall x :: x in rows ==> x.tokenID != t
  {
    if rows == [] then None
    else
      var last := rows[|rows| - 1];
      assert rows == rows[..|rows| - 1] + [last];
      if last.tokenID == t then Some(last) else RowOf(rows[..|rows| - 1], t)
  }

  lemma {:induction false} RowIsLast(rows: seq<Row>, t: int)
    ensures forall k :: LastRow(rows, t, k) ==> RowOf(rows, t) == Some(rows[k])
  {
    if rows != [] {
      var init := rows[..|rows| - 1];
      RowIsLast(init, t);
      forall k | LastRow(rows, t, k) ensures RowOf(rows, t) == Some(rows[k]) {
        if k < |init| { assert LastRow(init, t, k); }
      }
    }
  }

  /** One vehicle of the roster join: the roster's facts, the local row's where the roster has none, its last fix. */
  function RosterVehicle(t: int, meta: map<int, Roster>, rows: seq<Row>, favorites: set<int>): (v: Vehicle)
    requires forall u :: u in meta ==> meta[u].tokenID == u
    ensures v.tokenID == t && v.isFavorite == (t in favorites) && v.pending == (t !in meta)
    ensures RowOf(rows, t).Some? && RowOf(rows, t).value.vin != "" ==> v.vin != ""
    ensures RowOf(rows, t).Some? && RowOf(rows, t).value.plate != "" ==> v.plate != ""
    ensures v.lastSeen == if RowOf(rows, t).Some? then RowOf(rows, t).value.lastSeen else None
  {
    var v := if t in meta then Vehicle(t, t in favorites, false, meta[t].vin, meta[t].plate, None)
             else Vehicle(t, t in favorites, true, "", "", None);
    var local := RowOf(rows, t);
    if local.None? then v
    else v.(vin := if v.vin == "" then local.value.vin else v.vin,
            plate := if v.plate == "" then local.value.plate else v.plate,
            lastSeen := local.value.lastSeen)
  }

  /** A value of the roster, or where it has none the one of the token's last row, or nothing. */
  ghost predicate FallsBack(v: string, fromRoster: string, rows: seq<Row>, t: int, fromRow: Row -> string) {
    && (fromRoster != "" ==> v == fromRoster)
    && (fromRoster == "" ==> forall k :: LastRow(rows, t, k) ==> v == fromRow(rows[k]))
    && (fromRoster == "" && (forall r :: r in rows ==> r.tokenID != t) ==> v == "")
  }

  /** v is the vehicle of token t: the roster's facts first, the local ones behind them, the fix from the row alone. */
  ghost predicate Joins(v: Vehicle, t: int, meta: map<int, Roster>, rows: seq<Row>, favorites: set<int>) {
    && v.tokenID == t && (v.isFavorite <==> t in favorites) && (v.pending <==> t !in meta)
    && FallsBack(v.vin, if t in meta then meta[t].vin else "", rows, t, (r: Row) => r.vin)
    && FallsBack(v.plate, if t in meta then meta[t].plate else "", rows, t, (r: Row) => r.plate)
    && (forall k :: LastRow(rows, t, k) ==> v.lastSeen == rows[k].lastSeen)
    && ((forall r :: r in rows ==> r.tokenID != t) ==> v.lastSeen.None?)
  }

  /** One vehicle for each token, and no other. */
  ghost predicate ListsJoins(out: seq<Vehicle>, tokenIDs: seq<int>, meta: map<int, Roster>, rows: seq<Row>, favorites: set<int>) {
    && (forall v :: v in out ==> exists t :: t in tokenIDs && Joins(v, t, meta, rows, favorites))
    && (forall t :: t in tokenIDs ==> exists v :: v in out && Joins(v, t, meta, rows, favorites))
  }

  lemma RosterListMembers(list: seq<Vehicle>, tokenIDs: seq<int>, meta: map<int, Roster>, rows: seq<Row>, favorites: set<int>)
    requires forall u :: u in meta ==> meta[u].tokenID == u
    requires |list| == |tokenIDs| && forall j :: 0 <= j < |list| ==> list[j] == RosterVehicle(tokenIDs[j], meta, rows, favorites)
    ensures forall v :: v in list <==> exists t :: t in tokenIDs && v == RosterVehicle(t, meta, rows, favorites)
  {
    forall v ensures v in list <==> exists t :: t in tokenIDs && v == RosterVehicle(t, meta, rows, favorites) {
      if v in list { var j :| 0 <= j < |list| && list[j] == v; assert tokenIDs[j] in tokenIDs; }
      if t :| t in tokenIDs && v == RosterVehicle(t, meta, rows, favorites) {
        var j :| 0 <= j < |tokenIDs| && tokenIDs[j] == t;
        assert list[j] == v;
      }
    }
  }

  lemma RosterListJoins(out: seq<Vehicle>, tokenIDs: seq<int>, meta: map<int, Roster>, rows: seq<Row>, favorites: set<int>)
    requires forall u :: u in meta ==> meta[u].tokenID == u
    requires forall v :: v in out <==> exists t :: t in tokenIDs && v == RosterVehicle(t, meta, rows, favorites)
    ensures ListsJoins(out, tokenIDs, meta, rows, favorites)
  {
    forall v | v in out ensures exists t :: t in tokenIDs && Joins(v, t, meta, rows, favorites) {
      var t :| t in tokenIDs && v == RosterVehicle(t, meta, rows, favorites);
      RosterVehicleJoins(t, meta, rows, favorites);
    }
    forall t | t in tokenIDs ensures exists v :: v in out && Joins(v, t, meta, rows, favorites) {
      RosterVehicleJoins(t, meta, rows, favorites);
      assert RosterVehicle(t, meta, rows, favorites) in out;
    }
  }

  lemma RosterVehicleJoins(t: int, meta: map<int, Roster>, rows: seq<Row>, favorites: set<int>)
    requires forall u :: u in meta ==> meta[u].tokenID == u
    ensures Joins(RosterVehicle(t, meta, rows, favorites), t, meta, rows, favorites)
  {
    RowIsLast(rows, t);
  }

  function LocalVehicle(r: Row, favorites: set<int>): Vehicle {
    Vehicle(r.tokenID, r.tokenID in favorites, false, r.vin, r.plate, r.lastSeen)
  }

  method MergeRosterVehicles(tokenIDs: seq<int>, meta: map<int, Roster>, rows: seq<Row>, favorites: set<int>)
    returns (out: seq<Vehicle>)
    requires forall u :: u in meta ==> meta[u].tokenID == u
    ensures |out| == |tokenIDs|
    ensures forall v :: v in out <==> exists t :: t in tokenIDs && v == RosterVehicle(t, meta, rows, favorites)
    ensures ListsJoins(out, tokenIDs, meta, rows, favorites)
    ensures Distinct(tokenIDs) ==> RecentFirst(out)
  {
    var list: seq<Vehicle> := [];
    for i := 0 to |tokenIDs|
      invariant |list| == i && forall j :: 0 <= j < i ==> list[j] == RosterVehicle(tokenIDs[j], meta, rows, favorites)
    {
      var t := tokenIDs[i];
      var v := Vehicle(t, false, true, "", "", None);
      if t in meta {
        v := Vehicle(meta[t].tokenID, false, false, meta[t].vin, meta[t].plate, None);
      }
      v := v.(isFavorite := t in favorites);
      var r := RowOf(rows, t);
      if r.Some? {
        if v.vin == "" {
          v := v.(vin := r.value.vin);
        }
        if v.plate == "" {
          v := v.(plate := r.value.plate);
        }
        v := v.(lastSeen := r.value.lastSeen);
      }
      list := list + [v];
    }
    if Distinct(tokenIDs) { SortOrders(list); }
    out := SortVehicles(list);
    InOrderIff(out);
    RosterListMembers(list, tokenIDs, meta, rows, favorites);
    RosterListJoins(out, tokenIDs, meta, rows, favorites);
  }

  function LocalVehicles(rows: seq<Row>, favorites: set<int>): seq<Vehicle> {
    seq(|rows|, i requires 0 <= i < |rows| => LocalVehicle(rows[i], favorites))
  }

  /** A vehicle for each token without a row, in the order of the tokens. */
  function Placeholders(tokenIDs: seq<int>, rows: seq<Row>, favorites: set<int>): seq<Vehicle> {
    if tokenIDs == [] then []
    else
      var init, t := Placeholders(tokenIDs[..|tokenIDs| - 1], rows, favorites), tokenIDs[|tokenIDs| - 1];
      if RowOf(rows, t).Some? then init else init + [Vehicle(t, t in favorites, true, "", "", None)]
  }

  /** Rows first, in the order given; then the tokens without one, as placeholders. */
  method MergeResolvedVehicles(tokenIDs: seq<int>, rows: seq<Row>, favorites: set<int>) returns (out: seq<Vehicle>)
    ensures out == LocalVehicles(rows, favorites) + Placeholders(tokenIDs, rows, favorites)
    ensures |out| >= |rows| && forall i :: 0 <= i < |rows| ==>
              out[i] == Vehicle(rows[i].tokenID, rows[i].tokenID in favorites, false, rows[i].vin, rows[i].plate, rows[i].lastSeen)
  {
    var byToken: set<int> := set r | r in rows :: r.tokenID;
    out := [];
    for i := 0 to |rows|
      invariant out == LocalVehicles(rows[..i], favorites)
    {
      out := out + [LocalVehicle(rows[i], favorites)];
      assert LocalVehicles(rows[..i + 1], favorites) == LocalVehicles(rows[..i], favorites) + [LocalVehicle(rows[i], favorites)];
    }
    assert rows[..|rows|] == rows;
    for i := 0 to |tokenIDs|
      invariant out == LocalVehicles(rows, favorites) + Placeholders(tokenIDs[..i], rows, favorites)
    {
      TakeNext(tokenIDs, i);
      if tokenIDs[i] in byToken {
        continue;
      }
      out := out + [Vehicle(tokenIDs[i], tokenIDs[i] in favorites, true, "", "", None)];
    }
    assert tokenIDs[..|tokenIDs|] == tokenIDs;
  }

  ghost predicate Ascending(tokens: seq<int>) {
    forall i, j :: 0 <= i < j < |tokens| ==> tokens[i] < tokens[j]
  }

  ghost predicate ByToken(vs: seq<Vehicle>) {
    forall i, j :: 0 <= i < j < |vs| ==> vs[i].tokenID < vs[j].tokenID
  }

  ghost predicate HasRow(rows: seq<Row>, t: int) {
    exists r :: r in rows && r.tokenID == t
  }

  /** The placeholders are exactly the tokens without a row, in token order when the tokens are. */
  lemma {:induction false} PlaceholdersInOrder(tokenIDs: seq<int>, rows: seq<Row>, favorites: set<int>)
    requires Ascending(tokenIDs)
    ensures forall v :: v in Placeholders(tokenIDs, rows, favorites) <==>
              && v.tokenID in tokenIDs && !HasRow(rows, v.tokenID)
              && v == Vehicle(v.tokenID, v.tokenID in favorites, true, "", "", None)
    ensures ByToken(Placeholders(tokenIDs, rows, favorites))
  {
    if tokenIDs != [] {
      var init, t := tokenIDs[..|tokenIDs| - 1], tokenIDs[|tokenIDs| - 1];
      PlaceholdersInOrder(init, rows, favorites);
      assert tokenIDs == init + [t];
      var before := Placeholders(init, rows, favorites);
      forall i | 0 <= i < |before| ensures before[i].tokenID < t { assert before[i] in before && before[i].tokenID in init; }
    }
  }

  /** With the rows of the resolved tokens, the join lists every resolved token once and nothing else. */
  lemma EveryTokenOnce(tokenIDs: seq<int>, rows: seq<Row>, favorites: set<int>, out: seq<Vehicle>)
    requires Ascending(tokenIDs)
    requires (forall r :: r in rows ==> r.tokenID in tokenIDs) && forall i, j :: 0 <= i < j < |rows| ==> rows[i].tokenID != rows[j].tokenID
    requires out == LocalVehicles(rows, favorites) + Placeholders(tokenIDs, rows, favorites)
    ensures forall i, j :: 0 <= i < j < |out| ==> out[i].tokenID != out[j].tokenID
    ensures forall t :: t in tokenIDs <==> exists v :: v in out && v.tokenID == t
  {
    var local, rest := LocalVehicles(rows, favorites), Placeholders(tokenIDs, rows, favorites);
    PlaceholdersInOrder(tokenIDs, rows, favorites);
    forall i, j | 0 <= i < |local| && 0 <= j < |rest| ensures local[i].tokenID != rest[j].tokenID {
      assert rows[i] in rows && rest[j] in rest;
    }
    forall t ensures t in tokenIDs <==> exists v :: v in out && v.tokenID == t {
      if t in tokenIDs { var v := ListedVehicle(tokenIDs, rows, favorites, t); }
      if v :| v in out && v.tokenID == t { NothingElse(tokenIDs, rows, favorites, v); }
    }
  }

  lemma ListedVehicle(tokenIDs: seq<int>, rows: seq<Row>, favorites: set<int>, t: int) returns (v: Vehicle)
    requires Ascending(tokenIDs) && t in tokenIDs
    ensures v in LocalVehicles(rows, favorites) + Placeholders(tokenIDs, rows, favorites) && v.tokenID == t
  {
    var local, row := LocalVehicles(rows, favorites), RowOf(rows, t);
    PlaceholdersInOrder(tokenIDs, rows, favorites);
    if row.Some? {
      var i :| 0 <= i < |rows| && rows[i] == row.value;
      v := local[i];
    } else {
      v := Vehicle(t, t in favorites, true, "", "", None);
      assert v in Placeholders(tokenIDs, rows, favorites);
    }
  }

  lemma NothingElse(tokenIDs: seq<int>, rows: seq<Row>, favorites: set<int>, v: Vehicle)
    requires Ascending(tokenIDs) && forall r :: r in rows ==> r.tokenID in tokenIDs
    requires v in LocalVehicles(rows, favorites) + Placeholders(tokenIDs, rows, favorites)
    ensures v.tokenID in tokenIDs
  {
    var local := LocalVehicles(rows, favorites);
    PlaceholdersInOrder(tokenIDs, rows, favorites);
    if v in local {
      var i :| 0 <= i < |local| && local[i] == v;
      assert rows[i] in rows;
    }
  }

  /**
   When every resolved token has a row and the rows come in the query's order, both joins list the vehicles in the
   same order.
   */
  lemma JoinsAgreeOnOrder(tokenIDs: seq<int>, meta: map<int, Roster>, rows: seq<Row>, favorites: set<int>,
                          roster: seq<Vehicle>, resolved: seq<Vehicle>)
    requires forall u :: u in meta ==> meta[u].tokenID == u
    requires SqlOrdered(rows) && (forall i, j :: 0 <= i < j < |rows| ==> rows[i].tokenID != rows[j].tokenID)
    requires (forall t :: t in tokenIDs <==> exists r :: r in rows && r.tokenID == t)
    requires RecentFirst(roster) && forall v :: v in roster <==> exists t :: t in tokenIDs && v == RosterVehicle(t, meta, rows, favorites)
    requires resolved == LocalVehicles(rows, favorites) + Placeholders(tokenIDs, rows, favorites)
    ensures |roster| == |resolved| && forall i :: 0 <= i < |roster| ==> roster[i].tokenID == resolved[i].tokenID
  {
    var asRoster := RosterOfRows(meta, rows, favorites);
    SameVehicles(tokenIDs, meta, rows, favorites, roster);
    RowsInOrder(meta, rows, favorites);
    InOrderIff(roster);
    InOrderIff(asRoster);
    OrderedUnique(roster, asRoster);
    NoPlaceholders(tokenIDs, rows, favorites);
  }

  /** The roster join's vehicles in the order of the rows. */
  ghost function RosterOfRows(meta: map<int, Roster>, rows: seq<Row>, favorites: set<int>): (vs: seq<Vehicle>)
    requires forall u :: u in meta ==> meta[u].tokenID == u
    ensures |vs| == |rows|
    ensures forall i :: 0 <= i < |rows| ==> vs[i].tokenID == rows[i].tokenID
  {
    seq(|rows|, i requires 0 <= i < |rows| => RosterVehicle(rows[i].tokenID, meta, rows, favorites))
  }

  lemma RowsInOrder(meta: map<int, Roster>, rows: seq<Row>, favorites: set<int>)
    requires forall u :: u in meta ==> meta[u].tokenID == u
    requires SqlOrdered(rows) && (forall i, j :: 0 <= i < j < |rows| ==> rows[i].tokenID != rows[j].tokenID)
    ensures RecentFirst(RosterOfRows(meta, rows, favorites))
  {
    var vs := RosterOfRows(meta, rows, favorites);
    forall i | 0 <= i < |rows| ensures vs[i].lastSeen == rows[i].lastSeen {
      assert RowOf(rows, rows[i].tokenID).value in rows;
    }
  }

  lemma SameVehicles(tokenIDs: seq<int>, meta: map<int, Roster>, rows: seq<Row>, favorites: set<int>, roster: seq<Vehicle>)
    requires forall u :: u in meta ==> meta[u].tokenID == u
    requires (forall t :: t in tokenIDs <==> exists r :: r in rows && r.tokenID == t)
    requires forall v :: v in roster <==> exists t :: t in tokenIDs && v == RosterVehicle(t, meta, rows, favorites)
    ensures forall v :: v in roster <==> v in RosterOfRows(meta, rows, favorites)
  {
    var vs := RosterOfRows(meta, rows, favorites);
    forall v ensures v in roster <==> v in vs {
      if v in roster {
        var t :| t in tokenIDs && v == RosterVehicle(t, meta, rows, favorites);
        var r :| r in rows && r.tokenID == t;
        var i :| 0 <= i < |rows| && rows[i] == r;
        assert vs[i] == v;
      }
      if v in vs {
        var i :| 0 <= i < |rows| && vs[i] == v;
        assert rows[i] in rows && rows[i].tokenID in tokenIDs;
      }
    }
  }

  lemma {:induction false} NoPlaceholders(tokenIDs: seq<int>, rows: seq<Row>, favorites: set<int>)
    requires forall t :: t in tokenIDs ==> exists r :: r in rows && r.tokenID == t
    ensures Placeholders(tokenIDs, rows, favorites) == []
  {
    if tokenIDs != [] {
      var init := tokenIDs[..|tokenIDs| - 1];
      assert forall t :: t in init ==> t in tokenIDs;
      NoPlaceholders(init, rows, favorites);
      assert tokenIDs[|tokenIDs| - 1] in tokenIDs;
    }
  }
}
