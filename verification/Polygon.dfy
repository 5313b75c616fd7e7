/** The ray-casting test of a point against a polygon of rings, over exact coordinates. */
module Polygon {
  datatype Pos = Pos(x: real, y: real)

  predicate Above(p: Pos, y: real) { p.y > y }

  /** The edge from p to q has its ends on different sides of the horizontal line at y. */
  predicate Straddles(p: Pos, q: Pos, y: real) {
    Above(p, y) != Above(q, y)
  }

  /** Where the line through (xi, yi) and (xj, yj) meets the horizontal at y. */
  function LineX(xi: real, yi: real, xj: real, yj: real, y: real): real
    requires yi != yj
  {
    (xj - xi) * (y - yi) / (yj - yi) + xi
  }

  function MeetsAt(p: Pos, q: Pos, y: real): real
    requires p.y != q.y
  {
    LineX(p.x, p.y, q.x, q.y, y)
  }

  /** The ray from (x, y) to the right crosses the edge. */
  predicate Crosses(p: Pos, q: Pos, x: real, y: real) {
    Straddles(p, q, y) && x < MeetsAt(p, q, y)
  }

  /** Crossed edges of the open chain. */
  function ChainCrossings(chain: seq<Pos>, x: real, y: real): nat {
    if |chain| < 2 then 0
    else (if Crosses(chain[1], chain[0], x, y) then 1 else 0) + ChainCrossings(chain[1..], x, y)
  }

  /** Crossed edges of the ring: its positions in order, and the edge from the last back to the first. */
  function RingCrossings(ring: seq<Pos>, x: real, y: real): nat {
    if ring == [] then 0 else ChainCrossings([ring[|ring| - 1]] + ring, x, y)
  }

  predicate InRing(x: real, y: real, ring: seq<Pos>) {
    RingCrossings(ring, x, y) % 2 == 1
  }

  predicate InPolygon(lat: real, lng: real, rings: seq<seq<Pos>>) {
    && rings != [] && InRing(lng, lat, rings[0])
    && forall h :: 1 <= h < |rings| ==> !InRing(lng, lat, rings[h])
  }

  method RayCast(x: real, y: real, ring: seq<Pos>) returns (inside: bool)
    ensures inside == InRing(x, y, ring)
  {
    inside := false;
    var n := |ring|;
    ghost var chain := if n == 0 then [] else [ring[n - 1]] + ring;
    var i, j := 0, n - 1;
    while i < n
      invariant 0 <= i <= n && j == (if i == 0 then n - 1 else i - 1)
      invariant n > 0 ==> inside == (ChainCrossings(chain[..i + 1], x, y) % 2 == 1)
      invariant n == 0 ==> !inside
    {
      var xi, yi := ring[i].x, ring[i].y;
      var xj, yj := ring[j].x, ring[j].y;
      assert chain[i + 1] == ring[i] && chain[i] == ring[j];
      ChainNext(chain, i, x, y);
      var crosses := (yi > y) != (yj > y) && x < LineX(xi, yi, xj, yj, y);
      assert crosses == Crosses(ring[i], ring[j], x, y);
      if crosses {
        inside := !inside;
      }
      j, i := i, i + 1;
    }
    assert n > 0 ==> chain[..n + 1] == chain;
  }

  method PointInPolygon(lat: real, lng: real, rings: seq<seq<Pos>>) returns (inside: bool)
    ensures inside == InPolygon(lat, lng, rings)
  {
    if |rings| == 0 {
      return false;
    }
    var outer := RayCast(lng, lat, rings[0]);
    if !outer {
      return false;
    }
    for h := 1 to |rings|
      invariant forall k :: 1 <= k < h ==> !InRing(lng, lat, rings[k])
    {
      var inHole := RayCast(lng, lat, rings[h]);
      if inHole {
        return false;
      }
    }
    return true;
  }

  // ---- chains ----

  lemma {:induction false} ChainConcat(a: seq<Pos>, p: Pos, b: seq<Pos>, x: real, y: real)
    ensures ChainCrossings(a + [p] + b, x, y) == ChainCrossings(a + [p], x, y) + ChainCrossings([p] + b, x, y)
  {
    if a == [] {
      assert a + [p] + b == [p] + b && a + [p] == [p];
    } else {
      assert (a + [p] + b)[1..] == a[1..] + [p] + b;
      assert (a + [p])[1..] == a[1..] + [p];
      assert (a + [p] + b)[1] == (a + [p])[1];
      ChainConcat(a[1..], p, b, x, y);
    }
  }

  lemma ChainNext(chain: seq<Pos>, i: nat, x: real, y: real)
    requires i + 1 < |chain|
    ensures ChainCrossings(chain[..i + 2], x, y)
            == ChainCrossings(chain[..i + 1], x, y) + (if Crosses(chain[i + 1], chain[i], x, y) then 1 else 0)
  {
    assert chain[..i + 2] == chain[..i] + [chain[i]] + [chain[i + 1]];
    assert chain[..i + 1] == chain[..i] + [chain[i]];
    ChainConcat(chain[..i], chain[i], [chain[i + 1]], x, y);
    assert ([chain[i]] + [chain[i + 1]])[1..] == [chain[i + 1]];
  }

  /** A ring's crossings, read as a closed chain from its first position. */
  lemma RingAsChain(ring: seq<Pos>, x: real, y: real)
    requires ring != []
    ensures RingCrossings(ring, x, y) == ChainCrossings(ring + [ring[0]], x, y)
  {
    var first, last := ring[0], ring[|ring| - 1];
    assert [last] + ring == [last] + [first] + ring[1..];
    assert ring + [first] == ring[..|ring| - 1] + [last] + [first];
    assert ring == [] + [first] + ring[1..] && ring == ring[..|ring| - 1] + [last];
    ChainConcat([last], first, ring[1..], x, y);
    ChainConcat(ring[..|ring| - 1], last, [first], x, y);
    assert [first] + ring[1..] == ring;
  }

  // ---- what does not matter: where the ring starts, whether it is closed explicitly, its direction ----

  lemma RotationInvariant(a: seq<Pos>, b: seq<Pos>, x: real, y: real)
    ensures RingCrossings(a + b, x, y) == RingCrossings(b + a, x, y)
    ensures InRing(x, y, a + b) == InRing(x, y, b + a)
  {
    if a == [] || b == [] {
      assert a + b == b + a;
    } else {
      RingAsChain(a + b, x, y);
      RingAsChain(b + a, x, y);
      assert a + b + [a[0]] == a + [b[0]] + (b[1..] + [a[0]]);
      assert b + a + [b[0]] == b + [a[0]] + (a[1..] + [b[0]]);
      ChainConcat(a, b[0], b[1..] + [a[0]], x, y);
      ChainConcat(b, a[0], a[1..] + [b[0]], x, y);
      assert [b[0]] + (b[1..] + [a[0]]) == b + [a[0]] && [a[0]] + (a[1..] + [b[0]]) == a + [b[0]];
    }
  }

  /** Repeating the first position at the end, as closed rings do (section 3.1.6 of RFC 7946), changes nothing. */
  lemma ClosingInvariant(ring: seq<Pos>, x: real, y: real)
    requires ring != []
    ensures InRing(x, y, ring + [ring[0]]) == InRing(x, y, ring)
  {
    var closed := ring + [ring[0]];
    assert ([closed[|closed| - 1]] + closed)[1..] == closed;
    RingAsChain(ring, x, y);
  }

  function Reverse(s: seq<Pos>): (r: seq<Pos>)
    ensures |r| == |s|
  {
    if s == [] then [] else Reverse(s[1..]) + [s[0]]
  }

  lemma NoZeroFactor(a: real, d: real)
    requires a * d == 0.0 && d != 0.0
    ensures a == 0.0
  {
  }

  lemma OneMeeting(dx: real, n: real, d: real, v: real, w: real)
    requires d != 0.0 && v * d == dx * n && w * -d == -dx * (n - d)
    ensures v == w + dx
  {
    assert w * -d == -(w * d) && -dx * (n - d) == dx * d - dx * n;
    assert (v - (w + dx)) * d == v * d - w * d - dx * d;
    NoZeroFactor(v - (w + dx), d);
  }

  /** Both directions along an edge meet the horizontal at the same place. */
  lemma CrossesBothWays(p: Pos, q: Pos, x: real, y: real)
    ensures Crosses(p, q, x, y) == Crosses(q, p, x, y)
  {
    if Straddles(p, q, y) {
      var d, n, dx := q.y - p.y, y - p.y, q.x - p.x;
      var v, w := dx * n / d, (p.x - q.x) * (y - q.y) / (p.y - q.y);
      assert v * d == dx * n;
      assert w * (p.y - q.y) == (p.x - q.x) * (y - q.y);
      assert p.y - q.y == -d && p.x - q.x == -dx && y - q.y == n - d;
      OneMeeting(dx, n, d, v, w);
      assert MeetsAt(p, q, y) == v + p.x && MeetsAt(q, p, y) == w + q.x;
    }
  }

  lemma {:induction false} ReverseChain(chain: seq<Pos>, x: real, y: real)
    ensures ChainCrossings(Reverse(chain), x, y) == ChainCrossings(chain, x, y)
  {
    if |chain| >= 2 {
      var rest := chain[1..];
      assert Reverse(chain) == Reverse(rest[1..]) + [rest[0]] + [chain[0]];
      ChainConcat(Reverse(rest[1..]), rest[0], [chain[0]], x, y);
      ReverseChain(rest, x, y);
      CrossesBothWays(chain[0], chain[1], x, y);
      assert ([rest[0]] + [chain[0]])[1..] == [chain[0]];
    } else if |chain| == 1 {
      assert Reverse(chain[1..]) == [];
    }
  }

  lemma {:induction false} ReverseConcat(a: seq<Pos>, p: Pos)
    ensures Reverse(a + [p]) == [p] + Reverse(a)
  {
    if a == [] {
      assert [p][1..] == [] && Reverse([p][1..]) == [];
    } else {
      assert (a + [p])[1..] == a[1..] + [p];
      ReverseConcat(a[1..], p);
    }
  }

  lemma ReversalInvariant(ring: seq<Pos>, x: real, y: real)
    ensures InRing(x, y, Reverse(ring)) == InRing(x, y, ring)
  {
    if ring != [] {
      var first := ring[0];
      RingAsChain(ring, x, y);
      ReverseChain(ring + [first], x, y);
      ReverseConcat(ring, first);
      assert Reverse(ring)[|ring| - 1] == first;
    }
  }

  // ---- outside the bounding box ----

  lemma MeetsBetween(p: Pos, q: Pos, y: real, lo: real, hi: real)
    requires Straddles(p, q, y) && lo <= p.x <= hi && lo <= q.x <= hi
    ensures lo <= MeetsAt(p, q, y) <= hi
  {
    var d, n, dx := q.y - p.y, y - p.y, q.x - p.x;
    var v := dx * n / d;
    assert v * d == dx * n;
    assert MeetsAt(p, q, y) == v + p.x;
    if d > 0.0 {
      Proportion(dx, n, d, v);
    } else {
      assert v * -d == -(v * d) && dx * -n == -(dx * n);
      Proportion(dx, -n, -d, v);
    }
  }

  /** A part n of d scales dx to something between 0 and dx. */
  lemma Proportion(dx: real, n: real, d: real, v: real)
    requires 0.0 <= n <= d && d > 0.0 && v * d == dx * n
    ensures if dx >= 0.0 then 0.0 <= v <= dx else dx <= v <= 0.0
  {
    if dx >= 0.0 {
      assert 0.0 <= dx * n <= dx * d;
      assert 0.0 <= v * d && (dx - v) * d >= 0.0;
    } else {
      assert dx * d <= dx * n <= 0.0;
      assert v * d <= 0.0 && (v - dx) * d >= 0.0;
    }
  }

  ghost predicate InBox(ring: seq<Pos>, x0: real, x1: real, y0: real, y1: real) {
    forall i :: 0 <= i < |ring| ==> x0 <= ring[i].x <= x1 && y0 <= ring[i].y <= y1
  }

  function StraddleCount(chain: seq<Pos>, y: real): nat {
    if |chain| < 2 then 0 else (if Straddles(chain[1], chain[0], y) then 1 else 0) + StraddleCount(chain[1..], y)
  }

  /** Straddling edges of a chain are odd in number exactly when its ends lie on different sides. */
  lemma {:induction false} StraddleParity(chain: seq<Pos>, y: real)
    requires chain != []
    ensures StraddleCount(chain, y) % 2 == 1 <==> Straddles(chain[0], chain[|chain| - 1], y)
  {
    if |chain| >= 2 { StraddleParity(chain[1..], y); }
  }

  lemma {:induction false} ChainOutside(chain: seq<Pos>, x: real, y: real, x0: real, x1: real, y0: real, y1: real)
    requires InBox(chain, x0, x1, y0, y1)
    ensures y < y0 || y > y1 || x > x1 ==> ChainCrossings(chain, x, y) == 0
    ensures x < x0 ==> ChainCrossings(chain, x, y) == StraddleCount(chain, y)
  {
    if |chain| >= 2 {
      if Straddles(chain[1], chain[0], y) { MeetsBetween(chain[1], chain[0], y, x0, x1); }
      ChainOutside(chain[1..], x, y, x0, x1, y0, y1);
    }
  }

  /** A point strictly outside the ring's bounding box is outside the ring. */
  lemma OutsideBoxIsOutside(ring: seq<Pos>, x: real, y: real, x0: real, x1: real, y0: real, y1: real)
    requires InBox(ring, x0, x1, y0, y1) && (x < x0 || x > x1 || y < y0 || y > y1)
    ensures !InRing(x, y, ring)
  {
    if ring != [] {
      var chain := [ring[|ring| - 1]] + ring;
      ChainOutside(chain, x, y, x0, x1, y0, y1);
      StraddleParity(chain, y);
    }
  }

  // ---- what the test means ----

  function EdgeCrossing(p: Pos, q: Pos, x: real, y: real): nat {
    if Crosses(q, p, x, y) then 1 else 0
  }

  lemma CloseChain(a: seq<Pos>, q: Pos, p: Pos, x: real, y: real)
    ensures ChainCrossings(a + [q] + [p], x, y) == ChainCrossings(a + [q], x, y) + EdgeCrossing(q, p, x, y)
  {
    ChainConcat(a, q, [p], x, y);
    assert [q] + [p] == [q, p] && [q, p][1..] == [p];
  }

  /** The crossings of [p] + a + [q] + b, split at the chord from p to q. */
  lemma ChordCounts(p: Pos, a: seq<Pos>, q: Pos, b: seq<Pos>, x: real, y: real)
    ensures RingCrossings([p] + a + [q] + b, x, y) + EdgeCrossing(q, p, x, y) + EdgeCrossing(p, q, x, y)
            == RingCrossings([p] + a + [q], x, y) + RingCrossings([q] + b + [p], x, y)
  {
    RingAsChain([p] + a + [q] + b, x, y);
    assert ([p] + a + [q] + b) + [p] == ([p] + a) + [q] + (b + [p]);
    ChainConcat([p] + a, q, b + [p], x, y);
    RingAsChain([p] + a + [q], x, y);
    CloseChain([p] + a, q, p, x, y);
    RingAsChain([q] + b + [p], x, y);
    CloseChain([q] + b, p, q, x, y);
    assert [q] + (b + [p]) == [q] + b + [p];
  }

  /** Cutting a ring along a chord: a point is inside the ring exactly when it is inside one of the two parts. */
  lemma ChordSplits(p: Pos, a: seq<Pos>, q: Pos, b: seq<Pos>, x: real, y: real)
    ensures InRing(x, y, [p] + a + [q] + b) == (InRing(x, y, [p] + a + [q]) != InRing(x, y, [q] + b + [p]))
  {
    ChordCounts(p, a, q, b, x, y);
    CrossesBothWays(p, q, x, y);
  }

  /** For an upright rectangle the test is the half-open box. */
  lemma RectangleIsBox(x0: real, x1: real, y0: real, y1: real, x: real, y: real)
    requires x0 < x1 && y0 < y1
    ensures InRing(x, y, [Pos(x0, y0), Pos(x1, y0), Pos(x1, y1), Pos(x0, y1)]) <==> x0 <= x < x1 && y0 <= y < y1
  {
    var a, b, c, d := Pos(x0, y0), Pos(x1, y0), Pos(x1, y1), Pos(x0, y1);
    assert [d] + [a, b, c, d] == [d, a, b, c, d];
    FourEdges(d, a, b, c, d, x, y);
    if Straddles(a, d, y) { MeetsBetween(a, d, y, x0, x0); }
    if Straddles(c, b, y) { MeetsBetween(c, b, y, x1, x1); }
  }

  lemma FourEdges(a: Pos, b: Pos, c: Pos, d: Pos, e: Pos, x: real, y: real)
    ensures ChainCrossings([a, b, c, d, e], x, y)
            == EdgeCrossing(a, b, x, y) + EdgeCrossing(b, c, x, y) + EdgeCrossing(c, d, x, y) + EdgeCrossing(d, e, x, y)
  {
    assert [a] + [b] == [a, b] && [a, b][1..] == [b];
    CloseChain([], a, b, x, y);
    CloseChain([a], b, c, x, y);
    CloseChain([a, b], c, d, x, y);
    CloseChain([a, b, c], d, e, x, y);
    assert [] + [a] + [b] == [a] + [b] && [a] + [b] + [c] == [a, b] + [c] && [a, b] + [c] + [d] == [a, b, c] + [d];
    assert [a, b, c] + [d] + [e] == [a, b, c, d, e];
    assert ChainCrossings([] + [a], x, y) == 0;
  }

  /** Which side of the line from p to q the point lies on, by the sign: left, on it, right. */
  function Side(p: Pos, q: Pos, x: real, y: real): real {
    (q.x - p.x) * (y - p.y) - (x - p.x) * (q.y - p.y)
  }

  /**
   The ray crosses an edge that rises through its height exactly when the point is strictly left of it, one that
   falls exactly when it is strictly right of it, and no other.
   */
  lemma CrossesIff(p: Pos, q: Pos, x: real, y: real)
    ensures p.y <= y < q.y ==> (Crosses(p, q, x, y) <==> (x - p.x) * (q.y - p.y) < (q.x - p.x) * (y - p.y))
    ensures q.y <= y < p.y ==> (Crosses(p, q, x, y) <==> (x - p.x) * (q.y - p.y) > (q.x - p.x) * (y - p.y))
    ensures !(p.y <= y < q.y) && !(q.y <= y < p.y) ==> !Crosses(p, q, x, y)
  {
    if Straddles(p, q, y) {
      var d, n, dx := q.y - p.y, y - p.y, q.x - p.x;
      var v := dx * n / d;
      assert v * d == dx * n;
      assert MeetsAt(p, q, y) == v + p.x;
      ScaleLess(x - p.x, v, d);
    }
  }

  lemma CrossesBySide(p: Pos, q: Pos, x: real, y: real)
    ensures !Above(p, y) && Above(q, y) ==> (Crosses(p, q, x, y) <==> Side(p, q, x, y) > 0.0)
    ensures Above(p, y) && !Above(q, y) ==> (Crosses(p, q, x, y) <==> Side(p, q, x, y) < 0.0)
    ensures Above(p, y) == Above(q, y) ==> !Crosses(p, q, x, y)
  {
    CrossesIff(p, q, x, y);
  }

  lemma ScaleLess(a: real, b: real, d: real)
    ensures d > 0.0 ==> (a < b <==> a * d < b * d)
    ensures d < 0.0 ==> (a < b <==> a * d > b * d)
  {
    assert (b - a) * d == b * d - a * d;
    if d > 0.0 {
      if a < b { assert (b - a) * d > 0.0; } else { assert (a - b) * d >= 0.0; assert (a - b) * d == a * d - b * d; }
    }
    if d < 0.0 {
      if a < b { assert (b - a) * -d > 0.0; assert (b - a) * -d == a * d - b * d; }
      else { assert (a - b) * -d >= 0.0; assert (a - b) * -d == b * d - a * d; }
    }
  }

  /** Twice the signed area: positive when the corners run counter-clockwise. */
  function Orient(a: Pos, b: Pos, c: Pos): real {
    Side(a, b, c.x, c.y)
  }

  /** The points left of the line from p to q, with the line itself when it falls or runs to the right. */
  predicate InHalf(p: Pos, q: Pos, x: real, y: real) {
    Side(p, q, x, y) > 0.0 || (Side(p, q, x, y) == 0.0 && (q.y < p.y || (q.y == p.y && q.x > p.x)))
  }

  predicate InAllHalves(a: Pos, b: Pos, c: Pos, x: real, y: real) {
    InHalf(a, b, x, y) && InHalf(b, c, x, y) && InHalf(c, a, x, y)
  }

  /** The sides of a point add up to the triangle, and weighted with the opposite corners to the point itself. */
  lemma SidesAddUp(a: Pos, b: Pos, c: Pos, x: real, y: real)
    ensures Side(a, b, x, y) + Side(b, c, x, y) + Side(c, a, x, y) == Orient(a, b, c)
    ensures Side(b, c, x, y) * (a.y - y) + Side(c, a, x, y) * (b.y - y) + Side(a, b, x, y) * (c.y - y) == 0.0
  {
  }

  lemma ProductSigns(u: real, v: real)
    ensures u >= 0.0 && v >= 0.0 ==> u * v >= 0.0
    ensures u > 0.0 && v > 0.0 ==> u * v > 0.0
    ensures u <= 0.0 && v >= 0.0 ==> u * v <= 0.0
    ensures u < 0.0 && v > 0.0 ==> u * v < 0.0
  {
  }

  /** Three sides that add up, one of them weighed against the other two. */
  lemma Balance(ab: real, bc: real, ca: real, h: real, u: real, v: real)
    requires ab + bc + ca > 0.0 && bc * h == ca * u + ab * v && h >= 0.0 && u >= 0.0 && v >= 0.0
    ensures h > 0.0 && ca > 0.0 && ab >= 0.0 ==> bc >= 0.0 && (bc == 0.0 ==> u == 0.0)
    ensures h > 0.0 ==> ca > 0.0 || ab >= 0.0
    ensures u > 0.0 && v > 0.0 && ab > 0.0 && ca >= 0.0 ==> bc > 0.0
    ensures u > 0.0 && v > 0.0 ==> ab > 0.0 || ca >= 0.0
  {
    ProductSigns(ca, u);
    ProductSigns(ab, v);
    ProductSigns(bc, h);
    ProductSigns(-bc, h);
    assert -bc * h == -(bc * h);
  }

  /** One corner above the point's height: its two edges bound the triangle there. */
  lemma ApexAbove(a: Pos, b: Pos, c: Pos, x: real, y: real)
    requires Orient(a, b, c) > 0.0 && a.y > y && b.y <= y && c.y <= y
    ensures (Side(c, a, x, y) > 0.0) != (Side(a, b, x, y) < 0.0) <==> InAllHalves(a, b, c, x, y)
  {
    var ab, bc, ca := Side(a, b, x, y), Side(b, c, x, y), Side(c, a, x, y);
    SidesAddUp(a, b, c, x, y);
    Weighed(ab, bc, ca, a.y - y, b.y - y, c.y - y);
    Balance(ab, bc, ca, a.y - y, y - b.y, y - c.y);
    if b.y == y && c.y == y { LevelEdge(a, b, c); }
  }

  lemma Weighed(ab: real, bc: real, ca: real, h: real, u: real, v: real)
    requires bc * h + ca * u + ab * v == 0.0
    ensures bc * h == ca * -u + ab * -v && bc * -h == ca * u + ab * v
  {
  }

  lemma LevelEdge(a: Pos, b: Pos, c: Pos)
    requires Orient(a, b, c) > 0.0 && b.y == c.y < a.y
    ensures c.x > b.x
  {
    RotatedOrient(a, b, c);
    assert Side(b, c, a.x, a.y) == (c.x - b.x) * (a.y - b.y);
    ProductSigns(c.x - b.x, a.y - b.y);
  }

  lemma RotatedOrient(a: Pos, b: Pos, c: Pos)
    ensures Orient(b, c, a) == Orient(a, b, c) && Orient(c, a, b) == Orient(a, b, c)
    ensures Orient(c, b, a) == -Orient(a, b, c)
  {
  }

  /** One corner at or below the point's height. */
  lemma ApexBelow(a: Pos, b: Pos, c: Pos, x: real, y: real)
    requires Orient(a, b, c) > 0.0 && a.y <= y && b.y > y && c.y > y
    ensures (Side(a, b, x, y) > 0.0) != (Side(c, a, x, y) < 0.0) <==> InAllHalves(a, b, c, x, y)
  {
    var ab, bc, ca := Side(a, b, x, y), Side(b, c, x, y), Side(c, a, x, y);
    SidesAddUp(a, b, c, x, y);
    Weighed(ab, bc, ca, a.y - y, b.y - y, c.y - y);
    Balance(ab, bc, ca, y - a.y, b.y - y, c.y - y);
  }

  /** All corners above the point's height, or none: no point there is in all three half-planes. */
  lemma NoCornerBetween(a: Pos, b: Pos, c: Pos, x: real, y: real)
    requires Orient(a, b, c) > 0.0 && ((a.y > y && b.y > y && c.y > y) || (a.y <= y && b.y <= y && c.y <= y))
    ensures !InAllHalves(a, b, c, x, y)
  {
    var ab, bc, ca := Side(a, b, x, y), Side(b, c, x, y), Side(c, a, x, y);
    SidesAddUp(a, b, c, x, y);
    if a.y > y {
      NotAllPositive(ab, bc, ca, a.y - y, b.y - y, c.y - y);
    } else {
      Weighed(ab, bc, ca, a.y - y, b.y - y, c.y - y);
      if a.y < y && b.y < y && c.y < y {
        NotAllPositive(ab, bc, ca, y - a.y, y - b.y, y - c.y);
      } else {
        RotatedOrient(a, b, c);
        LevelIsFlat(a, b, c);
        if a.y == y > c.y { TopCorner(a, b, c, x, y); }
        if b.y == y > a.y { TopCorner(b, c, a, x, y); }
        if c.y == y > b.y { TopCorner(c, a, b, x, y); }
      }
    }
  }

  lemma LevelIsFlat(a: Pos, b: Pos, c: Pos)
    ensures a.y == b.y == c.y ==> Orient(a, b, c) == 0.0
  {
  }

  lemma NotAllPositive(ab: real, bc: real, ca: real, h: real, u: real, v: real)
    requires bc * h + ca * u + ab * v == 0.0 || bc * -h == ca * u + ab * v
    requires ab + bc + ca > 0.0 && h > 0.0 && u > 0.0 && v > 0.0
    ensures ab < 0.0 || bc < 0.0 || ca < 0.0
  {
    ProductSigns(bc, h);
    ProductSigns(ca, u);
    ProductSigns(ab, v);
    assert bc * -h == -(bc * h);
  }

  /** A corner at the point's height with the others no higher keeps the point out of a half-plane. */
  lemma TopCorner(a: Pos, b: Pos, c: Pos, x: real, y: real)
    requires Orient(a, b, c) > 0.0 && a.y == y && b.y <= y && c.y < y
    ensures !InAllHalves(a, b, c, x, y)
  {
    assert Side(c, a, x, y) == (a.x - x) * (a.y - c.y) && Side(a, b, x, y) == (x - a.x) * (a.y - b.y);
    if x < a.x {
      if b.y < y { ProductSigns(x - a.x, a.y - b.y); }
      if b.y == y { assert Orient(a, b, c) == (b.x - a.x) * (c.y - a.y); ProductSigns(b.x - a.x, a.y - c.y); }
    } else {
      ProductSigns(a.x - x, a.y - c.y);
    }
  }

  /** The ray crosses the two edges at the corner that lies apart, and the sides tell which. */
  lemma ApexCrossings(a: Pos, b: Pos, c: Pos, x: real, y: real)
    requires Orient(a, b, c) > 0.0 && Above(a, y) != Above(b, y) && Above(b, y) == Above(c, y)
    ensures !Crosses(b, c, x, y) && (Crosses(a, b, x, y) != Crosses(c, a, x, y) <==> InAllHalves(a, b, c, x, y))
  {
    CrossesBySide(a, b, x, y);
    CrossesBySide(b, c, x, y);
    CrossesBySide(c, a, x, y);
    if Above(a, y) { ApexAbove(a, b, c, x, y); } else { ApexBelow(a, b, c, x, y); }
  }

  lemma TriangleCount(a: Pos, b: Pos, c: Pos, x: real, y: real)
    ensures InRing(x, y, [a, b, c]) <==> ((Crosses(a, b, x, y) != Crosses(b, c, x, y)) != Crosses(c, a, x, y))
  {
    assert [c] + [a, b, c] == [c] + [a] + [b, c] && [a] + [b, c] == [a] + [b] + [c];
    CloseChain([], c, a, x, y);
    CloseChain([c], a, b, x, y);
    CloseChain([c, a], b, c, x, y);
    assert [] + [c] + [a] == [c] + [a] && [c] + [a] + [b] == [c, a] + [b] && [c, a] + [b] + [c] == [c] + [a, b, c];
    assert ChainCrossings([] + [c], x, y) == 0;
    CrossesBothWays(a, b, x, y);
    CrossesBothWays(b, c, x, y);
    CrossesBothWays(c, a, x, y);
  }

  /**
   A triangle with its corners counter-clockwise is the intersection of the half-planes left of its edges; of the
   boundary it has the edges that fall and the one that runs level to the right.
   */
  lemma TriangleIsThreeHalves(a: Pos, b: Pos, c: Pos, x: real, y: real)
    requires Orient(a, b, c) > 0.0
    ensures InRing(x, y, [a, b, c]) <==> InAllHalves(a, b, c, x, y)
  {
    TriangleCount(a, b, c, x, y);
    RotatedOrient(a, b, c);
    if Above(a, y) == Above(b, y) == Above(c, y) {
      NoCornerBetween(a, b, c, x, y);
    } else if Above(b, y) == Above(c, y) {
      ApexCrossings(a, b, c, x, y);
    } else if Above(c, y) == Above(a, y) {
      ApexCrossings(b, c, a, x, y);
    } else {
      ApexCrossings(c, a, b, x, y);
    }
  }

  /** Every triangle: clockwise ones are their own reverses, and flat ones are empty. */
  lemma TriangleEitherWay(a: Pos, b: Pos, c: Pos, x: real, y: real)
    ensures Orient(a, b, c) > 0.0 ==> (InRing(x, y, [a, b, c]) <==> InAllHalves(a, b, c, x, y))
    ensures Orient(a, b, c) < 0.0 ==> (InRing(x, y, [a, b, c]) <==> InAllHalves(c, b, a, x, y))
    ensures Orient(a, b, c) == 0.0 ==> !InRing(x, y, [a, b, c])
  {
    RotatedOrient(a, b, c);
    if Orient(a, b, c) > 0.0 {
      TriangleIsThreeHalves(a, b, c, x, y);
    } else if Orient(a, b, c) < 0.0 {
      ReverseOfThree(a, b, c);
      ReversalInvariant([a, b, c], x, y);
      TriangleIsThreeHalves(c, b, a, x, y);
    } else {
      FlatTriangle(a, b, c, x, y);
    }
  }

  lemma ReverseOfThree(a: Pos, b: Pos, c: Pos)
    ensures Reverse([a, b, c]) == [c, b, a]
  {
    assert [a, b, c][1..] == [b, c] && [b, c][1..] == [c] && [c][1..] == [];
    assert Reverse([c]) == [c] && Reverse([b, c]) == [c] + [b];
  }

  lemma FlatTriangle(a: Pos, b: Pos, c: Pos, x: real, y: real)
    requires Orient(a, b, c) == 0.0
    ensures !InRing(x, y, [a, b, c])
  {
    TriangleCount(a, b, c, x, y);
    RotatedOrient(a, b, c);
    if Above(b, y) == Above(c, y) { FlatApex(a, b, c, x, y); }
    if Above(c, y) == Above(a, y) { FlatApex(b, c, a, x, y); }
    if Above(a, y) == Above(b, y) { FlatApex(c, a, b, x, y); }
  }

  /** The ray crosses both edges at the corner that lies apart, or neither. */
  lemma FlatApex(a: Pos, b: Pos, c: Pos, x: real, y: real)
    requires Orient(a, b, c) == 0.0 && Above(b, y) == Above(c, y)
    ensures !Crosses(b, c, x, y) && Crosses(c, a, x, y) == Crosses(a, b, x, y)
  {
    CrossesBySide(a, b, x, y);
    CrossesBySide(b, c, x, y);
    CrossesBySide(c, a, x, y);
    if Above(a, y) != Above(b, y) { FlatSides(a, b, c, x, y); }
  }

  lemma FlatSides(a: Pos, b: Pos, c: Pos, x: real, y: real)
    requires Orient(a, b, c) == 0.0 && Above(a, y) != Above(b, y) && Above(b, y) == Above(c, y)
    ensures Side(c, a, x, y) > 0.0 <==> Side(a, b, x, y) < 0.0
    ensures Side(c, a, x, y) < 0.0 <==> Side(a, b, x, y) > 0.0
  {
    var ab, ca := Side(a, b, x, y), Side(c, a, x, y);
    SidesAddUp(a, b, c, x, y);
    assert ca * (a.y - b.y) == ab * (c.y - a.y);
    var u, v := if Above(a, y) then a.y - b.y else b.y - a.y, if Above(a, y) then a.y - c.y else c.y - a.y;
    assert ca * u == -ab * v;
    ProductSigns(ca, u);
    ProductSigns(-ca, u);
    ProductSigns(ab, v);
    ProductSigns(-ab, v);
  }

  /**
   A point by latitude and longitude against a fence of upright rectangles, positions holding the longitude first:
   inside the outer one's half-open box and outside that of the hole.
   */
  lemma BoxWithHole(lat: real, lng: real, w0: real, e0: real, s0: real, n0: real, w1: real, e1: real, s1: real, n1: real)
    requires w0 < e0 && s0 < n0 && w1 < e1 && s1 < n1
    ensures var outer := [Pos(w0, s0), Pos(e0, s0), Pos(e0, n0), Pos(w0, n0)];
            var hole := [Pos(w1, s1), Pos(e1, s1), Pos(e1, n1), Pos(w1, n1)];
            && (InPolygon(lat, lng, [outer]) <==> w0 <= lng < e0 && s0 <= lat < n0)
            && (InPolygon(lat, lng, [outer, hole]) <==>
                  w0 <= lng < e0 && s0 <= lat < n0 && !(w1 <= lng < e1 && s1 <= lat < n1))
            && !InPolygon(lat, lng, [])
  {
    RectangleIsBox(w0, e0, s0, n0, lng, lat);
    RectangleIsBox(w1, e1, s1, n1, lng, lat);
    var outer, hole := [Pos(w0, s0), Pos(e0, s0), Pos(e0, n0), Pos(w0, n0)], [Pos(w1, s1), Pos(e1, s1), Pos(e1, n1), Pos(w1, n1)];
    assert [outer, hole][1] == hole;
  }

  /** The triangles from one corner to each edge of the chain, oddly many of them holding the point. */
  predicate InFan(apex: Pos, chain: seq<Pos>, x: real, y: real) {
    |chain| >= 2 && InRing(x, y, [apex, chain[0], chain[1]]) != InFan(apex, chain[1..], x, y)
  }

  /** Every ring, convex or not: a point is inside exactly when it is in oddly many triangles of the fan from a corner. */
  lemma {:induction false} RingIsFan(apex: Pos, chain: seq<Pos>, x: real, y: real)
    ensures InRing(x, y, [apex] + chain) == InFan(apex, chain, x, y)
  {
    if |chain| < 2 {
      SmallRing([apex] + chain, x, y);
    } else {
      var q, rest := chain[1], chain[2..];
      ChordSplits(apex, [chain[0]], q, rest, x, y);
      assert [apex] + [chain[0]] + [q] + rest == [apex] + chain && [apex] + [chain[0]] + [q] == [apex, chain[0], q];
      RotationInvariant([q] + rest, [apex], x, y);
      assert [apex] + ([q] + rest) == [apex] + chain[1..];
      RingIsFan(apex, chain[1..], x, y);
    }
  }

  /** One or two positions enclose nothing. */
  lemma SmallRing(ring: seq<Pos>, x: real, y: real)
    requires |ring| <= 2
    ensures !InRing(x, y, ring)
  {
    if |ring| == 2 {
      var a, b := ring[0], ring[1];
      assert [b] + ring == [] + [b] + [a] + [b] && [b] + [a] == [] + [b] + [a];
      CloseChain([b], a, b, x, y);
      CloseChain([], b, a, x, y);
      assert [] + [b] == [b] && ChainCrossings([b], x, y) == 0;
      CrossesBothWays(a, b, x, y);
    } else if |ring| == 1 {
      assert [ring[0]] + ring == [] + [ring[0]] + [ring[0]];
      CloseChain([], ring[0], ring[0], x, y);
      assert [] + [ring[0]] == ring && ChainCrossings(ring, x, y) == 0 && !Crosses(ring[0], ring[0], x, y);
    }
  }
}
