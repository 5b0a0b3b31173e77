/** Route tables: their routes and subnet associations, the comparator that
    orders destinations, the route list with 'local' routes pinned to the
    front, and the majority vote that assigns a table to an availability
    zone. */
module RouteTables {
  import opened Geometry
  import opened Text
  import opened Sorting
  import opened DiagramLists

  /** The zone of a table that no subnet is associated with. */
  const NoAz: string := "no_az"
  /** The gateway id of a VPC's implicit local route. */
  const LocalGateway: string := "local"

  datatype Route = Route(dest: string, state: string, gateway: string, origin: string)

  /** `associations` holds (subnet id, association id) pairs and
      `azConnections` the zone of each associated subnet, in the same order. */
  datatype RouteTable = RouteTable(
    id: string,
    name: string,
    associations: seq<(string, string)>,
    routes: seq<Route>,
    azConnections: seq<string>)

  function NewRouteTable(id: string, name: string): RouteTable {
    RouteTable(id, name, [], [], [])
  }

  // ---------------------------------------------------------------------
  // Building a table

  /** The API's origin names, shortened for display. */
  function SimplifyOrigin(origin: string): (r: string)
    ensures origin == "EnableVgwRoutePropagation" ==> r == "Propagated"
    ensures origin == "CreateRoute" ==> r == "Create Route"
    ensures origin == "CreateRouteTable" ==> r == "Create Table"
    ensures r != origin ==> origin in ["EnableVgwRoutePropagation", "CreateRoute", "CreateRouteTable"]
  {
    if origin == "EnableVgwRoutePropagation" then "Propagated"
    else if origin == "CreateRoute" then "Create Route"
    else if origin == "CreateRouteTable" then "Create Table"
    else origin
  }

  /** Shortening is idempotent: no display name is itself an API name. */
  lemma SimplifyOriginIdempotent(origin: string)
    ensures SimplifyOrigin(SimplifyOrigin(origin)) == SimplifyOrigin(origin)
  {
  }

  function AddRoute(t: RouteTable, dest: string, state: string, gateway: string, origin: string): (t': RouteTable)
    ensures |t'.routes| == |t.routes| + 1 && t'.routes[..|t.routes|] == t.routes
    ensures t'.routes[|t.routes|] == Route(dest, state, gateway, SimplifyOrigin(origin))
    ensures t'.(routes := t.routes) == t
  {
    t.(routes := t.routes + [Route(dest, state, gateway, SimplifyOrigin(origin))])
  }

  /** Adds the routes of an API response in order. */
  function AddRoutes(t: RouteTable, entries: seq<Route>): (t': RouteTable)
    ensures |t'.routes| == |t.routes| + |entries|
  {
    if |entries| == 0 then t
    else
      var e := entries[|entries| - 1];
      AddRoute(AddRoutes(t, entries[..|entries| - 1]), e.dest, e.state, e.gateway, e.origin)
  }

  /** Every route added to a table carries a display origin, which further
      shortening leaves unchanged, and the routes keep the response's order;
      nothing else in the table changes. */
  lemma {:induction false} AddRoutesKeepsOrder(t: RouteTable, entries: seq<Route>)
    ensures AddRoutes(t, entries).routes[..|t.routes|] == t.routes
    ensures forall i | 0 <= i < |entries| ::
      var r := AddRoutes(t, entries).routes[|t.routes| + i];
      r == entries[i].(origin := SimplifyOrigin(entries[i].origin)) && SimplifyOrigin(r.origin) == r.origin
    ensures AddRoutes(t, entries).(routes := t.routes) == t
  {
    if |entries| > 0 {
      var n := |entries| - 1;
      AddRoutesKeepsOrder(t, entries[..n]);
      var before := AddRoutes(t, entries[..n]);
      var after := AddRoutes(t, entries);
      assert after.routes[..|before.routes|] == before.routes;
      assert after.routes[..|t.routes|] == before.routes[..|t.routes|];
      forall i | 0 <= i < |entries|
        ensures var r := after.routes[|t.routes| + i];
          r == entries[i].(origin := SimplifyOrigin(entries[i].origin)) && SimplifyOrigin(r.origin) == r.origin
      {
        SimplifyOriginIdempotent(entries[i].origin);
        if i < n {
          assert after.routes[|t.routes| + i] == before.routes[|t.routes| + i];
          assert entries[..n][i] == entries[i];
        }
      }
    }
  }

  function RegisterAssociation(t: RouteTable, subnetId: string, associationId: string, az: string): (t': RouteTable)
    ensures t'.associations == t.associations + [(subnetId, associationId)]
    ensures t'.azConnections == t.azConnections + [az]
    ensures t'.routes == t.routes && t'.id == t.id && t'.name == t.name
  {
    t.(associations := t.associations + [(subnetId, associationId)], azConnections := t.azConnections + [az])
  }

  /** Registering keeps associations and zones paired one to one, and adds
      exactly one vote for the subnet's zone. */
  lemma RegisterAssociationPairs(t: RouteTable, subnetId: string, associationId: string, az: string)
    requires |t.associations| == |t.azConnections|
    ensures var t' := RegisterAssociation(t, subnetId, associationId, az);
      |t'.associations| == |t'.azConnections| &&
      Count(t'.azConnections, az) == Count(t.azConnections, az) + 1 &&
      forall z | z != az :: Count(t'.azConnections, z) == Count(t.azConnections, z)
  {
    var t' := RegisterAssociation(t, subnetId, associationId, az);
    assert t'.azConnections[..|t'.azConnections| - 1] == t.azConnections;
  }

  // ---------------------------------------------------------------------
  // Zone assignment by majority vote

  /** `list.count(x)`. */
  function Count(s: seq<string>, x: string): (n: nat)
    ensures n <= |s|
    ensures n > 0 <==> x in s
  {
    if |s| == 0 then 0
    else Count(s[..|s| - 1], x) + (if s[|s| - 1] == x then 1 else 0)
  }

  /** Two different values share the list: their counts add up to at most
      its length. */
  lemma {:induction false} CountPair(s: seq<string>, x: string, y: string)
    requires x != y
    ensures Count(s, x) + Count(s, y) <= |s|
  {
    if |s| > 0 {
      CountPair(s[..|s| - 1], x, y);
    }
  }

  /** `max(candidates, key=votes.count)`: the first candidate, in iteration
      order, whose count is maximal. */
  function MostVoted(votes: seq<string>, candidates: seq<string>): (r: string)
    requires |candidates| > 0
    ensures r in candidates
    ensures forall c | c in candidates :: Count(votes, c) <= Count(votes, r)
  {
    if |candidates| == 1 then candidates[0]
    else
      var best := MostVoted(votes, candidates[..|candidates| - 1]);
      var last := candidates[|candidates| - 1];
      assert candidates == candidates[..|candidates| - 1] + [last];
      if Count(votes, last) > Count(votes, best) then last else best
  }

  /** The zone a table is drawn next to: `NoAz` without associations,
      otherwise a zone with the most associated subnets. */
  function SuggestedAz(t: RouteTable): (z: string)
    ensures |t.azConnections| == 0 ==> z == NoAz
    ensures |t.azConnections| > 0 ==>
      z in t.azConnections && forall c | c in t.azConnections :: Count(t.azConnections, c) <= Count(t.azConnections, z)
  {
    if |t.azConnections| == 0 then NoAz else MostVoted(t.azConnections, t.azConnections)
  }

  /** A zone that holds more than half of the associations is the one chosen,
      whatever order ties would be broken in. */
  lemma SuggestedAzMajority(t: RouteTable, zone: string)
    requires 2 * Count(t.azConnections, zone) > |t.azConnections|
    ensures SuggestedAz(t) == zone
  {
    var z := SuggestedAz(t);
    if z != zone {
      CountPair(t.azConnections, z, zone);
    }
  }

  // ---------------------------------------------------------------------
  // Ordering destinations, as written

  /** Compares two destinations split at '.', segment by segment. It returns
      0 once either list is used up, -1 as soon as the first head is not an
      integer, 1 when only the second head is not, and otherwise orders by the
      integer heads, looking further only when they are equal. */
  function CmpCidr(a: seq<string>, b: seq<string>): (r: int)
    ensures -1 <= r <= 1
    ensures |a| == 0 || |b| == 0 ==> r == 0
    ensures |a| > 0 && |b| > 0 && ParseInt(a[0]).None? ==> r == -1
    ensures |a| > 0 && |b| > 0 && ParseInt(a[0]).Some? && ParseInt(b[0]).None? ==> r == 1
  {
    if |a| == 0 || |b| == 0 then 0
    else
      match (ParseInt(a[0]), ParseInt(b[0]))
      case (None, _) => -1
      case (Some(_), None) => 1
      case (Some(x), Some(y)) =>
        if x < y then -1 else if x > y then 1 else CmpCidr(a[1..], b[1..])
  }

  predicate AllNumeric(a: seq<string>) {
    forall i | 0 <= i < |a| :: ParseInt(a[i]).Some?
  }

  /** The integers that the segments of an all-numeric list denote. */
  function Values(a: seq<string>): (v: seq<int>)
    requires AllNumeric(a)
    ensures |v| == |a|
    ensures forall i | 0 <= i < |a| :: ParseInt(a[i]) == Some(v[i])
  {
    if |a| == 0 then [] else [ParseInt(a[0]).value] + Values(a[1..])
  }

  /** `x` comes strictly before `y` in lexicographic order: at the first
      position where they differ, both have an element and x's is smaller. */
  ghost predicate LexBefore(x: seq<int>, y: seq<int>) {
    exists k | 0 <= k < |x| && k < |y| :: x[..k] == y[..k] && x[k] < y[k]
  }

  lemma LexBeforeHead(x: seq<int>, y: seq<int>)
    requires |x| > 0 && |y| > 0 && x[0] != y[0]
    ensures LexBefore(x, y) <==> x[0] < y[0]
  {
    if x[0] < y[0] {
      assert x[..0] == y[..0];
    }
    if LexBefore(x, y) {
      var k :| 0 <= k < |x| && k < |y| && x[..k] == y[..k] && x[k] < y[k];
      if k > 0 {
        assert x[..k][0] == y[..k][0];
      }
    }
  }

  lemma LexBeforeTail(x: seq<int>, y: seq<int>)
    requires |x| > 0 && |y| > 0 && x[0] == y[0]
    ensures LexBefore(x, y) <==> LexBefore(x[1..], y[1..])
  {
    if LexBefore(x, y) {
      var k :| 0 <= k < |x| && k < |y| && x[..k] == y[..k] && x[k] < y[k];
      assert k > 0;
      assert x[1..][..k - 1] == x[..k][1..];
      assert y[1..][..k - 1] == y[..k][1..];
      assert x[1..][k - 1] < y[1..][k - 1];
    }
    if LexBefore(x[1..], y[1..]) {
      var k :| 0 <= k < |x[1..]| && k < |y[1..]| && x[1..][..k] == y[1..][..k] && x[1..][k] < y[1..][k];
      assert x[..k + 1] == [x[0]] + x[1..][..k];
      assert y[..k + 1] == [y[0]] + y[1..][..k];
      assert x[k + 1] < y[k + 1];
    }
  }

  /** On lists of integers the comparator is exactly lexicographic order in
      which a list and its extensions tie. */
  lemma {:induction false} CmpCidrNumeric(a: seq<string>, b: seq<string>)
    requires AllNumeric(a) && AllNumeric(b)
    ensures CmpCidr(a, b) < 0 <==> LexBefore(Values(a), Values(b))
    ensures CmpCidr(a, b) > 0 <==> LexBefore(Values(b), Values(a))
  {
    var va, vb := Values(a), Values(b);
    if |a| > 0 && |b| > 0 {
      assert ParseInt(a[0]) == Some(va[0]) && ParseInt(b[0]) == Some(vb[0]);
      if va[0] != vb[0] {
        LexBeforeHead(va, vb);
        LexBeforeHead(vb, va);
      } else {
        assert AllNumeric(a[1..]) && AllNumeric(b[1..]);
        assert Values(a[1..]) == va[1..] && Values(b[1..]) == vb[1..];
        assert CmpCidr(a, b) == CmpCidr(a[1..], b[1..]);
        CmpCidrNumeric(a[1..], b[1..]);
        LexBeforeTail(va, vb);
        LexBeforeTail(vb, va);
      }
    }
  }

  /** A list compares equal to itself exactly when every segment is an
      integer; otherwise it compares below itself. */
  lemma {:induction false} CmpCidrSelf(a: seq<string>)
    ensures CmpCidr(a, a) == (if AllNumeric(a) then 0 else -1)
  {
    if |a| > 0 && ParseInt(a[0]).Some? {
      CmpCidrSelf(a[1..]);
      if !AllNumeric(a[1..]) {
        var i :| 0 <= i < |a[1..]| && ParseInt(a[1..][i]).None?;
        assert ParseInt(a[i + 1]).None?;
      }
    }
  }

  /** The segments a route destination splits into at '.'. */
  function DottedSegments(dest: string): seq<string> {
    Split(dest, '.')
  }

  /** A destination in 10.0.0.x splits into its three leading octets and
      whatever follows the last dot, prefix length included. */
  lemma SplitDestination(last: string)
    requires '.' !in last
    ensures DottedSegments("10.0.0." + last) == ["10", "0", "0", last]
  {
    var parts := ["10", "0", "0", last];
    assert Join(parts[3..], '.') == last;
    assert Join(parts[2..], '.') == "0." + last;
    assert Join(parts[1..], '.') == "0.0." + last;
    assert Join(parts, '.') == "10.0.0." + last;
    forall i | 0 <= i < |parts| ensures '.' !in parts[i] {
    }
    SplitJoin(parts, '.');
  }

  lemma SplitExample()
    ensures DottedSegments("10.0.0.0/16") == ["10", "0", "0", "0/16"]
  {
    assert "10.0.0.0/16" == "10.0.0." + "0/16";
    SplitDestination("0/16");
  }

  /** A string that starts and ends with a digit but holds some other
      character is not an integer. */
  lemma NotAnInteger(s: string, i: nat)
    requires |s| > 0 && IsDigit(s[0]) && IsDigit(s[|s| - 1])
    requires i < |s| && !IsDigit(s[i])
    ensures ParseInt(s) == None
  {
    TrimUnchanged(s);
  }

  lemma PrefixSegmentNotInteger()
    ensures ParseInt("0/16") == None
  {
    NotAnInteger("0/16", 1);
  }

  /** A destination with a prefix length compares below itself: "0/16" is
      not an integer. */
  lemma CmpCidrSelfComparison()
    ensures CmpCidr(DottedSegments("10.0.0.0/16"), DottedSegments("10.0.0.0/16")) == -1
  {
    SplitExample();
    PrefixSegmentNotInteger();
    CmpCidrLastSegment("0/16", "0/16");
  }

  /** Two lists that agree up to a segment that is not an integer in the
      first: the first compares below the second, whatever that holds. */
  lemma {:induction false} CmpCidrNonIntegerFirst(a: seq<string>, b: seq<string>, k: nat)
    requires k < |a| && k < |b| && a[..k] == b[..k] && ParseInt(a[k]).None?
    ensures CmpCidr(a, b) == -1
  {
    if ParseInt(a[0]).Some? {
      assert a[0] == a[..k][0] && b[0] == b[..k][0];
      assert a[1..][..k - 1] == a[..k][1..] && b[1..][..k - 1] == b[..k][1..];
      CmpCidrNonIntegerFirst(a[1..], b[1..], k - 1);
    }
  }

  lemma SplitExampleLonger()
    ensures DottedSegments("10.0.0.0/24") == ["10", "0", "0", "0/24"]
  {
    assert "10.0.0.0/24" == "10.0.0." + "0/24";
    SplitDestination("0/24");
  }

  lemma LongerPrefixNotInteger()
    ensures ParseInt("0/24") == None
  {
    NotAnInteger("0/24", 1);
  }

  /** Two destinations that differ only in the prefix length each compare
      below the other. */
  lemma CmpCidrPrefixLengthsBothBelow()
    ensures CmpCidr(DottedSegments("10.0.0.0/16"), DottedSegments("10.0.0.0/24")) == -1
    ensures CmpCidr(DottedSegments("10.0.0.0/24"), DottedSegments("10.0.0.0/16")) == -1
  {
    SplitExample();
    SplitExampleLonger();
    PrefixSegmentNotInteger();
    LongerPrefixNotInteger();
    CmpCidrLastSegment("0/16", "0/24");
    CmpCidrLastSegment("0/24", "0/16");
  }

  lemma CmpCidrLastSegment(p: string, q: string)
    requires ParseInt(p).None?
    ensures CmpCidr(["10", "0", "0", p], ["10", "0", "0", q]) == -1
  {
    var a, b := ["10", "0", "0", p], ["10", "0", "0", q];
    assert a[..3] == b[..3];
    CmpCidrNonIntegerFirst(a, b, 3);
  }

  // ---------------------------------------------------------------------
  // Ordering destinations, corrected

  /** One segment against another: integers by value, anything else before
      every integer and, among themselves, by string order. */
  function CmpSegment(a: string, b: string): (r: int)
    ensures -1 <= r <= 1
  {
    match (ParseInt(a), ParseInt(b))
    case (Some(x), Some(y)) => CmpInt(x, y)
    case (None, Some(_)) => -1
    case (Some(_), None) => 1
    case (None, None) => CmpStrAntisymmetric(a, b); CmpStr(a, b)
  }

  lemma CmpSegmentAntisymmetric(a: string, b: string)
    ensures CmpSegment(a, b) == -CmpSegment(b, a)
  {
    CmpStrAntisymmetric(a, b);
  }

  lemma CmpSegmentTransitive(a: string, b: string, c: string)
    requires CmpSegment(a, b) <= 0 && CmpSegment(b, c) <= 0
    ensures CmpSegment(a, c) <= 0
  {
    if ParseInt(a).None? && ParseInt(b).None? && ParseInt(c).None? {
      CmpStrTransitive(a, b, c);
    }
  }

  /** Destination segments compared lexicographically by `CmpSegment`, a
      used-up list first. */
  function CmpCidrCorrected(a: seq<string>, b: seq<string>): (r: int)
    ensures -1 <= r <= 1
    ensures a == b ==> r == 0
    ensures |a| < |b| && a == b[..|a|] ==> r == -1
  {
    if |a| == 0 && |b| == 0 then 0
    else if |a| == 0 then -1
    else if |b| == 0 then 1
    else
      var c := CmpSegment(a[0], b[0]);
      CmpStrAntisymmetric(a[0], a[0]);
      assert |a| <= |b| && a == b[..|a|] ==> a[1..] == b[1..][..|a| - 1];
      if c != 0 then c else CmpCidrCorrected(a[1..], b[1..])
  }

  lemma {:induction false} CmpCidrCorrectedAntisymmetric(a: seq<string>, b: seq<string>)
    ensures CmpCidrCorrected(a, b) == -CmpCidrCorrected(b, a)
  {
    if |a| > 0 && |b| > 0 {
      CmpSegmentAntisymmetric(a[0], b[0]);
      CmpCidrCorrectedAntisymmetric(a[1..], b[1..]);
    }
  }

  lemma {:induction false} CmpCidrCorrectedTransitive(a: seq<string>, b: seq<string>, c: seq<string>)
    requires CmpCidrCorrected(a, b) <= 0 && CmpCidrCorrected(b, c) <= 0
    ensures CmpCidrCorrected(a, c) <= 0
  {
    if |a| > 0 && |b| > 0 && |c| > 0 {
      var ab, bc := CmpSegment(a[0], b[0]), CmpSegment(b[0], c[0]);
      CmpSegmentTransitive(a[0], b[0], c[0]);
      if ab == 0 && bc == 0 {
        CmpCidrCorrectedTransitive(a[1..], b[1..], c[1..]);
      } else if CmpSegment(a[0], c[0]) == 0 {
        CmpSegmentAntisymmetric(a[0], c[0]);
        CmpSegmentAntisymmetric(a[0], b[0]);
        CmpSegmentAntisymmetric(b[0], c[0]);
        if ab < 0 {
          CmpSegmentTransitive(b[0], c[0], a[0]);
        } else {
          CmpSegmentTransitive(c[0], a[0], b[0]);
        }
      }
    }
  }

  /** Where both lists are integers of the same length, the correction
      changes nothing. */
  lemma {:induction false} CmpCidrCorrectedAgrees(a: seq<string>, b: seq<string>)
    requires AllNumeric(a) && AllNumeric(b) && |a| == |b|
    ensures CmpCidrCorrected(a, b) == CmpCidr(a, b)
  {
    if |a| > 0 {
      assert ParseInt(a[0]).Some? && ParseInt(b[0]).Some?;
      assert AllNumeric(a[1..]) && AllNumeric(b[1..]);
      CmpCidrCorrectedAgrees(a[1..], b[1..]);
    }
  }

  /** The segments of a destination: its dotted address, then the prefix
      length (or whatever follows a '/'). */
  function CidrSegments(dest: string): seq<string> {
    var parts := Split(dest, '/');
    Split(parts[0], '.') + parts[1..]
  }

  /** The corrected order of two routes, by destination. */
  function RouteCmp(x: Route, y: Route): int {
    CmpCidrCorrected(CidrSegments(x.dest), CidrSegments(y.dest))
  }

  /** The order of two routes as the source computes it. */
  function RouteCmpAsWritten(x: Route, y: Route): int {
    CmpCidr(DottedSegments(x.dest), DottedSegments(y.dest))
  }

  /** The corrected route order is a total preorder on any routes, so the
      stable sort orders them fully and every route ties with itself. */
  lemma RouteOrderIsPreorder(u: seq<Route>)
    ensures TotalPreorderOn(RouteCmp, u)
    ensures forall x | x in u :: RouteCmp(x, x) == 0
  {
    forall x, y | x in u && y in u ensures RouteCmp(x, y) < 0 <==> RouteCmp(y, x) > 0 {
      CmpCidrCorrectedAntisymmetric(CidrSegments(x.dest), CidrSegments(y.dest));
    }
    forall x, y, z | x in u && y in u && z in u && RouteCmp(x, y) <= 0 && RouteCmp(y, z) <= 0
      ensures RouteCmp(x, z) <= 0
    {
      CmpCidrCorrectedTransitive(CidrSegments(x.dest), CidrSegments(y.dest), CidrSegments(z.dest));
    }
    forall x | x in u ensures RouteCmp(x, x) == 0 {
      CmpCidrCorrectedAntisymmetric(CidrSegments(x.dest), CidrSegments(x.dest));
    }
  }

  // ---------------------------------------------------------------------
  // Pinning local routes

  predicate IsLocal(r: Route) {
    r.gateway == LocalGateway
  }

  function Locals(s: seq<Route>): seq<Route> {
    if |s| == 0 then []
    else Locals(s[..|s| - 1]) + (if IsLocal(s[|s| - 1]) then [s[|s| - 1]] else [])
  }

  function NonLocals(s: seq<Route>): seq<Route> {
    if |s| == 0 then []
    else NonLocals(s[..|s| - 1]) + (if IsLocal(s[|s| - 1]) then [] else [s[|s| - 1]])
  }

  function Reverse<T>(s: seq<T>): (r: seq<T>)
    ensures |r| == |s|
    ensures forall i | 0 <= i < |s| :: r[i] == s[|s| - 1 - i]
  {
    if |s| == 0 then [] else [s[|s| - 1]] + Reverse(s[..|s| - 1])
  }

  /** The order the pinning loop leaves: local routes first, the last one
      found in front, then the other routes in their given order. */
  function Pinned(s: seq<Route>): seq<Route> {
    Reverse(Locals(s)) + NonLocals(s)
  }

  /** Walks the sorted list once; each local route found is popped and
      re-inserted at the front, which shifts the routes before it by one. */
  method PinLocals(sorted: seq<Route>) returns (r: seq<Route>)
    ensures r == Pinned(sorted)
  {
    r := sorted;
    var i := 0;
    while i < |r|
      invariant |r| == |sorted| && 0 <= i <= |r|
      invariant r[..i] == Pinned(sorted[..i])
      invariant r[i..] == sorted[i..]
    {
      assert sorted[..i + 1][..i] == sorted[..i];
      assert r[i] == sorted[i];
      if r[i].gateway == LocalGateway {
        r := [r[i]] + r[..i] + r[i + 1..];
        assert r[..i + 1] == [sorted[i]] + Pinned(sorted[..i]);
      } else {
        assert r[..i + 1] == r[..i] + [sorted[i]];
      }
      assert r[i + 1..] == sorted[i + 1..];
      i := i + 1;
    }
    assert sorted[..i] == sorted;
    assert r[..i] == r;
  }

  lemma {:induction false} FilterPermutation(s: seq<Route>)
    ensures multiset(Locals(s)) + multiset(NonLocals(s)) == multiset(s)
    ensures forall x | x in Locals(s) :: IsLocal(x)
    ensures forall x | x in NonLocals(s) :: !IsLocal(x)
  {
    if |s| > 0 {
      FilterPermutation(s[..|s| - 1]);
      assert s == s[..|s| - 1] + [s[|s| - 1]];
    }
  }

  lemma {:induction false} FiltersConcat(a: seq<Route>, b: seq<Route>)
    ensures Locals(a + b) == Locals(a) + Locals(b)
    ensures NonLocals(a + b) == NonLocals(a) + NonLocals(b)
  {
    if |b| == 0 {
      assert a + b == a;
    } else {
      var b' := b[..|b| - 1];
      var last := b[|b| - 1];
      var ab := a + b;
      FiltersConcat(a, b');
      assert ab[..|ab| - 1] == a + b';
      assert ab[|ab| - 1] == last;
      var l := if IsLocal(last) then [last] else [];
      var n := if IsLocal(last) then [] else [last];
      assert Locals(ab) == (Locals(a) + Locals(b')) + l;
      assert Locals(b) == Locals(b') + l;
      assert NonLocals(ab) == (NonLocals(a) + NonLocals(b')) + n;
      assert NonLocals(b) == NonLocals(b') + n;
    }
  }

  lemma {:induction false} FiltersAllLocal(s: seq<Route>)
    requires forall x | x in s :: IsLocal(x)
    ensures Locals(s) == s && NonLocals(s) == []
  {
    if |s| > 0 {
      var s', last := s[..|s| - 1], s[|s| - 1];
      assert s == s' + [last];
      assert IsLocal(last) by { assert last in s; }
      forall x | x in s' ensures IsLocal(x) { assert x in s; }
      FiltersAllLocal(s');
      assert Locals(s) == Locals(s') + [last];
      assert NonLocals(s) == NonLocals(s');
    }
  }

  lemma {:induction false} FiltersNoneLocal(s: seq<Route>)
    requires forall x | x in s :: !IsLocal(x)
    ensures Locals(s) == [] && NonLocals(s) == s
  {
    if |s| > 0 {
      var s', last := s[..|s| - 1], s[|s| - 1];
      assert s == s' + [last];
      assert !IsLocal(last) by { assert last in s; }
      forall x | x in s' ensures !IsLocal(x) { assert x in s; }
      FiltersNoneLocal(s');
      assert Locals(s) == Locals(s');
      assert NonLocals(s) == NonLocals(s') + [last];
    }
  }

  lemma LocalsOfPieces(a: seq<Route>, b: seq<Route>)
    requires forall x | x in a :: IsLocal(x)
    requires forall x | x in b :: !IsLocal(x)
    ensures Locals(a + b) == a && NonLocals(a + b) == b
  {
    FiltersConcat(a, b);
    FiltersAllLocal(a);
    FiltersNoneLocal(b);
  }

  lemma {:induction false} ReverseMultiset<T>(s: seq<T>)
    ensures multiset(Reverse(s)) == multiset(s)
  {
    if |s| > 0 {
      ReverseMultiset(s[..|s| - 1]);
      assert s == s[..|s| - 1] + [s[|s| - 1]];
    }
  }

  lemma ReversedLocalsAreLocal(s: seq<Route>)
    ensures forall x | x in Reverse(Locals(s)) :: IsLocal(x)
  {
    FilterPermutation(s);
    var l := Reverse(Locals(s));
    forall x | x in l ensures IsLocal(x) {
      var i :| 0 <= i < |l| && l[i] == x;
      assert Locals(s)[|l| - 1 - i] == x;
    }
  }

  /** What pinning promises: the same routes, every local route before every
      other one, the locals reversed and the others in their given order. */
  lemma PinnedProperties(s: seq<Route>)
    ensures multiset(Pinned(s)) == multiset(s)
    ensures forall i, j | 0 <= i < j < |Pinned(s)| :: IsLocal(Pinned(s)[j]) ==> IsLocal(Pinned(s)[i])
    ensures Locals(Pinned(s)) == Reverse(Locals(s))
    ensures NonLocals(Pinned(s)) == NonLocals(s)
  {
    var l, n := Reverse(Locals(s)), NonLocals(s);
    FilterPermutation(s);
    ReverseMultiset(Locals(s));
    ReversedLocalsAreLocal(s);
    LocalsOfPieces(l, n);
    PinnedLocalsFirst(l, n);
  }

  lemma PinnedLocalsFirst(l: seq<Route>, n: seq<Route>)
    requires forall x | x in l :: IsLocal(x)
    requires forall x | x in n :: !IsLocal(x)
    ensures forall i, j | 0 <= i < j < |l + n| :: IsLocal((l + n)[j]) ==> IsLocal((l + n)[i])
  {
    var p := l + n;
    forall i, j | 0 <= i < j < |p| ensures IsLocal(p[j]) ==> IsLocal(p[i]) {
      if i < |l| {
        assert p[i] == l[i] && p[i] in l;
      } else {
        assert p[j] == n[j - |l|] && p[j] in n;
      }
    }
  }

  lemma {:induction false} NonLocalsSorted(s: seq<Route>, cmp: (Route, Route) -> int)
    requires SortedBy(cmp, s)
    ensures SortedBy(cmp, NonLocals(s))
    ensures forall x | x in NonLocals(s) :: x in s
  {
    if |s| > 0 {
      var p := s[..|s| - 1];
      var last := s[|s| - 1];
      assert SortedBy(cmp, p) by {
        forall i, j | 0 <= i < j < |p| ensures cmp(p[i], p[j]) <= 0 {
          assert p[i] == s[i] && p[j] == s[j];
        }
      }
      NonLocalsSorted(p, cmp);
      var q := NonLocals(p);
      if !IsLocal(last) {
        forall i, j | 0 <= i < j < |q + [last]| ensures cmp((q + [last])[i], (q + [last])[j]) <= 0 {
          if j == |q| {
            assert q[i] in p;
            var k :| 0 <= k < |p| && p[k] == q[i];
            assert s[k] == q[i];
          }
        }
      }
    }
  }

  // ---------------------------------------------------------------------
  // The route list

  /** `sort_routes` with the corrected comparator. */
  function SortRoutes(routes: seq<Route>): (r: seq<Route>)
    ensures multiset(r) == multiset(routes)
    ensures forall i, j | 0 <= i < j < |r| :: IsLocal(r[j]) ==> IsLocal(r[i])
  {
    PinnedProperties(SortBy(routes, RouteCmp));
    Pinned(SortBy(routes, RouteCmp))
  }

  /** `sort_routes` as written. */
  function SortRoutesAsWritten(routes: seq<Route>): (r: seq<Route>)
    ensures multiset(r) == multiset(routes)
    ensures forall i, j | 0 <= i < j < |r| :: IsLocal(r[j]) ==> IsLocal(r[i])
  {
    PinnedProperties(SortBy(routes, RouteCmpAsWritten));
    Pinned(SortBy(routes, RouteCmpAsWritten))
  }

  /** The route list holds the table's routes, local ones first, the others
      in destination order; ties keep the order the routes were added in. */
  lemma SortRoutesSpec(routes: seq<Route>)
    ensures multiset(SortRoutes(routes)) == multiset(routes)
    ensures forall i, j | 0 <= i < j < |SortRoutes(routes)| ::
      IsLocal(SortRoutes(routes)[j]) ==> IsLocal(SortRoutes(routes)[i])
    ensures NonLocals(SortRoutes(routes)) == NonLocals(SortBy(routes, RouteCmp))
    ensures SortedBy(RouteCmp, NonLocals(SortRoutes(routes)))
    ensures forall e | e in routes :: Tied(SortBy(routes, RouteCmp), RouteCmp, e) == Tied(routes, RouteCmp, e)
  {
    var sorted := SortBy(routes, RouteCmp);
    RouteOrderIsPreorder(routes);
    SortBySorted(routes, RouteCmp);
    PinnedProperties(sorted);
    NonLocalsSorted(sorted, RouteCmp);
    forall e | e in routes ensures Tied(sorted, RouteCmp, e) == Tied(routes, RouteCmp, e) {
      SortByStable(routes, RouteCmp, e);
    }
  }

  /** As written, the list is still a permutation with the local routes
      first and the others in the sort's order; only their order among
      themselves depends on the inconsistent comparator. */
  lemma SortRoutesAsWrittenSpec(routes: seq<Route>)
    ensures multiset(SortRoutesAsWritten(routes)) == multiset(routes)
    ensures forall i, j | 0 <= i < j < |SortRoutesAsWritten(routes)| ::
      IsLocal(SortRoutesAsWritten(routes)[j]) ==> IsLocal(SortRoutesAsWritten(routes)[i])
    ensures NonLocals(SortRoutesAsWritten(routes)) == NonLocals(SortBy(routes, RouteCmpAsWritten))
  {
    PinnedProperties(SortBy(routes, RouteCmpAsWritten));
  }

  lemma AtLeastOneLine(lineHeight: int, rows: nat)
    requires rows >= 1
    ensures lineHeight >= 0 ==> lineHeight * rows >= lineHeight
  {
    if lineHeight >= 0 {
      MulNonNegative(lineHeight, rows - 1);
    }
  }

  /** Height of the table's route list; a table without routes never sets
      it, and the source fails reading it, which is `None` here. */
  function RouteListHeight(t: RouteTable, lineHeight: int): (h: Option<int>)
    ensures h.None? <==> |t.routes| == 0
    ensures h.Some? && lineHeight >= 0 ==> h.value >= DiagramHeaderSpacing + lineHeight
    ensures h.Some? ==> h.value == DiagramHeaderSpacing + lineHeight * |t.routes|
  {
    if |t.routes| == 0 then None
    else
      AtLeastOneLine(lineHeight, |t.routes|);
      Some(ListSize(RouteColumnWidths, |t.routes|, lineHeight).h)
  }

  // ---------------------------------------------------------------------
  // Ordering tables by zone

  /** `list.index(x)`, or the length when absent. */
  function IndexOf(s: seq<string>, x: string): (i: nat)
    ensures i <= |s|
    ensures i < |s| ==> s[i] == x && forall k | 0 <= k < i :: s[k] != x
    ensures i == |s| ==> x !in s
  {
    if |s| == 0 then 0
    else if s[0] == x then 0
    else 1 + IndexOf(s[1..], x)
  }

  /** The position of a table's zone in the VPC's zone order. */
  function AzRank(order: seq<string>, t: RouteTable): nat {
    IndexOf(order, SuggestedAz(t))
  }

  function AzCmp(order: seq<string>): (RouteTable, RouteTable) -> int {
    (x: RouteTable, y: RouteTable) => CmpInt(AzRank(order, x), AzRank(order, y))
  }

  /** `sorted(tables, cmp=...)` by the index of each table's zone in
      `zones + [NoAz]`. */
  function OrderByAz(tables: seq<RouteTable>, zones: seq<string>): (r: seq<RouteTable>)
    ensures multiset(r) == multiset(tables)
  {
    SortBy(tables, AzCmp(zones + [NoAz]))
  }

  lemma AzCmpPreorder(order: seq<string>, u: seq<RouteTable>)
    ensures TotalPreorderOn(AzCmp(order), u)
  {
  }

  /** The tables come out ordered by their zone's position, a table without
      a zone after all tables with a real one, and tables in the same zone in
      their original order. */
  lemma OrderByAzSpec(tables: seq<RouteTable>, zones: seq<string>)
    requires forall t | t in tables :: SuggestedAz(t) in zones + [NoAz]
    ensures multiset(OrderByAz(tables, zones)) == multiset(tables)
    ensures forall i, j | 0 <= i < j < |tables| ::
      AzRank(zones + [NoAz], OrderByAz(tables, zones)[i]) <= AzRank(zones + [NoAz], OrderByAz(tables, zones)[j])
    ensures NoAz !in zones ==> forall i, j | 0 <= i < j < |tables| ::
      SuggestedAz(OrderByAz(tables, zones)[i]) == NoAz ==> SuggestedAz(OrderByAz(tables, zones)[j]) == NoAz
    ensures forall e | e in tables ::
      Tied(OrderByAz(tables, zones), AzCmp(zones + [NoAz]), e) == Tied(tables, AzCmp(zones + [NoAz]), e)
  {
    var order := zones + [NoAz];
    var r := OrderByAz(tables, zones);
    AzCmpPreorder(order, tables);
    SortBySorted(tables, AzCmp(order));
    forall i, j | 0 <= i < j < |tables| ensures AzRank(order, r[i]) <= AzRank(order, r[j]) {
      assert AzCmp(order)(r[i], r[j]) <= 0;
    }
    if NoAz !in zones {
      forall i, j | 0 <= i < j < |tables| && SuggestedAz(r[i]) == NoAz
        ensures SuggestedAz(r[j]) == NoAz
      {
        assert r[i] in multiset(tables) && r[j] in multiset(tables);
        assert order[|zones|] == NoAz;
        assert AzRank(order, r[i]) == |zones|;
        assert AzCmp(order)(r[i], r[j]) <= 0;
        assert SuggestedAz(r[j]) in order;
      }
    }
    forall e | e in tables ensures Tied(r, AzCmp(order), e) == Tied(tables, AzCmp(order), e) {
      SortByStable(tables, AzCmp(order), e);
    }
  }
}
