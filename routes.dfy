/** A route candidate: the van it implies, the locations visited so far and the full location list. */
module Routes {
  import opened Domain

  datatype DeliveryRoute = DeliveryRoute(van: Van, visited: seq<Location>, all: seq<Location>)

  // ---------------------------------------------------------------------------
  // Available and valid locations
  // ---------------------------------------------------------------------------

  /** `e in visited`, with location equality. */
  predicate Visited(visited: seq<Location>, e: Location) {
    exists i :: 0 <= i < |visited| && SameLocation(visited[i], e)
  }

  lemma VisitedIfPresent(visited: seq<Location>, e: Location)
    requires e in visited
    ensures Visited(visited, e)
  {
    var i :| 0 <= i < |visited| && visited[i] == e;
    assert SameLocation(visited[i], e);
  }

  /** The locations of `all`, in order, that are not yet visited. */
  function Unvisited(all: seq<Location>, visited: seq<Location>): (r: seq<Location>)
    ensures forall e :: e in r <==> e in all && !Visited(visited, e)
    ensures |r| <= |all|
  {
    if all == [] then []
    else
      assert all == [all[0]] + all[1..];
      (if Visited(visited, all[0]) then [] else [all[0]]) + Unvisited(all[1..], visited)
  }

  /** `available_locations`: every location of the route's universe not yet visited. */
  function Available(r: DeliveryRoute): seq<Location> {
    Unvisited(r.all, r.visited)
  }

  /** The legality rule: a pick needs the package not aboard and room for it; a drop needs it aboard. */
  predicate IsLegal(van: Van, e: Location) {
    match e.action
    case Pickup(p) => !van.Has(p) && van.CanFit(p)
    case Drop(p) => van.Has(p)
    case Start => false
    case End => false
  }

  /** The locations of `s`, in order, that are legal for `van`. */
  function LegalAmong(van: Van, s: seq<Location>): (r: seq<Location>)
    ensures forall e :: e in r <==> e in s && IsLegal(van, e)
    ensures |r| <= |s|
  {
    if s == [] then []
    else
      var init, last := s[..|s| - 1], s[|s| - 1];
      assert s == init + [last];
      var legal := LegalAmong(van, init);
      if IsLegal(van, last) then legal + [last] else legal
  }

  /**
   * Both filters keep the order and the multiplicity of their input: each distributes over
   * concatenation, and on one location keeps it or drops it.
   */
  lemma {:induction false} UnvisitedInOrder(a: seq<Location>, b: seq<Location>, visited: seq<Location>)
    ensures Unvisited(a + b, visited) == Unvisited(a, visited) + Unvisited(b, visited)
    ensures |a| == 1 ==> Unvisited(a, visited) == (if Visited(visited, a[0]) then [] else a)
  {
    if a == [] {
      assert a + b == b;
    } else {
      assert (a + b)[0] == a[0];
      assert (a + b)[1..] == a[1..] + b;
      UnvisitedInOrder(a[1..], b, visited);
    }
  }

  lemma {:induction false} LegalAmongInOrder(van: Van, a: seq<Location>, b: seq<Location>)
    ensures LegalAmong(van, a + b) == LegalAmong(van, a) + LegalAmong(van, b)
    ensures |a| == 1 ==> LegalAmong(van, a) == (if IsLegal(van, a[0]) then a else [])
  {
    if |a| == 1 {
      assert a[..0] == [];
    }
    if b == [] {
      assert a + b == a;
    } else {
      var init, last := b[..|b| - 1], b[|b| - 1];
      assert (a + b)[..|a + b| - 1] == a + init;
      assert (a + b)[|a + b| - 1] == last;
      LegalAmongInOrder(van, a, init);
    }
  }

  /** `get_valid_locations` as a value. */
  function ValidNext(r: DeliveryRoute): seq<Location> {
    LegalAmong(r.van, Available(r))
  }

  /**
   * `get_valid_locations`: scans the available locations and keeps the legal ones. Exactly the
   * unvisited locations of the universe that are legal are returned, and never a start or an end.
   */
  method GetValidLocations(r: DeliveryRoute) returns (valid: seq<Location>)
    ensures valid == ValidNext(r)
    ensures forall e :: e in valid <==> e in r.all && !Visited(r.visited, e) && IsLegal(r.van, e)
    ensures forall e :: e in valid ==> e.action.Pickup? || e.action.Drop?
  {
    var available := Available(r);
    valid := [];
    for i := 0 to |available|
      invariant valid == LegalAmong(r.van, available[..i])
    {
      var location := available[i];
      assert available[..i + 1] == available[..i] + [location];
      if location.action.Pickup? {
        if !r.van.Has(location.action.package) && r.van.CanFit(location.action.package) {
          valid := valid + [location];
        }
      } else if location.action.Drop? {
        if r.van.Has(location.action.package) {
          valid := valid + [location];
        }
      }
    }
    assert available[..|available|] == available;
  }

  // ---------------------------------------------------------------------------
  // Length and fuel
  // ---------------------------------------------------------------------------

  function Abs(x: int): int {
    if x < 0 then -x else x
  }

  /** `route_length`: the sum of the distances between consecutive visited locations. */
  function RouteLength(visited: seq<Location>): (n: int)
    ensures n >= 0
  {
    if |visited| < 2 then 0
    else Abs(visited[0].position - visited[1].position) + RouteLength(visited[1..])
  }

  /** Visiting one more location adds the distance from the last one. */
  lemma {:induction false} RouteLengthAppend(visited: seq<Location>, e: Location)
    requires |visited| > 0
    ensures RouteLength(visited + [e]) == RouteLength(visited) + Abs(visited[|visited| - 1].position - e.position)
  {
    if |visited| > 1 {
      assert (visited + [e])[1..] == visited[1..] + [e];
      RouteLengthAppend(visited[1..], e);
    }
  }

  /** A route has length zero exactly when it never leaves its first position. */
  lemma {:induction false} RouteLengthZeroIff(visited: seq<Location>)
    ensures RouteLength(visited) == 0 <==> forall i :: 0 <= i < |visited| ==> visited[i].position == visited[0].position
  {
    if |visited| >= 2 {
      RouteLengthZeroIff(visited[1..]);
      assert forall i :: 1 <= i < |visited| ==> visited[i] == visited[1..][i - 1];
    }
  }

  /** No visited location is farther from the first one than the route is long. */
  lemma {:induction false} RouteLengthCoversEveryStop(visited: seq<Location>, j: int)
    requires 0 <= j < |visited|
    ensures RouteLength(visited) >= Abs(visited[0].position - visited[j].position)
  {
    if j > 0 {
      RouteLengthCoversEveryStop(visited[1..], j - 1);
    }
  }

  /** `fuel_consumption`: route length times the van's fuel rate. */
  function Fuel(r: DeliveryRoute): int {
    RouteLength(r.visited) * r.van.fuelRate
  }

  /** Multiplying by a positive rate keeps the sign. */
  lemma MulKeepsSign(x: int, rate: int)
    requires rate > 0
    ensures x >= 0 ==> x * rate >= 0
    ensures x < 0 ==> x * rate < 0
  {
  }

  /** For one van, comparing fuel is comparing length. */
  lemma FuelFollowsLength(a: DeliveryRoute, b: DeliveryRoute)
    requires a.van.fuelRate == b.van.fuelRate > 0
    ensures Fuel(a) >= 0
    ensures Fuel(a) <= Fuel(b) <==> RouteLength(a.visited) <= RouteLength(b.visited)
  {
    var rate, la, lb := a.van.fuelRate, RouteLength(a.visited), RouteLength(b.visited);
    MulKeepsSign(la, rate);
    MulKeepsSign(lb - la, rate);
    assert Fuel(b) - Fuel(a) == (lb - la) * rate;
  }

  /** `formated_locations`: each visited location as its position and action label. */
  function Formatted(visited: seq<Location>): (r: seq<(int, string)>)
    ensures |r| == |visited|
    ensures forall i :: 0 <= i < |visited| ==> r[i] == (visited[i].position, Label(visited[i].action))
  {
    seq(|visited|, i requires 0 <= i < |visited| => (visited[i].position, Label(visited[i].action)))
  }
}
