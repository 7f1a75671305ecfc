/** The exhaustive expansion of route candidates for one van. */
module Search {
  import opened Domain
  import opened Routes

  // ---------------------------------------------------------------------------
  // The location universe
  // ---------------------------------------------------------------------------

  /**
   * `generate_locations`: one pick per package in package order, then one drop per package in
   * package order, and a start and an end location at position 0.
   */
  function GenerateLocations(packages: seq<Package>): (r: (seq<Location>, Location, Location))
    ensures |r.0| == 2 * |packages|
    ensures forall i :: 0 <= i < |packages| ==> r.0[i] == PickupOf(packages[i])
    ensures forall i :: 0 <= i < |packages| ==> r.0[|packages| + i] == DropOf(packages[i])
    ensures r.1 == Location(0, Start) && r.2 == Location(0, End)
  {
    var pickups := seq(|packages|, i requires 0 <= i < |packages| => PickupOf(packages[i]));
    var drops := seq(|packages|, i requires 0 <= i < |packages| => DropOf(packages[i]));
    (pickups + drops, Location(0, Start), Location(0, End))
  }

  function Universe(packages: seq<Package>): seq<Location> {
    GenerateLocations(packages).0
  }

  const StartLocation := Location(0, Start)
  const EndLocation := Location(0, End)

  /** Every universe location is the pick or the drop of one of the packages. */
  lemma UniverseOnlyPicksAndDrops(packages: seq<Package>, e: Location)
    requires e in Universe(packages)
    ensures exists p :: p in packages && (e == PickupOf(p) || e == DropOf(p))
  {
    var u, n := Universe(packages), |packages|;
    var k :| 0 <= k < |u| && u[k] == e;
    if k < n {
      assert e == PickupOf(packages[k]);
    } else {
      assert e == DropOf(packages[k - n]);
    }
  }

  /** The pick and the drop of every package are universe locations. */
  lemma UniverseHasPickAndDrop(packages: seq<Package>, p: Package)
    requires p in packages
    ensures PickupOf(p) in Universe(packages) && DropOf(p) in Universe(packages)
  {
    var u, n := Universe(packages), |packages|;
    var i :| 0 <= i < n && packages[i] == p;
    assert u[i] == PickupOf(p);
    assert u[n + i] == DropOf(p);
  }

  /** The universe holds the pick and the drop of every package, and nothing else. */
  lemma UniverseMembers(packages: seq<Package>, e: Location)
    ensures e in Universe(packages) <==> exists p :: p in packages && (e == PickupOf(p) || e == DropOf(p))
  {
    if e in Universe(packages) {
      UniverseOnlyPicksAndDrops(packages, e);
    }
    if exists p :: p in packages && (e == PickupOf(p) || e == DropOf(p)) {
      var p :| p in packages && (e == PickupOf(p) || e == DropOf(p));
      UniverseHasPickAndDrop(packages, p);
    }
  }

  // ---------------------------------------------------------------------------
  // One child per valid location
  // ---------------------------------------------------------------------------

  /** What `generate_new_route` needs: a dropped package must be aboard (`list.remove` raises otherwise). */
  predicate CanApply(van: Van, e: Location) {
    e.action.Drop? ==> van.Has(e.action.package)
  }

  lemma LegalCanApply(van: Van, e: Location)
    requires IsLegal(van, e)
    ensures CanApply(van, e)
  {
  }

  /** The cargo after visiting `e`: a pick appends its package, a drop removes it, other actions keep it. */
  function NextCargo(cargo: seq<Package>, e: Location): seq<Package>
    requires e.action.Drop? ==> InCargo(cargo, e.action.package)
  {
    match e.action
    case Pickup(p) => cargo + [p]
    case Drop(p) => RemoveFirst(cargo, p)
    case Start => cargo
    case End => cargo
  }

  /**
   * `generate_new_route`: a new route whose visited list is the parent's plus `e` and whose van is
   * a copy of the parent's with the cargo updated; the parent itself is a value and stays as it was.
   */
  function Child(r: DeliveryRoute, e: Location): (c: DeliveryRoute)
    requires CanApply(r.van, e)
    ensures c.visited == r.visited + [e] && c.all == r.all && c.van.Info() == r.van.Info()
    ensures e.action.Pickup? ==> c.van.cargo == r.van.cargo + [e.action.package]
    ensures e.action.Pickup? ==> c.van.CurrentWeight() == r.van.CurrentWeight() + e.action.package.weight
    ensures e.action.Drop? ==> c.van.cargo == RemoveFirst(r.van.cargo, e.action.package)
    ensures e.action.Drop? ==> |c.van.cargo| + 1 == |r.van.cargo|
    ensures e.action.Drop? ==>
      c.van.CurrentWeight() == r.van.CurrentWeight() - r.van.cargo[IndexOf(r.van.cargo, e.action.package)].weight
  {
    var c := DeliveryRoute(Van(r.van.capacity, r.van.fuelRate, NextCargo(r.van.cargo, e)), r.visited + [e], r.all);
    if e.action.Pickup? then TotalWeightAppend(r.van.cargo, e.action.package); c else c
  }

  function Children(r: DeliveryRoute, locs: seq<Location>): (cs: seq<DeliveryRoute>)
    requires forall e :: e in locs ==> CanApply(r.van, e)
    ensures |cs| == |locs|
    ensures forall i :: 0 <= i < |locs| ==> cs[i] == Child(r, locs[i])
  {
    seq(|locs|, i requires 0 <= i < |locs| => Child(r, locs[i]))
  }

  /** Every route's children, route by route in frontier order; a route with no valid location adds none. */
  function AllChildren(routes: seq<DeliveryRoute>): seq<DeliveryRoute> {
    if routes == [] then []
    else
      var last := routes[|routes| - 1];
      AllChildren(routes[..|routes| - 1]) + Children(last, ValidNext(last))
  }

  /** `update_routes` as a value: the children of the frontier, or the frontier itself when there are none. */
  function NextFrontier(routes: seq<DeliveryRoute>): seq<DeliveryRoute> {
    var children := AllChildren(routes);
    if children == [] then routes else children
  }

  /** `c` is built from `r` by visiting one of its valid locations. */
  predicate ChildOf(r: DeliveryRoute, c: DeliveryRoute) {
    exists e :: e in ValidNext(r) && CanApply(r.van, e) && c == Child(r, e)
  }

  lemma ValidNextCanApply(r: DeliveryRoute)
    ensures forall e :: e in ValidNext(r) ==> CanApply(r.van, e)
  {
    forall e | e in ValidNext(r) {
      LegalCanApply(r.van, e);
    }
  }

  /** Every member of a frontier's children is a child of one of its routes. */
  lemma {:induction false} AllChildrenSound(routes: seq<DeliveryRoute>, c: DeliveryRoute)
    requires c in AllChildren(routes)
    ensures exists i :: 0 <= i < |routes| && ChildOf(routes[i], c)
  {
    var n := |routes|;
    var init, last := routes[..n - 1], routes[n - 1];
    var mine := Children(last, ValidNext(last));
    if c in AllChildren(init) {
      AllChildrenSound(init, c);
      var i :| 0 <= i < |init| && ChildOf(init[i], c);
      assert routes[i] == init[i];
    } else {
      assert c in mine;
      var k :| 0 <= k < |mine| && mine[k] == c;
      ValidNextCanApply(last);
      assert ChildOf(routes[n - 1], c);
    }
  }

  lemma ChildrenHas(r: DeliveryRoute, locs: seq<Location>, e: Location)
    requires e in locs && forall x :: x in locs ==> CanApply(r.van, x)
    ensures Child(r, e) in Children(r, locs)
  {
    var k :| 0 <= k < |locs| && locs[k] == e;
    assert Children(r, locs)[k] == Child(r, e);
  }

  /** Every child of every route of a frontier is among its children. */
  lemma {:induction false} AllChildrenComplete(routes: seq<DeliveryRoute>, i: int, e: Location)
    requires 0 <= i < |routes| && e in ValidNext(routes[i])
    ensures CanApply(routes[i].van, e) && Child(routes[i], e) in AllChildren(routes)
  {
    ValidNextCanApply(routes[i]);
    var n := |routes|;
    var init, last := routes[..n - 1], routes[n - 1];
    assert routes == init + [last];
    if i < n - 1 {
      assert init[i] == routes[i];
      AllChildrenComplete(init, i, e);
    } else {
      ChildrenHas(last, ValidNext(last), e);
    }
  }

  /** One route with a valid location is enough for the frontier to have children. */
  lemma AllChildrenNonEmpty(routes: seq<DeliveryRoute>, i: int)
    requires 0 <= i < |routes| && ValidNext(routes[i]) != []
    ensures AllChildren(routes) != []
  {
    AllChildrenComplete(routes, i, ValidNext(routes[i])[0]);
  }

  /** `update_routes` never empties a non-empty frontier. */
  lemma NextFrontierNonEmpty(routes: seq<DeliveryRoute>)
    requires routes != []
    ensures NextFrontier(routes) != []
  {
  }

  /**
   * `update_routes`: for each route in order, appends one child per valid location; a route without
   * any is skipped; the old frontier is returned only when no route produced a child.
   */
  method UpdateRoutes(routes: seq<DeliveryRoute>) returns (next: seq<DeliveryRoute>)
    ensures next == NextFrontier(routes)
  {
    var newRoutes := [];
    for i := 0 to |routes|
      invariant newRoutes == AllChildren(routes[..i])
    {
      var route := routes[i];
      AllChildrenStep(routes, i);
      var valid := GetValidLocations(route);
      if valid == [] {
        continue;
      }
      ValidNextCanApply(route);
      for j := 0 to |valid|
        invariant newRoutes == AllChildren(routes[..i]) + Children(route, valid[..j])
      {
        ChildrenStep(route, valid, j);
        newRoutes := newRoutes + [Child(route, valid[j])];
      }
      assert valid[..|valid|] == valid;
    }
    assert routes[..|routes|] == routes;
    if newRoutes == [] {
      next := routes;
    } else {
      next := newRoutes;
    }
  }

  lemma AllChildrenStep(routes: seq<DeliveryRoute>, i: int)
    requires 0 <= i < |routes|
    ensures AllChildren(routes[..i + 1]) == AllChildren(routes[..i]) + Children(routes[i], ValidNext(routes[i]))
  {
    assert routes[..i + 1][..i] == routes[..i];
  }

  lemma ChildrenStep(r: DeliveryRoute, locs: seq<Location>, j: int)
    requires 0 <= j < |locs| && forall e :: e in locs ==> CanApply(r.van, e)
    ensures Children(r, locs[..j + 1]) == Children(r, locs[..j]) + [Child(r, locs[j])]
  {
  }

  /** A frontier that changes is made only of children of its routes. */
  lemma NextFrontierSound(routes: seq<DeliveryRoute>, c: DeliveryRoute)
    requires c in NextFrontier(routes) && NextFrontier(routes) != routes
    ensures exists i :: 0 <= i < |routes| && ChildOf(routes[i], c)
  {
    AllChildrenSound(routes, c);
  }

  // ---------------------------------------------------------------------------
  // Seeding, rounds and finishing
  // ---------------------------------------------------------------------------

  /** A seed route: start, then the pick `e`, with a copy of the van carrying that package (no fit check). */
  function Seed(e: Location, all: seq<Location>, start: Location, van: Van): DeliveryRoute
    requires e.action.Pickup?
  {
    DeliveryRoute(Van(van.capacity, van.fuelRate, [e.action.package]), [start, e], all)
  }

  /** One seed per pick among `locs`, in order. */
  function SeedRoutes(locs: seq<Location>, all: seq<Location>, start: Location, van: Van): (r: seq<DeliveryRoute>)
    ensures forall s :: s in r <==> exists e :: e in locs && e.action.Pickup? && s == Seed(e, all, start, van)
  {
    if locs == [] then []
    else
      var init, last := locs[..|locs| - 1], locs[|locs| - 1];
      assert locs == init + [last];
      var seeds := SeedRoutes(init, all, start, van);
      if last.action.Pickup? then seeds + [Seed(last, all, start, van)] else seeds
  }

  /** Seeding keeps the order of the pick locations and skips every other location. */
  lemma {:induction false} SeedRoutesInOrder(a: seq<Location>, b: seq<Location>, all: seq<Location>, start: Location, van: Van)
    ensures SeedRoutes(a + b, all, start, van) == SeedRoutes(a, all, start, van) + SeedRoutes(b, all, start, van)
    ensures |a| == 1 ==> SeedRoutes(a, all, start, van) == (if a[0].action.Pickup? then [Seed(a[0], all, start, van)] else [])
  {
    if |a| == 1 {
      assert a[..0] == [];
    }
    if b == [] {
      assert a + b == a;
    } else {
      var init, last := b[..|b| - 1], b[|b| - 1];
      assert (a + b)[..|a + b| - 1] == a + init;
      assert (a + b)[|a + b| - 1] == last;
      SeedRoutesInOrder(a, init, all, start, van);
    }
  }

  lemma {:induction false} SeedsOfPicks(locs: seq<Location>, all: seq<Location>, start: Location, van: Van)
    requires forall i :: 0 <= i < |locs| ==> locs[i].action.Pickup?
    ensures |SeedRoutes(locs, all, start, van)| == |locs|
    ensures forall i :: 0 <= i < |locs| ==> SeedRoutes(locs, all, start, van)[i] == Seed(locs[i], all, start, van)
  {
    if locs != [] {
      SeedsOfPicks(locs[..|locs| - 1], all, start, van);
    }
  }

  lemma {:induction false} NoSeedsOfDrops(locs: seq<Location>, all: seq<Location>, start: Location, van: Van)
    requires forall i :: 0 <= i < |locs| ==> locs[i].action.Drop?
    ensures SeedRoutes(locs, all, start, van) == []
  {
    if locs != [] {
      NoSeedsOfDrops(locs[..|locs| - 1], all, start, van);
    }
  }

  /** The universe is the picks of the packages in order, followed by their drops. */
  lemma UniverseHalves(packages: seq<Package>)
    ensures var all, n := Universe(packages), |packages|;
      && all == all[..n] + all[n..]
      && |all[..n]| == n
      && (forall i :: 0 <= i < n ==> all[..n][i] == PickupOf(packages[i]))
      && (forall i :: 0 <= i < |all[n..]| ==> all[n..][i].action.Drop?)
  {
    var all, n := Universe(packages), |packages|;
    assert forall i :: 0 <= i < |all[n..]| ==> all[n..][i] == DropOf(packages[i]);
  }

  /** The seed frontier holds exactly one route per package, in package order. */
  lemma InitialRoutesInOrder(packages: seq<Package>, van: Van)
    ensures |InitialRoutes(packages, van)| == |packages|
    ensures forall i :: 0 <= i < |packages| ==>
      InitialRoutes(packages, van)[i] == Seed(PickupOf(packages[i]), Universe(packages), StartLocation, van)
  {
    var all, n := Universe(packages), |packages|;
    UniverseHalves(packages);
    var picks, drops := all[..n], all[n..];
    SeedRoutesInOrder(picks, drops, all, StartLocation, van);
    SeedsOfPicks(picks, all, StartLocation, van);
    NoSeedsOfDrops(drops, all, StartLocation, van);
    assert InitialRoutes(packages, van) == SeedRoutes(picks, all, StartLocation, van);
  }

  /** The number of expansion rounds, `2 * len(packages) - 1`; `range` of a negative number is empty. */
  function RoundCount(n: nat): nat {
    if n == 0 then 0 else 2 * n - 1
  }

  function Rounds(routes: seq<DeliveryRoute>, k: nat): seq<DeliveryRoute> {
    if k == 0 then routes else NextFrontier(Rounds(routes, k - 1))
  }

  lemma {:induction false} RoundsNonEmpty(routes: seq<DeliveryRoute>, k: nat)
    requires routes != []
    ensures Rounds(routes, k) != []
  {
    if k > 0 {
      RoundsNonEmpty(routes, k - 1);
      NextFrontierNonEmpty(Rounds(routes, k - 1));
    }
  }

  function Finish(r: DeliveryRoute, end: Location): DeliveryRoute {
    r.(visited := r.visited + [end])
  }

  /** Every surviving route gets the end location appended, whether or not it is complete. */
  function Finalize(routes: seq<DeliveryRoute>, end: Location): (r: seq<DeliveryRoute>)
    ensures |r| == |routes|
    ensures forall i :: 0 <= i < |routes| ==> r[i] == Finish(routes[i], end)
  {
    seq(|routes|, i requires 0 <= i < |routes| => Finish(routes[i], end))
  }

  /** The seed frontier: one route per package, in package order. */
  function InitialRoutes(packages: seq<Package>, van: Van): seq<DeliveryRoute> {
    var (all, start, _) := GenerateLocations(packages);
    SeedRoutes(all, all, start, van)
  }

  /** `generate_all_possible_routes_for_van` as a value. */
  function AllRoutes(packages: seq<Package>, van: Van): seq<DeliveryRoute> {
    Finalize(Rounds(InitialRoutes(packages, van), RoundCount(|packages|)), EndLocation)
  }

  /** With at least one package there is at least one route to choose from. */
  lemma AllRoutesNonEmpty(packages: seq<Package>, van: Van)
    requires packages != []
    ensures AllRoutes(packages, van) != []
  {
    var (all, start, end) := GenerateLocations(packages);
    var seeds := InitialRoutes(packages, van);
    assert Seed(all[0], all, start, van) in seeds;
    RoundsNonEmpty(seeds, RoundCount(|packages|));
  }

  /**
   * The last loop of `generate_all_possible_routes_for_van`: every surviving route, in place, gets
   * the end location appended to its visited list.
   */
  method AppendEnd(frontier: seq<DeliveryRoute>, end: Location) returns (routes: seq<DeliveryRoute>)
    ensures routes == Finalize(frontier, end)
  {
    routes := frontier;
    for i := 0 to |routes|
      invariant |routes| == |frontier|
      invariant forall j :: 0 <= j < i ==> routes[j] == Finish(frontier[j], end)
      invariant forall j :: i <= j < |routes| ==> routes[j] == frontier[j]
    {
      routes := routes[i := routes[i].(visited := routes[i].visited + [end])];
    }
  }

  /**
   * `generate_all_possible_routes_for_van`: seeds one route per pick, runs `update_routes`
   * `2 * len(packages) - 1` times, then appends the end location to every route in place.
   */
  method GenerateAllPossibleRoutes(packages: seq<Package>, van: Van) returns (routes: seq<DeliveryRoute>)
    ensures routes == AllRoutes(packages, van)
    ensures packages != [] ==> routes != []
  {
    var (all, start, end) := GenerateLocations(packages);
    routes := [];
    for i := 0 to |all|
      invariant routes == SeedRoutes(all[..i], all, start, van)
    {
      assert all[..i + 1][..i] == all[..i];
      if all[i].action.Pickup? {
        routes := routes + [Seed(all[i], all, start, van)];
      }
    }
    assert all[..|all|] == all;
    assert routes == InitialRoutes(packages, van);
    ghost var seeds := routes;
    for round := 0 to RoundCount(|packages|)
      invariant routes == Rounds(seeds, round)
    {
      routes := UpdateRoutes(routes);
    }
    routes := AppendEnd(routes, end);
    assert end == EndLocation;
    if packages != [] {
      AllRoutesNonEmpty(packages, van);
    }
  }
}
