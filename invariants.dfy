/**
 * What every route generated for a suitable van satisfies: it starts at the start location,
 * never repeats a location, picks each package before dropping it, never exceeds the van's
 * capacity, and - once all rounds are done - visits every pick and drop and ends at the end.
 */
module Invariants {
  import opened Domain
  import opened Routes
  import opened Search
  import opened Counting

  // ---------------------------------------------------------------------------
  // Hypotheses
  // ---------------------------------------------------------------------------

  /** Valid packages with distinct ids (the solver numbers them 0, 1, 2, ...). */
  predicate WellFormed(packages: seq<Package>) {
    (forall i :: 0 <= i < |packages| ==> packages[i].Valid()) && DistinctIds(packages)
  }

  /** The van passes `get_suitable_vans`: it can carry every package on its own. */
  predicate Suitable(van: Van, packages: seq<Package>) {
    van.Valid() && forall i :: 0 <= i < |packages| ==> packages[i].weight <= van.capacity
  }

  // ---------------------------------------------------------------------------
  // A reference definition of the load
  // ---------------------------------------------------------------------------

  /** After `visited`, the package is aboard: its pick has been visited and its drop has not. */
  predicate Aboard(p: Package, visited: seq<Location>) {
    PickupOf(p) in visited && DropOf(p) !in visited
  }

  /** The weight aboard after `visited`: the sum of the weights of the packages aboard. */
  function Load(packages: seq<Package>, visited: seq<Location>): int {
    if packages == [] then 0
    else (if Aboard(packages[0], visited) then packages[0].weight else 0) + Load(packages[1..], visited)
  }

  lemma {:induction false} LoadNothingVisited(packages: seq<Package>)
    ensures Load(packages, []) == 0
  {
    if packages != [] {
      LoadNothingVisited(packages[1..]);
    }
  }

  /** Visiting a location that is no package's pick or drop leaves the load unchanged. */
  lemma {:induction false} LoadUnrelated(packages: seq<Package>, visited: seq<Location>, e: Location)
    requires forall q :: q in packages ==> e != PickupOf(q) && e != DropOf(q)
    ensures Load(packages, visited + [e]) == Load(packages, visited)
  {
    if packages != [] {
      assert packages[0] in packages;
      LoadUnrelated(packages[1..], visited, e);
    }
  }

  /** In a list of distinct ids, the packages after the first one are other packages. */
  lemma RestDiffers(packages: seq<Package>)
    requires packages != [] && DistinctIds(packages)
    ensures forall q :: q in packages[1..] ==> q.id != packages[0].id
  {
    forall q | q in packages[1..] ensures q.id != packages[0].id {
      var j :| 0 <= j < |packages[1..]| && packages[1..][j] == q;
      assert packages[j + 1] == q;
    }
  }

  /** Picking a package that was never picked adds its weight to the load. */
  lemma {:induction false} LoadPick(packages: seq<Package>, visited: seq<Location>, p: Package)
    requires DistinctIds(packages) && p in packages
    requires PickupOf(p) !in visited && DropOf(p) !in visited
    ensures Load(packages, visited + [PickupOf(p)]) == Load(packages, visited) + p.weight
  {
    RestDiffers(packages);
    if packages[0] == p {
      LoadUnrelated(packages[1..], visited, PickupOf(p));
    } else {
      LoadPick(packages[1..], visited, p);
    }
  }

  /** Dropping a package that is aboard removes its weight from the load. */
  lemma {:induction false} LoadDrop(packages: seq<Package>, visited: seq<Location>, p: Package)
    requires DistinctIds(packages) && p in packages
    requires Aboard(p, visited)
    ensures Load(packages, visited + [DropOf(p)]) == Load(packages, visited) - p.weight
  {
    RestDiffers(packages);
    if packages[0] == p {
      LoadUnrelated(packages[1..], visited, DropOf(p));
    } else {
      LoadDrop(packages[1..], visited, p);
    }
  }

  // ---------------------------------------------------------------------------
  // The route invariant
  // ---------------------------------------------------------------------------

  /** The route belongs to this package set and van, starts at the start and visits only universe locations. */
  predicate Framed(packages: seq<Package>, van: Van, r: DeliveryRoute) {
    && r.all == Universe(packages)
    && r.van.Info() == van.Info()
    && |r.visited| >= 2
    && r.visited[0] == StartLocation
    && forall i :: 1 <= i < |r.visited| ==> r.visited[i] in Universe(packages)
  }

  /** Every drop is preceded by the pick of the same package. */
  predicate PickedBeforeDropped(visited: seq<Location>) {
    forall j :: 0 <= j < |visited| && visited[j].action.Drop? ==>
      exists i :: 0 <= i < j && visited[i] == PickupOf(visited[j].action.package)
  }

  /** The cargo is exactly the packages aboard, each once, and weighs what they weigh. */
  predicate CargoMatches(packages: seq<Package>, cargo: seq<Package>, visited: seq<Location>) {
    && (forall q :: q in cargo ==> q in packages)
    && DistinctIds(cargo)
    && (forall p :: p in packages ==> (InCargo(cargo, p) <==> Aboard(p, visited)))
    && TotalWeight(cargo) == Load(packages, visited)
  }

  /** After every prefix from the seed on, the load is within the capacity. */
  predicate WithinCapacity(packages: seq<Package>, visited: seq<Location>, capacity: int) {
    forall k :: 2 <= k <= |visited| ==> Load(packages, visited[..k]) <= capacity
  }

  predicate RouteOk(packages: seq<Package>, van: Van, r: DeliveryRoute) {
    && Framed(packages, van, r)
    && Distinct(r.visited)
    && PickedBeforeDropped(r.visited)
    && CargoMatches(packages, r.van.cargo, r.visited)
    && WithinCapacity(packages, r.visited, van.capacity)
  }

  // ---------------------------------------------------------------------------
  // Location equality inside the universe
  // ---------------------------------------------------------------------------

  /** The start location is no pick and no drop, so it is not in the universe; nor is the end. */
  lemma SentinelsOutsideUniverse(packages: seq<Package>)
    ensures StartLocation !in Universe(packages) && EndLocation !in Universe(packages)
  {
    UniverseMembers(packages, StartLocation);
    UniverseMembers(packages, EndLocation);
  }

  /** With distinct ids, the universe has no repeated location. */
  lemma UniverseDistinct(packages: seq<Package>)
    requires DistinctIds(packages)
    ensures Distinct(Universe(packages))
  {
    var u, n := Universe(packages), |packages|;
    forall i, j | 0 <= i < j < |u| ensures u[i] != u[j] {
      if j < n {
        assert packages[i].id != packages[j].id;
      } else if i >= n {
        assert packages[i - n].id != packages[j - n].id;
      }
    }
  }

  /** With distinct ids, location equality between universe locations is plain equality. */
  lemma SameLocationInUniverse(packages: seq<Package>, a: Location, b: Location)
    requires DistinctIds(packages)
    requires a in Universe(packages) && b in Universe(packages)
    ensures SameLocation(a, b) <==> a == b
  {
    UniverseMembers(packages, a);
    UniverseMembers(packages, b);
    var p :| p in packages && (a == PickupOf(p) || a == DropOf(p));
    var q :| q in packages && (b == PickupOf(q) || b == DropOf(q));
    SameIdSamePackage(packages, p, q);
  }

  /**
   * On a route that starts at the start and otherwise visits universe locations, a universe
   * location counts as visited (by location equality) only if it is literally in the route.
   */
  lemma NotVisitedInUniverse(packages: seq<Package>, visited: seq<Location>, e: Location)
    requires DistinctIds(packages)
    requires |visited| >= 1 && visited[0] == StartLocation
    requires forall i :: 1 <= i < |visited| ==> visited[i] in Universe(packages)
    requires e in Universe(packages) && e !in visited
    ensures !Visited(visited, e)
  {
    UniverseMembers(packages, e);
    forall i | 0 <= i < |visited| ensures !SameLocation(visited[i], e) {
      if i > 0 {
        SameLocationInUniverse(packages, visited[i], e);
      }
    }
  }

  /** A location offered by `get_valid_locations` is a universe location not yet in the route. */
  lemma ValidNextFresh(r: DeliveryRoute, e: Location)
    requires e in ValidNext(r)
    ensures e in r.all && e !in r.visited && IsLegal(r.van, e)
  {
    if e in r.visited {
      VisitedIfPresent(r.visited, e);
    }
  }

  // ---------------------------------------------------------------------------
  // Seeds and children keep the invariant
  // ---------------------------------------------------------------------------

  lemma InCargoSingle(p: Package, q: Package)
    ensures InCargo([p], q) <==> p.SameAs(q)
  {
    if p.SameAs(q) {
      assert [p][0].SameAs(q);
    }
  }

  /** A seed's cargo, its package alone, is exactly what is aboard after start and its pick. */
  lemma SeedCargoOk(packages: seq<Package>, p: Package)
    requires WellFormed(packages) && p in packages
    ensures CargoMatches(packages, [p], [StartLocation, PickupOf(p)])
    ensures Load(packages, [StartLocation, PickupOf(p)]) == p.weight
  {
    var v := [StartLocation, PickupOf(p)];
    forall q | q in packages ensures InCargo([p], q) <==> Aboard(q, v) {
      InCargoSingle(p, q);
      SameIdSamePackage(packages, p, q);
    }
    LoadNothingVisited(packages);
    LoadUnrelated(packages, [], StartLocation);
    assert [] + [StartLocation] == [StartLocation];
    LoadPick(packages, [StartLocation], p);
    assert [StartLocation] + [PickupOf(p)] == v;
    assert TotalWeight([p]) == p.weight;
  }

  /** A seed starts at the start, then visits a universe location, and repeats nothing. */
  lemma SeedShapeOk(packages: seq<Package>, van: Van, p: Package)
    requires p in packages
    ensures var r := Seed(PickupOf(p), Universe(packages), StartLocation, van);
      Framed(packages, van, r) && Distinct(r.visited) && PickedBeforeDropped(r.visited)
  {
    UniverseMembers(packages, PickupOf(p));
  }

  /** A seed of a suitable van is within its capacity. */
  lemma SeedCapacityOk(packages: seq<Package>, van: Van, p: Package)
    requires WellFormed(packages) && Suitable(van, packages) && p in packages
    ensures WithinCapacity(packages, [StartLocation, PickupOf(p)], van.capacity)
  {
    SeedCargoOk(packages, p);
    var pi :| 0 <= pi < |packages| && packages[pi] == p;
    assert [StartLocation, PickupOf(p)][..2] == [StartLocation, PickupOf(p)];
  }

  /** A seed route of a suitable van satisfies the invariant. */
  lemma SeedOk(packages: seq<Package>, van: Van, p: Package)
    requires WellFormed(packages) && Suitable(van, packages) && p in packages
    ensures RouteOk(packages, van, Seed(PickupOf(p), Universe(packages), StartLocation, van))
  {
    SeedShapeOk(packages, van, p);
    SeedCargoOk(packages, p);
    SeedCapacityOk(packages, van, p);
  }

  lemma PickedBeforeDroppedSnoc(visited: seq<Location>, e: Location)
    requires PickedBeforeDropped(visited)
    requires e.action.Drop? ==> PickupOf(e.action.package) in visited
    ensures PickedBeforeDropped(visited + [e])
  {
    var w := visited + [e];
    forall j | 0 <= j < |w| && w[j].action.Drop?
      ensures exists i :: 0 <= i < j && w[i] == PickupOf(w[j].action.package)
    {
      if j < |visited| {
        var i :| 0 <= i < j && visited[i] == PickupOf(visited[j].action.package);
        assert w[i] == visited[i];
      } else {
        var i :| 0 <= i < |visited| && visited[i] == PickupOf(e.action.package);
        assert w[i] == visited[i];
      }
    }
  }

  /** Removing the package at `k` from a cargo of distinct ids removes exactly that id. */
  lemma InCargoAfterRemove(cargo: seq<Package>, k: int, q: Package)
    requires DistinctIds(cargo) && 0 <= k < |cargo|
    ensures InCargo(cargo[..k] + cargo[k + 1..], q) <==> InCargo(cargo, q) && !cargo[k].SameAs(q)
    ensures DistinctIds(cargo[..k] + cargo[k + 1..])
  {
    var rest := cargo[..k] + cargo[k + 1..];
    assert forall i :: 0 <= i < |rest| ==> rest[i] == cargo[if i < k then i else i + 1];
    if InCargo(rest, q) {
      var i :| 0 <= i < |rest| && rest[i].SameAs(q);
      var j := if i < k then i else i + 1;
      assert cargo[j] == rest[i];
    }
    if InCargo(cargo, q) && !cargo[k].SameAs(q) {
      var j :| 0 <= j < |cargo| && cargo[j].SameAs(q);
      var i := if j < k then j else j - 1;
      assert rest[i] == cargo[j];
    }
  }

  /** The prefixes of a route extended by one location are its own prefixes, and then all of it. */
  lemma WithinCapacitySnoc(packages: seq<Package>, visited: seq<Location>, e: Location, capacity: int)
    requires WithinCapacity(packages, visited, capacity)
    requires Load(packages, visited + [e]) <= capacity
    ensures WithinCapacity(packages, visited + [e], capacity)
  {
    var w := visited + [e];
    forall k | 2 <= k <= |w| ensures Load(packages, w[..k]) <= capacity {
      if k <= |visited| {
        assert w[..k] == visited[..k];
      } else {
        assert w[..k] == w;
      }
    }
  }

  /** A child stays framed, repeats no location and, for a drop whose pick was visited, keeps picks before drops. */
  lemma ChildShapeOk(packages: seq<Package>, van: Van, r: DeliveryRoute, e: Location)
    requires RouteOk(packages, van, r) && e in ValidNext(r) && CanApply(r.van, e)
    requires e.action.Drop? ==> PickupOf(e.action.package) in r.visited
    ensures var c := Child(r, e);
      Framed(packages, van, c) && Distinct(c.visited) && PickedBeforeDropped(c.visited)
  {
    ValidNextFresh(r, e);
    var c := Child(r, e);
    assert c.visited == r.visited + [e];
    DistinctSnoc(r.visited, e);
    PickedBeforeDroppedSnoc(r.visited, e);
  }

  /** A package whose pick was not visited has not been dropped either. */
  lemma NotDroppedBeforePicked(visited: seq<Location>, p: Package)
    requires PickedBeforeDropped(visited) && PickupOf(p) !in visited
    ensures DropOf(p) !in visited
  {
  }

  /** Appending a package that is not aboard makes it, and only it, newly aboard. */
  lemma PickMembership(packages: seq<Package>, cargo: seq<Package>, v: seq<Location>, p: Package)
    requires DistinctIds(packages) && p in packages
    requires forall q :: q in packages ==> (InCargo(cargo, q) <==> Aboard(q, v))
    requires PickupOf(p) !in v && DropOf(p) !in v
    ensures forall q :: q in packages ==> (InCargo(cargo + [p], q) <==> Aboard(q, v + [PickupOf(p)]))
  {
    var c := cargo + [p];
    forall q | q in packages ensures InCargo(c, q) <==> Aboard(q, v + [PickupOf(p)]) {
      SameIdSamePackage(packages, p, q);
      if InCargo(c, q) {
        var i :| 0 <= i < |c| && c[i].SameAs(q);
        if i < |cargo| {
          assert cargo[i].SameAs(q);
        }
      }
      if InCargo(cargo, q) {
        var i :| 0 <= i < |cargo| && cargo[i].SameAs(q);
        assert c[i].SameAs(q);
      }
      if p.SameAs(q) {
        assert c[|cargo|].SameAs(q);
      }
    }
  }

  /** After picking a package not yet picked, the cargo with it appended is exactly what is aboard. */
  lemma PickCargo(packages: seq<Package>, cargo: seq<Package>, v: seq<Location>, p: Package)
    requires DistinctIds(packages) && p in packages && CargoMatches(packages, cargo, v)
    requires PickupOf(p) !in v && DropOf(p) !in v
    ensures CargoMatches(packages, cargo + [p], v + [PickupOf(p)])
  {
    PickMembership(packages, cargo, v, p);
    assert !InCargo(cargo, p);
    assert forall i :: 0 <= i < |cargo| ==> !cargo[i].SameAs(p);
    assert DistinctIds(cargo + [p]);
    LoadPick(packages, v, p);
    TotalWeightAppend(cargo, p);
  }

  /** After a valid pick, the cargo with the package appended is exactly what is aboard. */
  lemma PickCargoOk(packages: seq<Package>, van: Van, r: DeliveryRoute, p: Package)
    requires WellFormed(packages) && RouteOk(packages, van, r)
    requires p in packages && PickupOf(p) in ValidNext(r)
    ensures CargoMatches(packages, r.van.cargo + [p], r.visited + [PickupOf(p)])
  {
    ValidNextFresh(r, PickupOf(p));
    NotDroppedBeforePicked(r.visited, p);
    PickCargo(packages, r.van.cargo, r.visited, p);
  }

  /** The child for a valid pick keeps the invariant. */
  lemma PickChildOk(packages: seq<Package>, van: Van, r: DeliveryRoute, p: Package)
    requires WellFormed(packages) && RouteOk(packages, van, r)
    requires p in packages && PickupOf(p) in ValidNext(r)
    ensures RouteOk(packages, van, Child(r, PickupOf(p)))
  {
    var e := PickupOf(p);
    ValidNextFresh(r, e);
    ChildShapeOk(packages, van, r, e);
    PickCargoOk(packages, van, r, p);
    var c := Child(r, e);
    assert c.visited == r.visited + [e] && c.van.cargo == r.van.cargo + [p];
    WithinCapacitySnoc(packages, r.visited, e, van.capacity);
  }

  /** Removing the aboard package from the cargo makes it, and only it, no longer aboard. */
  lemma DropMembership(packages: seq<Package>, cargo: seq<Package>, v: seq<Location>, p: Package)
    requires DistinctIds(packages) && p in packages && DistinctIds(cargo)
    requires forall q :: q in packages ==> (InCargo(cargo, q) <==> Aboard(q, v))
    requires InCargo(cargo, p) && cargo[IndexOf(cargo, p)] in packages
    ensures forall q :: q in packages ==> (InCargo(RemoveFirst(cargo, p), q) <==> Aboard(q, v + [DropOf(p)]))
  {
    var k := IndexOf(cargo, p);
    SameIdSamePackage(packages, cargo[k], p);
    forall q | q in packages ensures InCargo(RemoveFirst(cargo, p), q) <==> Aboard(q, v + [DropOf(p)]) {
      InCargoAfterRemove(cargo, k, q);
      SameIdSamePackage(packages, p, q);
    }
  }

  /** After dropping a package aboard, the cargo without it is exactly what is aboard, and the load falls. */
  lemma DropCargo(packages: seq<Package>, cargo: seq<Package>, v: seq<Location>, p: Package)
    requires WellFormed(packages) && p in packages && CargoMatches(packages, cargo, v)
    requires InCargo(cargo, p)
    ensures CargoMatches(packages, RemoveFirst(cargo, p), v + [DropOf(p)])
    ensures Load(packages, v + [DropOf(p)]) < Load(packages, v)
  {
    var k := IndexOf(cargo, p);
    var rest := RemoveFirst(cargo, p);
    assert rest == cargo[..k] + cargo[k + 1..];
    assert cargo[k] in cargo;
    SameIdSamePackage(packages, cargo[k], p);
    forall q | q in rest ensures q in packages {
      var i :| 0 <= i < |rest| && rest[i] == q;
      assert q == cargo[if i < k then i else i + 1];
    }
    DropMembership(packages, cargo, v, p);
    InCargoAfterRemove(cargo, k, p);
    LoadDrop(packages, v, p);
  }

  /** After a valid drop, the cargo without the package is exactly what is aboard, and the load falls. */
  lemma DropCargoOk(packages: seq<Package>, van: Van, r: DeliveryRoute, p: Package)
    requires WellFormed(packages) && RouteOk(packages, van, r)
    requires p in packages && DropOf(p) in ValidNext(r)
    ensures CanApply(r.van, DropOf(p))
    ensures CargoMatches(packages, Child(r, DropOf(p)).van.cargo, r.visited + [DropOf(p)])
    ensures Load(packages, r.visited + [DropOf(p)]) < Load(packages, r.visited)
  {
    ValidNextFresh(r, DropOf(p));
    DropCargo(packages, r.van.cargo, r.visited, p);
  }

  /** The child for a valid drop keeps the invariant. */
  lemma DropChildOk(packages: seq<Package>, van: Van, r: DeliveryRoute, p: Package)
    requires WellFormed(packages) && RouteOk(packages, van, r)
    requires p in packages && DropOf(p) in ValidNext(r)
    ensures RouteOk(packages, van, Child(r, DropOf(p)))
  {
    var e := DropOf(p);
    ValidNextFresh(r, e);
    DropCargoOk(packages, van, r, p);
    assert Aboard(p, r.visited);
    ChildShapeOk(packages, van, r, e);
    assert Child(r, e).visited == r.visited + [e];
    assert r.visited[..|r.visited|] == r.visited;
    WithinCapacitySnoc(packages, r.visited, e, van.capacity);
  }

  /** Every child built from a valid location keeps the invariant and is one location longer. */
  lemma ChildOk(packages: seq<Package>, van: Van, r: DeliveryRoute, c: DeliveryRoute)
    requires WellFormed(packages) && RouteOk(packages, van, r)
    requires ChildOf(r, c)
    ensures RouteOk(packages, van, c) && |c.visited| == |r.visited| + 1
  {
    var e :| e in ValidNext(r) && CanApply(r.van, e) && c == Child(r, e);
    ValidNextFresh(r, e);
    UniverseMembers(packages, e);
    var p :| p in packages && (e == PickupOf(p) || e == DropOf(p));
    if e == PickupOf(p) {
      PickChildOk(packages, van, r, p);
    } else {
      DropChildOk(packages, van, r, p);
    }
  }

  // ---------------------------------------------------------------------------
  // No route stalls, so every route completes
  // ---------------------------------------------------------------------------

  /** A universe location not yet in the route and legal for its van is offered. */
  lemma InValidNext(packages: seq<Package>, van: Van, r: DeliveryRoute, e: Location)
    requires DistinctIds(packages) && Framed(packages, van, r)
    requires e in Universe(packages) && e !in r.visited && IsLegal(r.van, e)
    ensures e in ValidNext(r)
  {
    NotVisitedInUniverse(packages, r.visited, e);
    assert e in Available(r);
  }

  /** The drop of any package aboard is offered. */
  lemma DropAvailable(packages: seq<Package>, van: Van, r: DeliveryRoute)
    requires WellFormed(packages) && Framed(packages, van, r)
    requires CargoMatches(packages, r.van.cargo, r.visited) && r.van.cargo != []
    ensures DropOf(r.van.cargo[0]) in ValidNext(r)
  {
    var q := r.van.cargo[0];
    assert InCargo(r.van.cargo, q);
    assert Aboard(q, r.visited);
    UniverseMembers(packages, DropOf(q));
    InValidNext(packages, van, r, DropOf(q));
  }

  /** A route that has not visited the whole universe has a package whose pick it has not visited. */
  lemma UnpickedExists(packages: seq<Package>, van: Van, r: DeliveryRoute)
    requires WellFormed(packages) && Framed(packages, van, r) && Distinct(r.visited)
    requires CargoMatches(packages, r.van.cargo, r.visited) && r.van.cargo == []
    requires |r.visited| <= 2 * |packages|
    ensures exists p :: p in packages && PickupOf(p) !in r.visited
  {
    var v, u := r.visited, Universe(packages);
    UniverseDistinct(packages);
    SentinelsOutsideUniverse(packages);
    if forall x :: x in u ==> x in v[1..] {
      Covering(v[1..], u);
      assert false;
    }
    var x :| x in u && x !in v[1..];
    assert x !in v;
    UniverseMembers(packages, x);
    var p :| p in packages && (x == PickupOf(p) || x == DropOf(p));
    if PickupOf(p) in v {
      assert false;
    }
  }

  /** An empty van of a suitable size can pick any package not yet picked. */
  lemma PickAvailable(packages: seq<Package>, van: Van, r: DeliveryRoute, p: Package)
    requires WellFormed(packages) && Suitable(van, packages) && Framed(packages, van, r)
    requires r.van.cargo == [] && p in packages && PickupOf(p) !in r.visited
    ensures PickupOf(p) in ValidNext(r)
  {
    var pi :| 0 <= pi < |packages| && packages[pi] == p;
    assert !InCargo(r.van.cargo, p);
    assert IsLegal(r.van, PickupOf(p));
    UniverseMembers(packages, PickupOf(p));
    InValidNext(packages, van, r, PickupOf(p));
  }

  /**
   * A route of a suitable van that has not yet visited every universe location always has a
   * valid next location: a drop for any package aboard, else a pick of a package not yet picked.
   */
  lemma HasValidNext(packages: seq<Package>, van: Van, r: DeliveryRoute)
    requires WellFormed(packages) && Suitable(van, packages) && RouteOk(packages, van, r)
    requires |r.visited| <= 2 * |packages|
    ensures ValidNext(r) != []
  {
    if r.van.cargo != [] {
      DropAvailable(packages, van, r);
    } else {
      UnpickedExists(packages, van, r);
      var p :| p in packages && PickupOf(p) !in r.visited;
      PickAvailable(packages, van, r, p);
    }
  }

  /** The seed frontier of a suitable van is not empty and every seed keeps the invariant. */
  lemma InitialRoutesOk(packages: seq<Package>, van: Van)
    requires WellFormed(packages) && Suitable(van, packages) && packages != []
    ensures FrontierOk(packages, van, InitialRoutes(packages, van), 2)
  {
    var seeds := InitialRoutes(packages, van);
    var u := Universe(packages);
    assert Seed(u[0], u, StartLocation, van) in seeds;
    forall r | r in seeds ensures RouteOk(packages, van, r) && |r.visited| == 2 {
      var e :| e in u && e.action.Pickup? && r == Seed(e, u, StartLocation, van);
      UniverseMembers(packages, e);
      var p :| p in packages && (e == PickupOf(p) || e == DropOf(p));
      SeedOk(packages, van, p);
    }
  }

  /** A frontier that is not empty and whose routes all keep the invariant and have length `len`. */
  predicate FrontierOk(packages: seq<Package>, van: Van, routes: seq<DeliveryRoute>, len: nat) {
    routes != [] && forall r :: r in routes ==> RouteOk(packages, van, r) && |r.visited| == len
  }

  /** One round on a frontier of equal-length routes that are not yet complete. */
  lemma RoundOk(packages: seq<Package>, van: Van, prev: seq<DeliveryRoute>, m: nat)
    requires WellFormed(packages) && Suitable(van, packages)
    requires m < 2 * |packages| && FrontierOk(packages, van, prev, m + 1)
    ensures NextFrontier(prev) == AllChildren(prev)
    ensures FrontierOk(packages, van, NextFrontier(prev), m + 2)
  {
    HasValidNext(packages, van, prev[0]);
    AllChildrenNonEmpty(prev, 0);
    forall c | c in AllChildren(prev) ensures RouteOk(packages, van, c) && |c.visited| == m + 2 {
      AllChildrenSound(prev, c);
      var i :| 0 <= i < |prev| && ChildOf(prev[i], c);
      ChildOk(packages, van, prev[i], c);
    }
  }

  /** Before any round, the frontier is the seeds. */
  lemma FrontierBase(packages: seq<Package>, van: Van)
    requires WellFormed(packages) && Suitable(van, packages) && packages != []
    ensures FrontierOk(packages, van, Rounds(InitialRoutes(packages, van), 0), 2)
  {
    InitialRoutesOk(packages, van);
  }

  /** Round `k` of `update_routes` keeps the invariant and lengthens every route by one. */
  lemma FrontierStep(packages: seq<Package>, van: Van, k: nat)
    requires WellFormed(packages) && Suitable(van, packages) && packages != []
    requires 0 < k <= RoundCount(|packages|)
    requires FrontierOk(packages, van, Rounds(InitialRoutes(packages, van), k - 1), k + 1)
    ensures FrontierOk(packages, van, Rounds(InitialRoutes(packages, van), k), k + 2)
  {
    RoundOk(packages, van, Rounds(InitialRoutes(packages, van), k - 1), k);
  }

  /**
   * After `k` rounds of `update_routes` (up to `2N - 1`), the frontier is not empty, every route in
   * it keeps the invariant, and every route has visited exactly `k + 1` universe locations.
   */
  lemma {:induction false} FrontierInvariant(packages: seq<Package>, van: Van, k: nat)
    requires WellFormed(packages) && Suitable(van, packages) && packages != []
    requires k <= RoundCount(|packages|)
    ensures FrontierOk(packages, van, Rounds(InitialRoutes(packages, van), k), k + 2)
  {
    if k == 0 {
      FrontierBase(packages, van);
    } else {
      FrontierInvariant(packages, van, k - 1);
      FrontierStep(packages, van, k);
    }
  }

  /**
   * In every round, every route of a suitable van has a valid next location, so `update_routes`
   * neither drops a route nor falls back to returning its input.
   */
  lemma NoRouteStalls(packages: seq<Package>, van: Van, k: nat, r: DeliveryRoute)
    requires WellFormed(packages) && Suitable(van, packages) && packages != []
    requires k < RoundCount(|packages|)
    requires r in Rounds(InitialRoutes(packages, van), k)
    ensures ValidNext(r) != []
    ensures Rounds(InitialRoutes(packages, van), k + 1) == AllChildren(Rounds(InitialRoutes(packages, van), k))
  {
    FrontierInvariant(packages, van, k);
    HasValidNext(packages, van, r);
    var prev := Rounds(InitialRoutes(packages, van), k);
    var i :| 0 <= i < |prev| && prev[i] == r;
    AllChildrenNonEmpty(prev, i);
  }

  /** What a finished route of a suitable van is. */
  predicate Complete(packages: seq<Package>, van: Van, r: DeliveryRoute) {
    var u, v := Universe(packages), r.visited;
    && r.all == u
    && r.van.Info() == van.Info()
    && |v| == |u| + 2
    && v[0] == StartLocation
    && v[|v| - 1] == EndLocation
    && (forall e :: e in u ==> e in v)
    && (forall i :: 0 < i < |v| - 1 ==> v[i] in u)
    && Distinct(v)
    && PickedBeforeDropped(v)
    && WithinCapacity(packages, v, van.capacity)
    && r.van.cargo == []
  }

  /** A route that has visited `2N` distinct universe locations has visited all of them. */
  lemma EveryLocationVisited(packages: seq<Package>, van: Van, f: DeliveryRoute)
    requires DistinctIds(packages) && Framed(packages, van, f) && Distinct(f.visited)
    requires |f.visited| == 2 * |packages| + 1
    ensures forall e :: e in Universe(packages) ==> e in f.visited
  {
    var u, v := Universe(packages), f.visited;
    UniverseDistinct(packages);
    assert Distinct(v[1..]);
    assert forall x :: x in v[1..] ==> x in u;
    Pigeonhole(v[1..], u);
  }

  /** A route that has visited every drop carries nothing. */
  lemma NothingAboard(packages: seq<Package>, van: Van, f: DeliveryRoute)
    requires CargoMatches(packages, f.van.cargo, f.visited)
    requires forall e :: e in Universe(packages) ==> e in f.visited
    ensures f.van.cargo == []
  {
    if f.van.cargo != [] {
      var q := f.van.cargo[0];
      assert InCargo(f.van.cargo, q);
      UniverseMembers(packages, DropOf(q));
      assert false;
    }
  }

  /** Appending the end location to a route that visited everything gives a complete route. */
  lemma FinishedComplete(packages: seq<Package>, van: Van, f: DeliveryRoute)
    requires WellFormed(packages) && RouteOk(packages, van, f)
    requires |f.visited| == 2 * |packages| + 1
    ensures Complete(packages, van, Finish(f, EndLocation))
  {
    var u, v := Universe(packages), f.visited;
    EveryLocationVisited(packages, van, f);
    NothingAboard(packages, van, f);
    SentinelsOutsideUniverse(packages);
    assert EndLocation !in v;
    DistinctSnoc(v, EndLocation);
    PickedBeforeDroppedSnoc(v, EndLocation);
    LoadUnrelated(packages, v, EndLocation);
    assert v[..|v|] == v;
    WithinCapacitySnoc(packages, v, EndLocation, van.capacity);
  }

  /**
   * Every route that `generate_all_possible_routes_for_van` returns for a suitable van starts at
   * the start, ends at the end, visits every pick and drop exactly once, picks every package before
   * dropping it, never carries more than the capacity, and ends with an empty van.
   */
  lemma AllRoutesComplete(packages: seq<Package>, van: Van, r: DeliveryRoute)
    requires WellFormed(packages) && Suitable(van, packages) && packages != []
    requires r in AllRoutes(packages, van)
    ensures Complete(packages, van, r)
  {
    var n := RoundCount(|packages|);
    var last := Rounds(InitialRoutes(packages, van), n);
    FrontierInvariant(packages, van, n);
    var i :| 0 <= i < |last| && Finish(last[i], EndLocation) == r;
    FinishedComplete(packages, van, last[i]);
  }
}
