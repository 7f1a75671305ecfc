/** Choosing the van and the route: the suitability filter, the minimum-fuel selections and the solver. */
module Selection {
  import opened Domain
  import opened Routes
  import opened Search
  import opened Invariants

  // ---------------------------------------------------------------------------
  // Suitable vans
  // ---------------------------------------------------------------------------

  /** `max(package.weight for package in packages)`, which needs at least one package. */
  function MaxWeight(packages: seq<Package>): (m: int)
    requires packages != []
    ensures forall i :: 0 <= i < |packages| ==> packages[i].weight <= m
    ensures exists i :: 0 <= i < |packages| && packages[i].weight == m
  {
    if |packages| == 1 then packages[0].weight
    else
      var rest := MaxWeight(packages[1..]);
      assert forall i :: 1 <= i < |packages| ==> packages[i] == packages[1..][i - 1];
      if packages[0].weight >= rest then packages[0].weight else rest
  }

  /** The vans, in order, whose capacity is at least `weight`. */
  function VansCarrying(vans: seq<Van>, weight: int): (r: seq<Van>)
    ensures forall v :: v in r <==> v in vans && v.capacity >= weight
    ensures |r| <= |vans|
  {
    if vans == [] then []
    else
      assert vans == [vans[0]] + vans[1..];
      (if vans[0].capacity >= weight then [vans[0]] else []) + VansCarrying(vans[1..], weight)
  }

  /** The van filter keeps the order and the multiplicity of the vans, so ties between vans keep their order. */
  lemma {:induction false} VansCarryingInOrder(a: seq<Van>, b: seq<Van>, weight: int)
    ensures VansCarrying(a + b, weight) == VansCarrying(a, weight) + VansCarrying(b, weight)
    ensures |a| == 1 ==> VansCarrying(a, weight) == (if a[0].capacity >= weight then a else [])
  {
    if a == [] {
      assert a + b == b;
    } else {
      assert (a + b)[0] == a[0];
      assert (a + b)[1..] == a[1..] + b;
      VansCarryingInOrder(a[1..], b, weight);
    }
  }

  /**
   * `get_suitable_vans`: the vans able to carry the heaviest package, which are exactly the vans
   * able to carry each package on its own; with no packages the maximum is undefined.
   */
  function GetSuitableVans(vans: seq<Van>, packages: seq<Package>): (r: Result<seq<Van>>)
    ensures r.Err? <==> packages == []
    ensures r.Err? ==> r.error == NoPackages
    ensures r.Ok? ==> forall v :: v in r.value <==>
      v in vans && forall i :: 0 <= i < |packages| ==> packages[i].weight <= v.capacity
    ensures r.Ok? ==> r.value == VansCarrying(vans, MaxWeight(packages))
  {
    if packages == [] then Err(NoPackages)
    else Ok(VansCarrying(vans, MaxWeight(packages)))
  }

  // ---------------------------------------------------------------------------
  // Minimum-fuel selection
  // ---------------------------------------------------------------------------

  /**
   * `min(routes, key=fuel_consumption)`: the index of a route of least fuel; on a tie, the first
   * such route, since a later route replaces the current one only when strictly cheaper.
   */
  function MinFuelIndex(routes: seq<DeliveryRoute>): (k: nat)
    requires routes != []
    ensures k < |routes|
    ensures forall j :: 0 <= j < |routes| ==> Fuel(routes[k]) <= Fuel(routes[j])
    ensures forall j :: 0 <= j < k ==> Fuel(routes[j]) > Fuel(routes[k])
  {
    if |routes| == 1 then 0
    else
      var init := routes[..|routes| - 1];
      var k := MinFuelIndex(init);
      assert forall j :: 0 <= j < |init| ==> init[j] == routes[j];
      if Fuel(routes[|routes| - 1]) < Fuel(routes[k]) then |routes| - 1 else k
  }

  /** The cheapest route generated for one van (the first of the cheapest). */
  function BestRoute(packages: seq<Package>, van: Van): (r: DeliveryRoute)
    requires packages != []
    ensures r in AllRoutes(packages, van)
    ensures forall x :: x in AllRoutes(packages, van) ==> Fuel(r) <= Fuel(x)
    ensures exists k :: 0 <= k < |AllRoutes(packages, van)| && r == AllRoutes(packages, van)[k] &&
                        forall j :: 0 <= j < k ==> Fuel(AllRoutes(packages, van)[j]) > Fuel(r)
  {
    var routes := AllRoutes(packages, van);
    AllRoutesNonEmpty(packages, van);
    routes[MinFuelIndex(routes)]
  }

  // ---------------------------------------------------------------------------
  // The solver
  // ---------------------------------------------------------------------------

  /** Builds the vans in order; the first invalid one decides the error. */
  function MakeVans(stats: seq<(int, int)>): (r: Result<seq<Van>>)
    ensures r.Ok? <==> forall i :: 0 <= i < |stats| ==> NewVan(stats[i].0, stats[i].1).Ok?
    ensures r.Ok? ==> |r.value| == |stats|
    ensures r.Ok? ==> forall i :: 0 <= i < |stats| ==> r.value[i] == NewVan(stats[i].0, stats[i].1).value
    ensures r.Ok? ==> forall v :: v in r.value ==> v.Valid()
    ensures r.Err? ==> exists i :: 0 <= i < |stats| && NewVan(stats[i].0, stats[i].1) == Err(r.error) &&
                                   forall j :: 0 <= j < i ==> NewVan(stats[j].0, stats[j].1).Ok?
  {
    if stats == [] then Ok([])
    else
      assert forall i :: 1 <= i < |stats| ==> stats[i] == stats[1..][i - 1];
      match NewVan(stats[0].0, stats[0].1)
      case Err(e) => Err(e)
      case Ok(v) =>
        match MakeVans(stats[1..])
        case Err(e) => Err(e)
        case Ok(vs) => Ok([v] + vs)
  }

  /** Builds the packages in order, numbering them from `first`; the first invalid one decides the error. */
  function MakePackages(stats: seq<(int, int, int)>, first: int): (r: Result<seq<Package>>)
    ensures r.Ok? <==> forall i :: 0 <= i < |stats| ==> NewPackage(first + i, stats[i].0, stats[i].1, stats[i].2).Ok?
    ensures r.Ok? ==> |r.value| == |stats|
    ensures r.Ok? ==> forall i :: 0 <= i < |stats| ==> r.value[i] == NewPackage(first + i, stats[i].0, stats[i].1, stats[i].2).value
    ensures r.Err? ==> exists i :: (0 <= i < |stats| &&
                                    NewPackage(first + i, stats[i].0, stats[i].1, stats[i].2) == Err(r.error) &&
                                    forall j :: 0 <= j < i ==> NewPackage(first + j, stats[j].0, stats[j].1, stats[j].2).Ok?)
  {
    if stats == [] then Ok([])
    else
      assert forall i :: 1 <= i < |stats| ==> stats[i] == stats[1..][i - 1];
      match NewPackage(first, stats[0].0, stats[0].1, stats[0].2)
      case Err(e) => Err(e)
      case Ok(p) =>
        match MakePackages(stats[1..], first + 1)
        case Err(e) => Err(e)
        case Ok(ps) => Ok([p] + ps)
  }

  /** Packages built from the caller's triples are valid and numbered by position, so their ids differ. */
  lemma MadePackagesWellFormed(stats: seq<(int, int, int)>)
    requires MakePackages(stats, 0).Ok?
    ensures WellFormed(MakePackages(stats, 0).value)
    ensures forall i :: 0 <= i < |stats| ==> MakePackages(stats, 0).value[i].id == i
  {
  }

  /** The answer: the van's (capacity, fuel rate), the labelled route, its length and its fuel. */
  datatype Solution = Solution(van: (int, int), route: seq<(int, string)>, length: int, fuel: int)

  function Summary(r: DeliveryRoute): Solution {
    Solution(r.van.Info(), Formatted(r.visited), RouteLength(r.visited), Fuel(r))
  }

  /** The per-van optima, in the order of the suitable vans. */
  function BestRoutes(packages: seq<Package>, suitable: seq<Van>): (r: seq<DeliveryRoute>)
    requires packages != []
    ensures |r| == |suitable|
    ensures forall i :: 0 <= i < |suitable| ==> r[i] == BestRoute(packages, suitable[i])
  {
    seq(|suitable|, i requires 0 <= i < |suitable| => BestRoute(packages, suitable[i]))
  }

  /** `find_optimal_route_for_single_van`. */
  function FindOptimal(vanStats: seq<(int, int)>, packageStats: seq<(int, int, int)>): (r: Result<Solution>)
    ensures r.Ok? ==> r.value.length >= 0 && r.value.fuel == r.value.length * r.value.van.1
  {
    match MakeVans(vanStats)
    case Err(e) => Err(e)
    case Ok(vans) =>
      match MakePackages(packageStats, 0)
      case Err(e) => Err(e)
      case Ok(packages) =>
        match GetSuitableVans(vans, packages)
        case Err(e) => Err(e)
        case Ok(suitable) =>
          if suitable == [] then Err(NoSuitableVan)
          else
            var optimal := BestRoutes(packages, suitable);
            if optimal == [] then Err(NoValidRoutes)
            else Ok(Summary(optimal[MinFuelIndex(optimal)]))
  }

  // ---------------------------------------------------------------------------
  // What the solver promises
  // ---------------------------------------------------------------------------

  /**
   * The solver fails exactly when an input is invalid, when there are no packages, or when no van
   * can carry the heaviest package; "no valid routes" never happens.
   */
  lemma FindOptimalFailures(vanStats: seq<(int, int)>, packageStats: seq<(int, int, int)>)
    ensures FindOptimal(vanStats, packageStats) != Err(NoValidRoutes)
    ensures MakeVans(vanStats).Err? ==> FindOptimal(vanStats, packageStats) == Err(MakeVans(vanStats).error)
    ensures MakeVans(vanStats).Ok? && MakePackages(packageStats, 0).Err? ==>
      FindOptimal(vanStats, packageStats) == Err(MakePackages(packageStats, 0).error)
    ensures MakeVans(vanStats).Ok? && MakePackages(packageStats, 0).Ok? ==>
      (FindOptimal(vanStats, packageStats) == Err(NoPackages) <==> packageStats == [])
    ensures MakeVans(vanStats).Ok? && MakePackages(packageStats, 0).Ok? && packageStats != [] ==>
      (FindOptimal(vanStats, packageStats) == Err(NoSuitableVan) <==>
        forall v :: v in MakeVans(vanStats).value ==>
          exists i :: 0 <= i < |packageStats| && packageStats[i].2 > v.capacity)
    ensures MakeVans(vanStats).Ok? && MakePackages(packageStats, 0).Ok? && packageStats != [] &&
            (exists v :: v in MakeVans(vanStats).value &&
              forall i :: 0 <= i < |packageStats| ==> packageStats[i].2 <= v.capacity) ==>
      FindOptimal(vanStats, packageStats).Ok?
  {
    match MakeVans(vanStats)
    case Err(_) =>
    case Ok(vans) =>
      match MakePackages(packageStats, 0)
      case Err(_) =>
      case Ok(packages) =>
        if packages != [] {
          var suitable := GetSuitableVans(vans, packages).value;
          if suitable == [] {
            forall v | v in vans ensures exists i :: 0 <= i < |packageStats| && packageStats[i].2 > v.capacity {
              assert v !in suitable;
              var i :| 0 <= i < |packages| && packages[i].weight > v.capacity;
              assert packages[i].weight == packageStats[i].2;
            }
          } else {
            var v := suitable[0];
            assert v in suitable;
            forall i | 0 <= i < |packageStats| ensures packageStats[i].2 <= v.capacity {
              assert packages[i].weight == packageStats[i].2;
            }
          }
        }
  }

  /**
   * Among the suitable vans, the route picked by the final minimum is complete and no route
   * generated for a suitable van uses less fuel.
   */
  lemma CheapestAcrossVans(packages: seq<Package>, suitable: seq<Van>)
    requires WellFormed(packages) && packages != [] && suitable != []
    requires forall v :: v in suitable ==> Suitable(v, packages)
    ensures var optimal := BestRoutes(packages, suitable);
      var k := MinFuelIndex(optimal);
      && Complete(packages, suitable[k], optimal[k])
      && forall v, x :: v in suitable && x in AllRoutes(packages, v) ==> Fuel(optimal[k]) <= Fuel(x)
  {
    var optimal := BestRoutes(packages, suitable);
    var k := MinFuelIndex(optimal);
    assert suitable[k] in suitable;
    AllRoutesComplete(packages, suitable[k], optimal[k]);
    forall v, x | v in suitable && x in AllRoutes(packages, v) ensures Fuel(optimal[k]) <= Fuel(x) {
      var j :| 0 <= j < |suitable| && suitable[j] == v;
      assert Fuel(optimal[k]) <= Fuel(optimal[j]);
    }
  }

  /** A solution comes from the solver's last branch: valid inputs, some package and some suitable van. */
  lemma FindOptimalSolved(vanStats: seq<(int, int)>, packageStats: seq<(int, int, int)>)
    requires FindOptimal(vanStats, packageStats).Ok?
    ensures MakeVans(vanStats).Ok? && MakePackages(packageStats, 0).Ok? && packageStats != []
    ensures var packages := MakePackages(packageStats, 0).value;
      var suitable := VansCarrying(MakeVans(vanStats).value, MaxWeight(packages));
      && suitable != []
      && FindOptimal(vanStats, packageStats).value ==
           Summary(BestRoutes(packages, suitable)[MinFuelIndex(BestRoutes(packages, suitable))])
  {
  }

  /**
   * A solution is the summary of a route generated for a suitable van; that route is complete
   * (every pick and drop once, picks before drops, within capacity, start and end at 0) and no
   * route generated for any suitable van uses less fuel.
   */
  lemma FindOptimalIsOptimal(vanStats: seq<(int, int)>, packageStats: seq<(int, int, int)>)
    requires FindOptimal(vanStats, packageStats).Ok?
    ensures MakeVans(vanStats).Ok? && MakePackages(packageStats, 0).Ok?
    ensures exists v, r :: v in MakeVans(vanStats).value && Suitable(v, MakePackages(packageStats, 0).value) &&
                           r in AllRoutes(MakePackages(packageStats, 0).value, v) &&
                           Complete(MakePackages(packageStats, 0).value, v, r) &&
                           FindOptimal(vanStats, packageStats).value == Summary(r)
    ensures forall v, x :: v in MakeVans(vanStats).value && Suitable(v, MakePackages(packageStats, 0).value) &&
                           x in AllRoutes(MakePackages(packageStats, 0).value, v) ==>
                           FindOptimal(vanStats, packageStats).value.fuel <= Fuel(x)
  {
    FindOptimalSolved(vanStats, packageStats);
    var vans := MakeVans(vanStats).value;
    var packages := MakePackages(packageStats, 0).value;
    var suitable := VansCarrying(vans, MaxWeight(packages));
    var optimal := BestRoutes(packages, suitable);
    var k := MinFuelIndex(optimal);
    var v, r := suitable[k], optimal[k];
    assert FindOptimal(vanStats, packageStats).value == Summary(r);
    assert v in suitable && v in vans;
    assert Suitable(v, packages);
    assert r in AllRoutes(packages, v);
    assert WellFormed(packages) by {
      MadePackagesWellFormed(packageStats);
    }
    assert forall u :: u in suitable ==> Suitable(u, packages);
    CheapestAcrossVans(packages, suitable);
    assert Complete(packages, v, r);
    forall u, x | u in vans && Suitable(u, packages) && x in AllRoutes(packages, u)
      ensures FindOptimal(vanStats, packageStats).value.fuel <= Fuel(x)
    {
      assert u in suitable;
    }
  }

  /** Van `k` is the first of `suitable` whose per-van choice uses least fuel: every earlier one uses more. */
  predicate FirstCheapest(packages: seq<Package>, suitable: seq<Van>, k: int)
    requires packages != []
  {
    0 <= k < |suitable| &&
    forall j :: 0 <= j < k ==> Fuel(BestRoute(packages, suitable[j])) > Fuel(BestRoute(packages, suitable[k]))
  }

  /** The final minimum picks the first suitable van whose own choice uses least fuel. */
  lemma FirstCheapestVan(packages: seq<Package>, suitable: seq<Van>)
    requires packages != [] && suitable != []
    ensures FirstCheapest(packages, suitable, MinFuelIndex(BestRoutes(packages, suitable)))
  {
    var optimal := BestRoutes(packages, suitable);
    var k := MinFuelIndex(optimal);
    forall j | 0 <= j < k
      ensures Fuel(BestRoute(packages, suitable[j])) > Fuel(BestRoute(packages, suitable[k]))
    {
      assert Fuel(optimal[j]) > Fuel(optimal[k]);
    }
  }

  /**
   * Ties go to the first: a solution summarises the per-van choice of the first suitable van, in
   * input order, whose choice uses least fuel; every earlier suitable van's choice uses more.
   */
  lemma FindOptimalTieBreak(vanStats: seq<(int, int)>, packageStats: seq<(int, int, int)>)
    requires FindOptimal(vanStats, packageStats).Ok?
    ensures MakeVans(vanStats).Ok? && MakePackages(packageStats, 0).Ok? && packageStats != []
    ensures exists k :: FirstCheapest(MakePackages(packageStats, 0).value,
                                      VansCarrying(MakeVans(vanStats).value, MaxWeight(MakePackages(packageStats, 0).value)), k) &&
                        FindOptimal(vanStats, packageStats).value ==
                          Summary(BestRoute(MakePackages(packageStats, 0).value,
                                            VansCarrying(MakeVans(vanStats).value, MaxWeight(MakePackages(packageStats, 0).value))[k]))
  {
    FindOptimalSolved(vanStats, packageStats);
    var packages := MakePackages(packageStats, 0).value;
    var suitable := VansCarrying(MakeVans(vanStats).value, MaxWeight(packages));
    var k := MinFuelIndex(BestRoutes(packages, suitable));
    FirstCheapestVan(packages, suitable);
    assert FirstCheapest(packages, suitable, k) && FindOptimal(vanStats, packageStats).value == Summary(BestRoute(packages, suitable[k]));
  }

  // ---------------------------------------------------------------------------
  // The one-package case
  // ---------------------------------------------------------------------------

  /** The length of a four-stop route, leg by leg. */
  lemma FourStopLength(a: Location, b: Location, c: Location, d: Location)
    ensures RouteLength([a, b, c, d]) ==
      Abs(a.position - b.position) + Abs(b.position - c.position) + Abs(c.position - d.position)
  {
    var v := [a, b, c, d];
    assert v[1..] == [b, c, d];
    assert v[1..][1..] == [c, d];
    assert v[1..][1..][1..] == [d];
    assert RouteLength([c, d]) == Abs(c.position - d.position) + RouteLength([d]);
    assert RouteLength([b, c, d]) == Abs(b.position - c.position) + RouteLength([c, d]);
  }

  /** With one package that fits, the only seed is start-then-pick and its only valid next location is the drop. */
  lemma SinglePackageSeed(p: Package, van: Van)
    requires p.Valid()
    ensures var seed := Seed(PickupOf(p), [PickupOf(p), DropOf(p)], StartLocation, van);
      && InitialRoutes([p], van) == [seed]
      && ValidNext(seed) == [DropOf(p)]
  {
    var all := [PickupOf(p), DropOf(p)];
    assert GenerateLocations([p]).0 == all;
    var seed := Seed(PickupOf(p), all, StartLocation, van);
    assert all[..1] == [PickupOf(p)];
    assert SeedRoutes(all[..1][..0], all, StartLocation, van) == [];
    assert SeedRoutes(all[..1], all, StartLocation, van) == [seed];
    assert Visited(seed.visited, PickupOf(p)) by {
      assert SameLocation(seed.visited[1], PickupOf(p));
    }
    assert !Visited(seed.visited, DropOf(p));
    assert all[1..][1..] == [];
    assert Available(seed) == [DropOf(p)];
    assert seed.van.Has(p) by {
      assert seed.van.cargo[0].SameAs(p);
    }
    assert [DropOf(p)][..0] == [];
  }

  /** The single expansion round turns the only seed into its only child, the one that drops the package. */
  lemma SinglePackageRound(p: Package, van: Van)
    requires p.Valid()
    ensures var seed := Seed(PickupOf(p), [PickupOf(p), DropOf(p)], StartLocation, van);
      && CanApply(seed.van, DropOf(p))
      && Rounds(InitialRoutes([p], van), RoundCount(1)) == [Child(seed, DropOf(p))]
  {
    SinglePackageSeed(p, van);
    var seed := Seed(PickupOf(p), [PickupOf(p), DropOf(p)], StartLocation, van);
    ValidNextCanApply(seed);
    var child := Child(seed, DropOf(p));
    assert Children(seed, [DropOf(p)]) == [child];
    assert [seed][..0] == [];
    assert AllChildren([seed]) == [] + [child];
    assert NextFrontier([seed]) == [child];
    assert Rounds([seed], 1) == NextFrontier(Rounds([seed], 0));
  }

  /**
   * With one package that fits, exactly one route is generated: start, pick, drop, end; its length
   * is the distance out to the pick, across to the drop and back to 0.
   */
  lemma SinglePackageRoute(p: Package, van: Van)
    requires p.Valid() && van.Valid() && p.weight <= van.capacity
    ensures |AllRoutes([p], van)| == 1
    ensures AllRoutes([p], van)[0].visited == [StartLocation, PickupOf(p), DropOf(p), EndLocation]
    ensures AllRoutes([p], van)[0].van.Info() == van.Info()
    ensures RouteLength(AllRoutes([p], van)[0].visited) == Abs(p.pickup) + Abs(p.drop - p.pickup) + Abs(p.drop)
  {
    SinglePackageRound(p, van);
    var seed := Seed(PickupOf(p), [PickupOf(p), DropOf(p)], StartLocation, van);
    var route := Finish(Child(seed, DropOf(p)), EndLocation);
    assert AllRoutes([p], van) == Finalize([Child(seed, DropOf(p))], EndLocation);
    assert AllRoutes([p], van)[0] == route;
    FourStopLength(StartLocation, PickupOf(p), DropOf(p), EndLocation);
  }

  /** The inputs of the worked example build one van and one package, and the van is suitable. */
  lemma WorkedExampleInputs()
    ensures MakeVans([(10, 2)]) == Ok([Van(10, 2, [])])
    ensures MakePackages([(3, 7, 5)], 0) == Ok([Package(0, 3, 7, 5)])
    ensures GetSuitableVans([Van(10, 2, [])], [Package(0, 3, 7, 5)]) == Ok([Van(10, 2, [])])
  {
    var p := Package(0, 3, 7, 5);
    var van := Van(10, 2, []);
    var vanStats, packageStats := [(10, 2)], [(3, 7, 5)];
    assert MakeVans(vanStats).value == [van] by {
      assert NewVan(vanStats[0].0, vanStats[0].1) == Ok(van);
      assert MakeVans(vanStats).value[0] == van;
    }
    assert MakePackages(packageStats, 0).value == [p] by {
      assert NewPackage(0, packageStats[0].0, packageStats[0].1, packageStats[0].2) == Ok(p);
      assert MakePackages(packageStats, 0).value[0] == p;
    }
    assert MaxWeight([p]) == 5;
    assert VansCarrying([van], 5) == [van] by {
      assert [van][1..] == [];
    }
  }

  /** The one route of the worked example: length 3 + 4 + 7, fuel twice that. */
  lemma WorkedExampleRoute()
    ensures |AllRoutes([Package(0, 3, 7, 5)], Van(10, 2, []))| == 1
    ensures BestRoutes([Package(0, 3, 7, 5)], [Van(10, 2, [])]) == AllRoutes([Package(0, 3, 7, 5)], Van(10, 2, []))
    ensures Summary(AllRoutes([Package(0, 3, 7, 5)], Van(10, 2, []))[0]) ==
      Solution((10, 2), [(0, "start"), (3, "pick"), (7, "drop"), (0, "end")], 14, 28)
  {
    var p := Package(0, 3, 7, 5);
    var van := Van(10, 2, []);
    SinglePackageRoute(p, van);
    var route := AllRoutes([p], van)[0];
    assert BestRoute([p], van) == route;
    assert BestRoutes([p], [van]) == [route];
    assert Fuel(route) == 28;
    assert Formatted(route.visited) == [(0, "start"), (3, "pick"), (7, "drop"), (0, "end")];
  }

  /** The whole solver on one van and one package that fits, worked through. */
  lemma SingleVanSinglePackage()
    ensures FindOptimal([(10, 2)], [(3, 7, 5)]) ==
      Ok(Solution((10, 2), [(0, "start"), (3, "pick"), (7, "drop"), (0, "end")], 14, 28))
  {
    var p := Package(0, 3, 7, 5);
    var van := Van(10, 2, []);
    WorkedExampleInputs();
    WorkedExampleRoute();
    assert MinFuelIndex(BestRoutes([p], [van])) == 0;
  }
}
