/** Domain values of the router: packages, vans and the location events a route visits. */
module Domain {

  /** The failures the solver reports (each a ValueError in solution.py). */
  datatype Error =
    | NonPositiveWeight      // a package with weight <= 0
    | SamePickupAndDrop      // a package whose pickup equals its drop
    | NonPositiveCapacity    // a van with capacity <= 0
    | NonPositiveFuelRate    // a van with fuel consumption <= 0
    | NoPackages             // the maximum weight of an empty package list
    | NoSuitableVan          // no van can carry the heaviest package
    | NoValidRoutes          // no per-van optimum was found

  datatype Result<T> = Ok(value: T) | Err(error: Error)

  // ---------------------------------------------------------------------------
  // Package
  // ---------------------------------------------------------------------------

  datatype Package = Package(id: int, pickup: int, drop: int, weight: int) {
    /** What the constructor checks before a package exists. */
    predicate Valid() {
      weight > 0 && pickup != drop
    }

    /** Package equality: two packages are the same package when their ids agree. */
    predicate SameAs(other: Package) {
      id == other.id
    }
  }

  /** Builds a package, failing on a non-positive weight first and on pickup == drop second. */
  function NewPackage(id: int, pickup: int, drop: int, weight: int): (r: Result<Package>)
    ensures r.Ok? <==> Package(id, pickup, drop, weight).Valid()
    ensures r.Ok? ==> r.value == Package(id, pickup, drop, weight)
    ensures weight <= 0 ==> r == Err(NonPositiveWeight)
    ensures weight > 0 && pickup == drop ==> r == Err(SamePickupAndDrop)
  {
    if weight <= 0 then Err(NonPositiveWeight)
    else if pickup == drop then Err(SamePickupAndDrop)
    else Ok(Package(id, pickup, drop, weight))
  }

  /** No two packages of the list share an id. */
  predicate DistinctIds(packages: seq<Package>) {
    forall i, j :: 0 <= i < j < |packages| ==> packages[i].id != packages[j].id
  }

  /** Within a list of distinct ids, package equality by id is structural equality. */
  lemma SameIdSamePackage(packages: seq<Package>, a: Package, b: Package)
    requires DistinctIds(packages)
    requires a in packages && b in packages
    ensures a.SameAs(b) <==> a == b
  {
    var i :| 0 <= i < |packages| && packages[i] == a;
    var j :| 0 <= j < |packages| && packages[j] == b;
  }

  // ---------------------------------------------------------------------------
  // Cargo and Van
  // ---------------------------------------------------------------------------

  /** The sum of the weights of the packages aboard. */
  function TotalWeight(cargo: seq<Package>): int {
    if cargo == [] then 0 else cargo[0].weight + TotalWeight(cargo[1..])
  }

  lemma {:induction false} TotalWeightConcat(a: seq<Package>, b: seq<Package>)
    ensures TotalWeight(a + b) == TotalWeight(a) + TotalWeight(b)
  {
    if a != [] {
      assert (a + b)[1..] == a[1..] + b;
      TotalWeightConcat(a[1..], b);
    } else {
      assert a + b == b;
    }
  }

  lemma TotalWeightAppend(cargo: seq<Package>, p: Package)
    ensures TotalWeight(cargo + [p]) == TotalWeight(cargo) + p.weight
  {
    TotalWeightConcat(cargo, [p]);
    assert TotalWeight([p]) == p.weight;
  }

  /** `package in cargo`: some package aboard has the same id. */
  predicate InCargo(cargo: seq<Package>, p: Package) {
    exists i :: 0 <= i < |cargo| && cargo[i].SameAs(p)
  }

  /** The position `list.remove` deletes: the first package with p's id, or -1 when there is none. */
  function IndexOf(cargo: seq<Package>, p: Package): (k: int)
    ensures -1 <= k < |cargo|
    ensures k >= 0 ==> cargo[k].SameAs(p) && forall j :: 0 <= j < k ==> !cargo[j].SameAs(p)
    ensures k == -1 <==> !InCargo(cargo, p)
  {
    if cargo == [] then -1
    else if cargo[0].SameAs(p) then 0
    else
      var k := IndexOf(cargo[1..], p);
      assert forall j :: 1 <= j < |cargo| ==> cargo[j] == cargo[1..][j - 1];
      if k < 0 then -1 else k + 1
  }

  /** `cargo.remove(p)`: deletes the first package with p's id; the source raises when there is none. */
  function RemoveFirst(cargo: seq<Package>, p: Package): (r: seq<Package>)
    requires InCargo(cargo, p)
    ensures |r| == |cargo| - 1
    ensures var k := IndexOf(cargo, p);
      r == cargo[..k] + cargo[k + 1..] && TotalWeight(r) == TotalWeight(cargo) - cargo[k].weight
  {
    var k := IndexOf(cargo, p);
    assert cargo == cargo[..k] + ([cargo[k]] + cargo[k + 1..]);
    assert TotalWeight([cargo[k]]) == cargo[k].weight;
    TotalWeightConcat(cargo[..k], [cargo[k]] + cargo[k + 1..]);
    TotalWeightConcat([cargo[k]], cargo[k + 1..]);
    TotalWeightConcat(cargo[..k], cargo[k + 1..]);
    cargo[..k] + cargo[k + 1..]
  }

  datatype Van = Van(capacity: int, fuelRate: int, cargo: seq<Package>) {
    /** What the constructor checks before a van exists. */
    predicate Valid() {
      capacity > 0 && fuelRate > 0
    }

    function CurrentWeight(): int {
      TotalWeight(cargo)
    }

    function Info(): (int, int) {
      (capacity, fuelRate)
    }

    predicate CanFit(p: Package) {
      CurrentWeight() + p.weight <= capacity
    }

    predicate Has(p: Package) {
      InCargo(cargo, p)
    }
  }

  /** Builds an empty van, failing on a non-positive capacity first and a non-positive fuel rate second. */
  function NewVan(capacity: int, fuelRate: int): (r: Result<Van>)
    ensures r.Ok? <==> capacity > 0 && fuelRate > 0
    ensures r.Ok? ==> r.value.Valid() && r.value.Info() == (capacity, fuelRate) && r.value.cargo == []
    ensures capacity <= 0 ==> r == Err(NonPositiveCapacity)
    ensures capacity > 0 && fuelRate <= 0 ==> r == Err(NonPositiveFuelRate)
  {
    if capacity <= 0 then Err(NonPositiveCapacity)
    else if fuelRate <= 0 then Err(NonPositiveFuelRate)
    else Ok(Van(capacity, fuelRate, []))
  }

  // ---------------------------------------------------------------------------
  // Location events
  // ---------------------------------------------------------------------------

  /** The action at a location; pick and drop carry their package, start and end carry none. */
  datatype Action = Pickup(package: Package) | Drop(package: Package) | Start | End

  datatype Location = Location(position: int, action: Action)

  function PickupOf(p: Package): Location {
    Location(p.pickup, Pickup(p))
  }

  function DropOf(p: Package): Location {
    Location(p.drop, Drop(p))
  }

  /** The label the source prints for an action. */
  function Label(a: Action): string {
    match a
    case Pickup(_) => "pick"
    case Drop(_) => "drop"
    case Start => "start"
    case End => "end"
  }

  /** Action equality, with the packages compared by id. */
  predicate SameAction(a: Action, b: Action) {
    match (a, b)
    case (Pickup(p), Pickup(q)) => p.SameAs(q)
    case (Drop(p), Drop(q)) => p.SameAs(q)
    case (Start, Start) => true
    case (End, End) => true
    case _ => false
  }

  /** Location equality: same position, same action, same package id. */
  predicate SameLocation(a: Location, b: Location) {
    a.position == b.position && SameAction(a.action, b.action)
  }

  lemma SameLocationIsEquivalence(a: Location, b: Location, c: Location)
    ensures SameLocation(a, a)
    ensures SameLocation(a, b) ==> SameLocation(b, a)
    ensures SameLocation(a, b) && SameLocation(b, c) ==> SameLocation(a, c)
  {
  }
}
