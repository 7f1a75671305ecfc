# Single-van pickup-and-delivery router, modelled in Dafny

`solution.py` plans delivery routes on an integer line. Each package has an id, a pickup
coordinate, a drop coordinate and a weight. Each van has a capacity and a fuel rate. The
program proceeds in four steps:

1. It keeps the vans whose capacity is at least the heaviest package.
2. For each such van, it runs an exhaustive search:
   - Every route starts at 0 with one package picked.
   - Each round extends every route by every location that is legal next.
   - A pick is legal if the package is not aboard and fits; a drop is legal if the package is aboard.
   - There are `2N - 1` rounds, and then every route is closed with an end location at 0.
3. It takes the cheapest route per van: length times fuel rate, where the length is the sum of the
   distances between consecutive stops.
4. It returns the cheapest of those routes. On a tie, the first one wins in both selections.

The model is split into six modules:

- `Domain` (`domain.dfy`): packages, vans, location events, and their checked constructors.
  Package equality is equality of ids (`SameAs`), and location equality compares packages by id
  (`SameLocation`).
- `Routes` (`routes.dfy`): a route candidate, its available and legal next locations
  (`GetValidLocations`, a loop), its length, fuel and formatted form.
- `Search` (`search.dfy`): the event universe, seeding, one round of expansion (`UpdateRoutes`,
  nested loops), the rounds, and appending the end. `GenerateAllPossibleRoutes` has the three loops
  of the source.
- `Counting` (`counting.dfy`): repetition-free sequences and the pigeonhole argument the
  completeness proof needs.
- `Invariants` (`invariants.dfy`): the route invariant, which has five parts:
  - framing;
  - no repeated location;
  - every drop after its pick;
  - cargo equal to a reference definition of what is aboard;
  - load within capacity.

  It also holds the proof that, for a suitable van, no route ever stalls and every generated route
  is complete.
- `Selection` (`selection.dfy`): the suitability filter, the minimum-fuel selections, the solver
  `FindOptimal`, its guarantees and a worked one-package example.

Every loop of the source is a Dafny `method` with a loop, proved equal to a function that states
the same computation as a value:

- `GetValidLocations` matches `ValidNext`.
- `UpdateRoutes` matches `NextFrontier`.
- `GenerateAllPossibleRoutes` matches `AllRoutes`.

The lemmas are stated about those functions. Packages, vans, locations and routes are values.
The source updates lists in place in two places, and each time the list is one no other object
shares:
- A child's cargo is a fresh copy of its parent's, to which the pick is appended or from which the
  drop is removed (solution.py:193-197).
- Each surviving route's visited list, built fresh for that route, gets the end location appended
  (solution.py:184-185).

So value semantics give the same results.

`update_routes` (solution.py:213-222) skips a candidate with no legal next location, and returns
its input unchanged only when no candidate produced a child. `NextFrontier` and `UpdateRoutes`
model exactly that. `NoRouteStalls` shows that for a van that passed the suitability filter no
candidate is ever skipped, because in every round every route of such a van has a legal next
location.

Order matters wherever fuel ties: Python's `min` keeps the first of several cheapest routes. The
model therefore states order as well as membership for every filter on the way (`UnvisitedInOrder`,
`LegalAmongInOrder`, `SeedRoutesInOrder`, `InitialRoutesInOrder`, `VansCarryingInOrder`), and
proves that the solver returns the per-van choice of the first suitable van, in input order, whose
choice uses least fuel (`FindOptimalTieBreak`).

## Model

| member | source | states |
|---|---|---|
| Domain.NewPackage | solution.py:19-24 | a package is created exactly when weight > 0 and pickup != drop; a non-positive weight is reported before equal pickup and drop |
| Domain.Package.SameAs | solution.py:26-30 | definition: two packages are the same package when their ids agree |
| Domain.SameIdSamePackage | solution.py:26-30 | package equality is equality of ids; among packages with distinct ids it coincides with identity |
| Domain.NewVan | solution.py:39-45 | a van is created exactly when capacity > 0 and fuel rate > 0, with an empty cargo; capacity is checked first |
| Domain.TotalWeight | solution.py:47-49 | definition: the sum of the cargo's weights; `TotalWeightAppend` and `TotalWeightConcat` state how it changes |
| Domain.InCargo | solution.py:58-59 | definition: some cargo package has the same id, which is what `in` tests under id equality |
| Domain.Van.CanFit | solution.py:55-56 | definition: the current weight plus the package's weight is at most the capacity |
| Domain.Van.Has | solution.py:58-59 | definition: the package is in the cargo by id (`InCargo`) |
| Domain.TotalWeightAppend | solution.py:47-49 | adding a package to the cargo adds its weight to the current weight |
| Domain.IndexOf | solution.py:197 | the position `list.remove` deletes is the first cargo package with the same id, and -1 exactly when there is none |
| Domain.RemoveFirst | solution.py:197 | removing a package aboard shortens the cargo by one, keeps the others in order, and subtracts that package's weight |
| Domain.SameLocation | solution.py:62-66 | definition: the generated equality of `Location`: equal positions and equal actions, with packages compared by id |
| Domain.SameLocationIsEquivalence | solution.py:62-66 | location equality (position, action, package id) is reflexive, symmetric and transitive |
| Routes.VisitedIfPresent | solution.py:84-85 | a location present in the visited list counts as visited |
| Routes.Unvisited | solution.py:84-85 | the available locations are exactly the universe locations not equal to any visited one |
| Routes.UnvisitedInOrder | solution.py:85 | the comprehension keeps order and multiplicity: it distributes over concatenation and keeps or drops each single location |
| Routes.IsLegal | solution.py:112-118 | definition: a pick is legal when its package is not aboard and fits; a drop when its package is aboard; a start or an end never |
| Routes.LegalAmong | solution.py:110-118 | the kept locations are exactly the legal ones |
| Routes.LegalAmongInOrder | solution.py:110-118 | the scan keeps order and multiplicity: it distributes over concatenation and keeps a single location exactly when it is legal |
| Routes.ValidNext | solution.py:107-120 | definition: the legal locations among the available ones, in order; `GetValidLocations` is proved equal to it |
| Routes.GetValidLocations | solution.py:107-120 | the loop returns exactly the unvisited universe locations that are legal: a pick iff the package is not aboard and fits, a drop iff it is aboard; never a start or an end |
| Routes.RouteLength | solution.py:87-92 | the route length is never negative |
| Routes.RouteLengthAppend | solution.py:87-92 | visiting one more location adds the distance from the last one |
| Routes.RouteLengthZeroIff | solution.py:87-92 | the length is zero exactly when every stop has the first stop's position |
| Routes.RouteLengthCoversEveryStop | solution.py:87-92 | the length is at least the distance from the first stop to any stop |
| Routes.Fuel | solution.py:94-96 | definition: route length times the van's fuel rate; `FuelFollowsLength` states its properties |
| Routes.FuelFollowsLength | solution.py:94-96 | fuel is never negative for a valid van, and for one fuel rate comparing fuel is comparing length |
| Routes.Formatted | solution.py:98-100 | one (position, label) pair per visited location, in order |
| Search.GenerateLocations | solution.py:136-158 | 2N locations: the picks in package order, then the drops in package order; start and end at 0 |
| Search.UniverseMembers | solution.py:136-158 | a location is in the universe exactly when it is the pick or the drop of one of the packages |
| Invariants.SentinelsOutsideUniverse | solution.py:155-156 | the start and end locations are not in the universe |
| Invariants.UniverseDistinct | solution.py:136-158 | with distinct ids the universe repeats no location |
| Invariants.NotVisitedInUniverse | solution.py:84-85 | on a well-framed route, a universe location counts as visited only if it is literally in the visited list |
| Invariants.ValidNextFresh | solution.py:107-120 | every offered location is in the universe, not yet visited, and legal |
| Search.Child | solution.py:191-211 | the child visits the parent's locations plus the new one; its van has the same capacity and fuel rate; a pick appends the package and adds its weight; a drop leaves the parent's cargo with the first same-id package removed, one package and its weight fewer |
| Search.Children | solution.py:219-220 | one child per valid location, in order |
| Search.AllChildren | solution.py:215-220 | definition: the children of every route, route by route in frontier order; a route with no valid location adds none |
| Search.AllChildrenSound | solution.py:213-222 | every route of the new frontier is a child of some route of the old frontier |
| Search.AllChildrenComplete | solution.py:213-222 | every child of every route for every valid location is in the new frontier |
| Search.NextFrontier | solution.py:213-222 | definition: `AllChildren` of the frontier, or the frontier itself when that is empty |
| Search.NextFrontierSound | solution.py:213-222 | when the frontier changes, every new route is a child of an old one |
| Search.NextFrontierNonEmpty | solution.py:222 | a round never empties a non-empty frontier |
| Search.UpdateRoutes | solution.py:190-222 | the loop's result is the concatenation, in frontier order, of every route's children, or the input when that is empty |
| Search.SeedRoutes | solution.py:166-179 | the seeds are exactly the start-then-pick routes of the pick locations |
| Search.SeedRoutesInOrder | solution.py:166-179 | seeding keeps the order of the pick locations: it distributes over concatenation, gives one seed for a single pick and none for any other location |
| Search.InitialRoutesInOrder | solution.py:161-179 | the seed frontier has one route per package, the i-th starting at 0 and picking package i |
| Search.RoundsNonEmpty | solution.py:181-182 | the rounds never empty a non-empty frontier |
| Search.Finalize | solution.py:184-185 | every surviving route gets the end appended, one for one |
| Search.AppendEnd | solution.py:184-185 | the in-place loop appends the end location to every route |
| Search.AllRoutes | solution.py:161-187 | definition: the seeds, `2N - 1` rounds of `NextFrontier`, then the end appended to every route |
| Search.GenerateAllPossibleRoutes | solution.py:161-187 | the three loops compute `AllRoutes`, which is not empty when there is a package |
| Search.AllRoutesNonEmpty | solution.py:161-187 | with at least one package at least one route is generated |
| Invariants.SeedOk | solution.py:166-179 | each seed of a suitable van keeps the route invariant |
| Invariants.PickChildOk | solution.py:194-195 | extending by a legal pick keeps the route invariant |
| Invariants.DropChildOk | solution.py:196-197 | extending by a legal drop keeps the route invariant |
| Invariants.ChildOk | solution.py:191-211 | every child keeps the route invariant and is one location longer |
| Invariants.DropAvailable | solution.py:107-120 | on a well-framed route whose cargo matches what was picked and not dropped, the drop of the first package aboard is a valid next location |
| Invariants.PickAvailable | solution.py:107-120 | for a suitable van with nothing aboard, the pick of any package not yet picked is a valid next location |
| Invariants.HasValidNext | solution.py:107-120 | a route of a suitable van that keeps the invariant and has not visited all 2N locations has at least one valid next location |
| Invariants.FrontierInvariant | solution.py:181-182 | after k rounds the frontier is not empty, and every route keeps the invariant and has k + 2 stops |
| Invariants.NoRouteStalls | solution.py:213-222 | for a suitable van, no route stalls in any round, so each round's result is exactly the children of the previous frontier |
| Invariants.AllRoutesComplete | solution.py:161-187 | every generated route of a suitable van starts at start, ends at end, visits each of the 2N locations exactly once, picks before drops, stays within capacity and ends empty |
| Selection.MaxWeight | solution.py:127 | the maximum weight bounds every package's weight and is attained |
| Selection.VansCarrying | solution.py:128-131 | the kept vans are exactly those with capacity at least the given weight |
| Selection.VansCarryingInOrder | solution.py:128-131 | the comprehension keeps the vans' order and multiplicity: it distributes over concatenation and keeps a single van exactly when it carries the weight |
| Selection.GetSuitableVans | solution.py:123-133 | with packages, the suitable vans are exactly those that can carry every package on its own, in input order (the filter at the heaviest weight); without packages it fails |
| Selection.MinFuelIndex | solution.py:243-244 | the chosen route uses least fuel, and every earlier route uses strictly more |
| Selection.BestRoute | solution.py:234-238 | each van's choice is one of its generated routes, with fuel at most that of any of them, and every route generated before it uses strictly more |
| Selection.BestRoutes | solution.py:234-238 | one optimum per suitable van, in order |
| Selection.MakeVans | solution.py:227 | the vans are built in order; the build fails exactly when some entry is invalid, with the first invalid entry's error |
| Selection.MakePackages | solution.py:228 | the packages are built in order and numbered by position; the build fails exactly when some entry is invalid, with the first invalid entry's error |
| Selection.MadePackagesWellFormed | solution.py:228 | the built packages are valid and their ids are their positions, hence distinct |
| Selection.FindOptimal | solution.py:225-251 | a solution's fuel is its length times its van's fuel rate, and its length is never negative |
| Selection.FindOptimalFailures | solution.py:225-241 | the solver fails with a van or package error when an input is invalid, and with "no packages" exactly when there are none. It fails with "no suitable van" exactly when every van is lighter than some package, and "no valid routes" never happens. With valid inputs, some package and a van that can carry every package, it returns a solution |
| Selection.CheapestAcrossVans | solution.py:243-244 | the overall choice is complete and uses at most the fuel of any route of any suitable van |
| Selection.FirstCheapestVan | solution.py:243-244 | the final minimum picks the first suitable van whose own choice uses least fuel |
| Selection.FindOptimalTieBreak | solution.py:225-251 | a solution is the per-van choice of the first suitable van, in input order, whose choice uses least fuel; every earlier suitable van's choice uses strictly more |
| Selection.FindOptimalIsOptimal | solution.py:225-251 | a solution summarises a complete route generated for a suitable van, and no route of any suitable van uses less fuel |
| Selection.SinglePackageRoute | solution.py:161-187 | with one package that fits, the only route is start, pick, drop, end; its length is \|pickup\| + \|drop - pickup\| + \|drop\| |
| Selection.SingleVanSinglePackage | solution.py:225-251 | the solver on van (10, 2) and package (3, 7, 5) returns van (10, 2), the route start/pick/drop/end at 0/3/7/0, length 14 and fuel 28 |

## Left out

- The `__main__` block (solution.py:254-267) and its three-package example are not modelled. The
  one-package example `SingleVanSinglePackage` takes its place: unfolding the search by hand for
  three packages is out of proportion to what it would show.
- The debug-only `locations` property (solution.py:103-105) is not modelled.
- The type check in `Package.__eq__` (solution.py:27-28) is left out: comparing a package with a
  non-package cannot be written in the model.
- Python exceptions become values of the `Error` datatype. Their types and messages are not
  modelled. The empty-sequence error of `max` becomes `NoPackages`.
- Domain.RemoveFirst: requires the package to be aboard. The source's `list.remove` would raise
  otherwise, but a drop is offered only when its package is aboard (`Search.CanApply`), so that
  error path is never reached.
- Selection.MaxWeight: requires at least one package. The empty case is the `NoPackages` error of
  `GetSuitableVans`.
- The expansion does not check the seed pick against the capacity. The model keeps this, and the
  invariants hold only for vans that passed the suitability filter.
- Performance, and the exponential number of candidates, are not modelled. The source has no
  concurrency.
