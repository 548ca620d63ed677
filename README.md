# Rule-based controller of a single-car driving simulator

This project models the decision logic of the simulator's `main.cpp`: the
controller that, on every tick, turns the car's state and the world's entity
lists into a longitudinal command (`getAcceleration`) and a steering command
(`getDF`), together with the helper `Sign`.

- **Entities** (`entities.dfy`): the car (`x`, `y`, yaw `psi`, `frontAngle`,
  speed `v`), pedestrians, circular obstacles and crosswalks as datatypes over
  `real`. `Car::LENGTH`, `Car::WIDTH` and `PedestrianFearRadius` are defined in
  `world.h`, which is not part of this model; they are the fields of `Dims`,
  any strictly positive reals.
- **Nearest-ahead lookups** (`lookup.dfy`): the code sorts a local copy of the
  crosswalks (by `lx`) or obstacles (by `x`) and scans it with a `for` loop
  that stops at the first element strictly beyond the car's front edge
  `car.x + Car::LENGTH`. The scan is `FindFirstAhead`, proved equal to the
  function `FirstAhead`. The sort is given by its contract only: for ANY
  permutation sorted by the key, the scan's result is a member with minimal
  qualifying key, or `None` exactly when nothing lies ahead
  (`FirstAheadOfSortedCopyIsNearest`). Since `std::sort` is not stable, which
  of several equally near entities is chosen is left open.
- **Controller** (`controller.dfy`): `Acceleration` and `Steering` are the
  rule chains as functions of the car, the sizes, the pedestrians and the
  lookup results; `GetAcceleration` and `GetDF` are the step-by-step
  procedures (lookups, pedestrian loop with early return) proved equal to
  them. A lookup that finds nothing switches its rules off: no crosswalk
  ahead means the pedestrian rule does not fire, no obstacle ahead means the
  obstacle rules do not fire and `getDF` only damps the yaw.
- **Properties** (`properties.dfy`) and **Findings** (`findings.dfy`): the
  priority of the rules, bounds, translation invariance, the behaviour of the
  "in front" test, scenarios, and the code as written with its null
  dereferences.

The C++ `sin(ped.yaw) < 0 ? -1 : 1` is modelled on the pedestrian's field
`sinYaw`, which stands for the value of `sin(ped.yaw)`. The global `world` is
replaced by explicit parameters.

The model follows the code where it differs from the intended behaviour.
The intended command for a near obstacle in the car's corridor at speed 65,
100 ahead, is -80000 (the speed-60 rule). In the code the `-10` test comes
first and also covers speed 60 and above, so an obstacle whose band covers an
edge of the widened corridor yields `-10`; an obstacle far to the side yields
`-80000` (`Properties.ScenarioHighSpeed`). Because the "in front" test only
asks whether a corridor edge lies inside the obstacle's band, a narrower
obstacle centred in the lane is not detected at all: it gets `-80000` at
speed 65 (`Properties.NarrowObstacleInLaneAt65`) and `+100` at speed 30
(`Properties.NarrowObstacleInLaneAt30`). The distance-scaled rule has no
proximity or corridor condition in the code.

## Model

| member | source | states |
|---|---|---|
| `Controller.Sign` | main.cpp:21-25 | the result is 1 exactly for strictly positive values, -1 otherwise, and the result times the value is the absolute value |
| `Lookup.FirstAheadIndex` | main.cpp:41-47 | the index at which the scan stops: every earlier element lies at or behind the front edge, the element there lies strictly ahead, `|s|` when none does |
| `Lookup.FirstAhead` | main.cpp:79-85 | the element the scan picks is a member of the list strictly ahead of the front edge; `None` exactly when every key is at or behind it |
| `Lookup.FindFirstAhead` | main.cpp:115-121 | the for-loop with `break` returns exactly `FirstAhead` of its list |
| `Lookup.FirstAheadOfSortedCopyIsNearest` | main.cpp:37-47 | scanning any permutation sorted by the key yields a member with key beyond the front edge and minimal among such keys, and `None` exactly when no key exceeds the front edge |
| `Lookup.NearestIsUniqueUpToKey` | main.cpp:75-85 | any two nearest results agree on absence and on the key, so ties differ only in their other fields |
| `Lookup.NearestCrosswalk` | main.cpp:37-47 | the crosswalk lookup keyed on `lx`: a crosswalk of the list with `lx > car.x + LENGTH`, the first such in the sorted copy |
| `Lookup.NearestObstacle` | main.cpp:75-85 | the obstacle lookup keyed on `x`: an obstacle of the list with `x > car.x + LENGTH`, the first such in the sorted copy |
| `Controller.DistanceBrakingBounds` | main.cpp:94-102 | for an obstacle found ahead the divisor exceeds LENGTH, so `-8000000 / distance` lies strictly between `-8000000 / LENGTH` and 0 |
| `Controller.ObstacleCommand` | main.cpp:86-104 | the obstacle rules brake (negative command) exactly when the -10 rule or the speed-60 rule fires; -10 when the -10 rule fires, the distance term when only the speed-60 rule does, +100 otherwise |
| `Controller.Acceleration` | main.cpp:28-105 | the guard forces -100 at speed 10 or more when `psi` or `frontAngle` is at or beyond ±0.2; +100 exactly when no rule fires; every result is -100, -10, +100 or the distance term |
| `Controller.SteeringFor` | main.cpp:122-143 | for an obstacle found ahead: the command is +100, -100 or `-0.5 * psi`; near and in the car's corridor it is +100 when `car.y < 55` and -100 otherwise; otherwise it is `-0.5 * psi` |
| `Controller.Steering` | main.cpp:107-144 | every steering command is +100, -100 or `-0.5 * psi` |
| `Controller.GetAcceleration` | main.cpp:28-105 | the step-by-step procedure, early returns and pedestrian loop included, returns exactly the rule chain `Acceleration` of its lookup results |
| `Controller.GetDF` | main.cpp:107-143 | the step-by-step procedure returns exactly `Steering` of its lookup result |
| `Properties.PedestrianRuleBrakes` | main.cpp:54-72 | a pedestrian meeting the three conditions at the nearest crosswalk forces -100 |
| `Properties.PedestrianRuleIff` | main.cpp:50-72 | past the guard, the command is -100 if and only if the pedestrian rule fires or the distance term equals -100 (distance 80000) |
| `Properties.ObstacleSlowDownWins` | main.cpp:86-99 | with no earlier rule firing, speed 25 or more and the obstacle within 200 and in the widened corridor give -10, also at speed 60 and above |
| `Properties.DistanceBrakingApplies` | main.cpp:94-102 | with no earlier rule firing and speed 60 or more, the command is `-8000000 / (obs.x - car.x)` with a divisor above LENGTH > 0, and lies in `(-8000000 / LENGTH, 0)` |
| `Properties.DistanceBrakingSharpensAsGapCloses` | main.cpp:101 | a closer obstacle gets a strictly more severe distance-scaled command |
| `Properties.MissingLookupsFallThrough` | main.cpp:41-47 | with no crosswalk and no obstacle ahead only the guard can brake, otherwise +100, and steering is `-0.5 * psi` |
| `Properties.SteeringAvoidsObstacle` | main.cpp:128-140 | an obstacle near and in the car's own corridor gives +100 when `car.y < 55` and -100 otherwise |
| `Properties.SteeringDampsYaw` | main.cpp:141-143 | in every other case the steering command is `-0.5 * psi` |
| `Properties.InFrontIsOverlapExceptContained` | main.cpp:93 | the "in front" test equals overlap of corridor and obstacle band minus the band lying strictly inside the corridor |
| `Properties.NarrowObstacleInLaneIsMissed` | main.cpp:130 | an obstacle centred on the car's lane with radius below half the car's width (narrower than the car) is in front of neither corridor |
| `Properties.NarrowObstacleInLaneAt65` | main.cpp:93-102 | at speed 65, such a narrow obstacle 100 ahead centred in the lane gets -80000, not -10 |
| `Properties.NarrowObstacleInLaneAt30` | main.cpp:93-104 | at speed 30, such a narrow obstacle 50 ahead centred in the lane gets +100 |
| `Properties.AccelerationTranslationInvariant` | main.cpp:28-105 | translating car, crosswalk, pedestrians and obstacle by one vector leaves the command unchanged |
| `Properties.SteeringTranslationInvariantAlongRoad` | main.cpp:107-144 | translating car and obstacle along x leaves the steering command unchanged |
| `Properties.SteeringDependsOnTieOrder` | main.cpp:111-121 | two sorted orders of the same obstacles, equal in `x`, give steering +100 and 0: the result depends on how the sort orders ties |
| `Properties.BrakingDistanceAt20` | main.cpp:50-51 | the braking distance at speed 20 is 4 |
| `Properties.ScenarioSlowDownAt30` | main.cpp:97-99 | speed 30, an obstacle 50 ahead whose band covers an edge of the widened corridor: -10 |
| `Properties.ScenarioHighSpeed` | main.cpp:97-102 | speed 65, obstacle 100 ahead: -10 when its band covers an edge of the widened corridor, -80000 when it lies far to the side |
| `Properties.ScenarioQuietRoad` | main.cpp:28-144 | speed below 10, no pedestrians, no obstacle ahead: +100 and `-0.5 * psi` |
| `Findings.AccelerationAsWritten` | main.cpp:28-105 | the code as written: the guard gives -100; it is undefined only when a lookup found nothing, and always defined when both found something |
| `Findings.SteeringAsWritten` | main.cpp:107-144 | the code as written is undefined exactly when the obstacle lookup found nothing |
| `Findings.AccelerationAsWrittenUndefinedIff` | main.cpp:54-90 | the code as written dereferences null exactly when, past the guard, a pedestrian exists with no crosswalk ahead, or the pedestrian rule does not fire and no obstacle lies ahead |
| `Findings.AccelerationAgreesWhereDefined` | main.cpp:28-105 | wherever the code as written is defined, the corrected `Acceleration` returns the same command |
| `Findings.SteeringAgreesWhereDefined` | main.cpp:115-143 | `getDF` as written is undefined exactly when no obstacle lies ahead and otherwise equals `Steering` |
| `Findings.EmptyRoadDereferencesNull` | main.cpp:89-90 | with no obstacles both procedures as written dereference null; the corrected ones give +100 and 0 |
| `Findings.PedestrianWithoutCrosswalkDereferencesNull` | main.cpp:57-59 | one pedestrian and no crosswalk ahead reach the null `nearestCrosswalk` dereference; the corrected controller gives +100 |

## Findings

| source | as written | input that shows it | evidently intended | confidence | as-written member | corrected member |
|---|---|---|---|---|---|---|
| main.cpp:89-90 | `obs` is dereferenced without a null check | a stable car, no pedestrians and an obstacle list with nothing beyond the front edge (for instance empty) | no obstacle ahead: the obstacle rules do not fire, +100 | high; not executed | `Findings.EmptyRoadDereferencesNull` | `Controller.Acceleration` |
| main.cpp:58-59 | `nearestCrosswalk` is dereferenced for the first pedestrian without a null check | one pedestrian and no crosswalk beyond the front edge | no crosswalk ahead: the pedestrian rule does not fire | high; not executed | `Findings.PedestrianWithoutCrosswalkDereferencesNull` | `Controller.Acceleration` |
| main.cpp:125-126 | `obs` is dereferenced without a null check | an obstacle list with nothing beyond the front edge | no obstacle ahead: yaw damping `-0.5 * psi` | high; not executed | `Findings.SteeringAgreesWhereDefined` | `Controller.Steering` |

## Left out

- `solve` (main.cpp:146-174): the simulation thread with its mutex, sleep and the manual-override flag; concurrency and timing are not modelled (its `a`/`df` locals shadow the globals, so the override never reaches `makeStep`).
- `main` (main.cpp:177-205): window setup, key callbacks, rendering and the world snapshot copy; user interface and I/O.
- The `World` class and its methods (`init`, `updatePedestrians`, `makeStep`, `checkCollisions`, `gameOver`, getters): `world.h` is not part of this model; only the entity fields are used, as plain data passed in.
- `std::sort` (main.cpp:37-39, 75-77, 111-113): no sorting algorithm is modelled; the procedures receive the sorted copy, and the lemmas hold for every permutation sorted by the key.
- Trigonometry: `sin(ped.yaw)` is an input (`sinYaw`), since only its sign is used.
- Floating point: all arithmetic is exact `real` arithmetic; IEEE rounding, infinities and NaN are not modelled.
- `Car::WIDTH / 2` is taken as real division; if `world.h` declares `WIDTH` as an integer the C++ division truncates, which the model does not capture.
- Undefined behaviour of the null dereferences is modelled only as the outcome `Undefined` in `findings.dfy`; the controller used everywhere else treats a missing entity as "rule does not fire".
