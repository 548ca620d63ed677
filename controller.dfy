/**
 * The rule-based controller of main.cpp: Sign, the longitudinal command of
 * getAcceleration and the steering command of getDF.
 *
 * The pure rule chains are the functions Acceleration and Steering; they take the
 * results of the two nearest-ahead lookups as inputs, so every statement about them
 * holds for whichever of several equally near entities the sort puts first. The
 * methods GetAcceleration and GetDF follow the code step by step (lookups, the
 * pedestrian loop with its early return) and are proved equal to the functions.
 * A lookup that finds nothing means "this rule does not fire".
 */
module Controller {
  import opened Wrappers
  import opened Entities
  import opened Lookup

  /** maxDeceleration, the divisor of the braking distance. */
  const MaxDeceleration: real := 100.0
  /** Lateral margin added on each side of the car for the acceleration rules. */
  const CorridorMargin: real := 3.0
  /** An obstacle closer than this (measured from car.x) is "near". */
  const NearRange: real := 200.0
  /** Numerator of the distance-scaled braking command. */
  const BrakingGain: real := 8000000.0
  /** getDF steers +100 below this y and -100 at or above it. */
  const LaneSplitY: real := 55.0

  /** Sign of a value: 1 for strictly positive values and -1 for zero and below. */
  function Sign(val: real): (r: int)
    ensures r == 1 || r == -1
    ensures r == 1 <==> val > 0.0
    ensures r as real * val == if val < 0.0 then -val else val
  {
    if val > 0.0 then 1 else -1
  }

  /** The instability guard: yaw or front-wheel angle outside the open band (-0.2, 0.2) at speed 10 or more. */
  predicate Unstable(car: Car) {
    ((car.psi >= 0.2 || car.psi <= -0.2) && car.v >= 10.0)
    || ((car.frontAngle >= 0.2 || car.frontAngle <= -0.2) && car.v >= 10.0)
  }

  /** Distance needed to stop from speed v: v * v / maxDeceleration. */
  function BrakingDistance(v: real): real {
    v * v / MaxDeceleration
  }

  /** The pedestrian's fear-expanded x-extent overlaps the open interval (lx, rx) of the crosswalk. */
  predicate OnCrosswalk(dims: Dims, p: Pedestrian, cw: Crosswalk) {
    p.x + dims.fearRadius > cw.lx && p.x - dims.fearRadius < cw.rx
  }

  /** The pedestrian's fear-expanded y-extent overlaps (car.y - WIDTH, car.y + WIDTH). */
  predicate OnSameLane(car: Car, dims: Dims, p: Pedestrian) {
    p.y + dims.fearRadius > car.y - dims.width && p.y - dims.fearRadius < car.y + dims.width
  }

  /** The pedestrian is on one side of the car's y and heading towards the other. */
  predicate MovingToOurLane(car: Car, p: Pedestrian) {
    (p.y > car.y && DirY(p) < 0) || (p.y < car.y && DirY(p) > 0)
  }

  /** The car's front edge plus the fear radius has come within one braking distance of the crosswalk. */
  predicate WithinBrakingReach(car: Car, dims: Dims, cw: Crosswalk) {
    car.x + dims.length + dims.fearRadius >= cw.lx - BrakingDistance(car.v)
  }

  /** The three conditions under which one pedestrian makes the car brake hard. */
  predicate Endangers(car: Car, dims: Dims, cw: Crosswalk, p: Pedestrian) {
    OnCrosswalk(dims, p, cw) && (OnSameLane(car, dims, p) || MovingToOurLane(car, p))
    && WithinBrakingReach(car, dims, cw)
  }

  /** The pedestrian rule fires: a crosswalk lies ahead and some pedestrian endangers the car at it. */
  predicate PedestrianHazard(car: Car, dims: Dims, cw: Option<Crosswalk>, peds: seq<Pedestrian>) {
    cw.Some? && exists i :: 0 <= i < |peds| && Endangers(car, dims, cw.value, peds[i])
  }

  /**
   * The "in front" test as written: one of the corridor's edges top, bottom lies in the
   * closed band [o.y - o.r, o.y + o.r]. A band strictly inside the corridor is missed.
   */
  predicate InFront(top: real, bottom: real, o: Obstacle) {
    (top <= o.y + o.r && top >= o.y - o.r) || (bottom >= o.y - o.r && bottom <= o.y + o.r)
  }

  /** The obstacle is ahead of car.x by less than NearRange. */
  predicate Near(car: Car, o: Obstacle) {
    o.x > car.x && o.x - car.x < NearRange
  }

  /** InFront against the corridor widened by CorridorMargin on each side (getAcceleration). */
  predicate InWideCorridor(car: Car, dims: Dims, o: Obstacle) {
    InFront(car.y - dims.width / 2.0 - CorridorMargin, CorridorMargin + car.y + dims.width / 2.0, o)
  }

  /** InFront against the car's own width (getDF). */
  predicate InCarCorridor(car: Car, dims: Dims, o: Obstacle) {
    InFront(car.y - dims.width / 2.0, car.y + dims.width / 2.0, o)
  }

  /** The -10 rule: speed 25 or more with the obstacle near and in the widened corridor. */
  predicate SlowDownFires(car: Car, dims: Dims, o: Obstacle) {
    car.v >= 25.0 && Near(car, o) && InWideCorridor(car, dims, o)
  }

  /** The distance-scaled command -8000000 / (o.x - car.x). */
  function DistanceBraking(car: Car, o: Obstacle): real
    requires o.x > car.x
  {
    -BrakingGain / (o.x - car.x)
  }

  /**
   * The distance-scaled command is a braking command, milder than -8000000 / LENGTH:
   * an obstacle found ahead is more than LENGTH beyond car.x.
   */
  lemma DistanceBrakingBounds(car: Car, dims: Dims, o: Obstacle)
    requires o.x > FrontEdge(car, dims)
    ensures -BrakingGain / dims.length < DistanceBraking(car, o) < 0.0
  {

  }

  /** Some rule of getAcceleration other than the default fires. */
  predicate AnyRuleFires(car: Car, dims: Dims, cw: Option<Crosswalk>, peds: seq<Pedestrian>, ob: Option<Obstacle>) {
    Unstable(car) || PedestrianHazard(car, dims, cw, peds)
    || (ob.Some? && (SlowDownFires(car, dims, ob.value) || car.v >= 60.0))
  }

  /** The obstacle rules of getAcceleration, for an obstacle found ahead. */
  function ObstacleCommand(car: Car, dims: Dims, o: Obstacle): (a: real)
    requires o.x > FrontEdge(car, dims)
    ensures a < 0.0 <==> SlowDownFires(car, dims, o) || car.v >= 60.0
    ensures SlowDownFires(car, dims, o) ==> a == -10.0
    ensures !SlowDownFires(car, dims, o) && car.v >= 60.0 ==> a == DistanceBraking(car, o)
    ensures !SlowDownFires(car, dims, o) && car.v < 60.0 ==> a == 100.0
  {
    if car.v >= 25.0 && Near(car, o) && InWideCorridor(car, dims, o) then -10.0
    else if car.v >= 60.0 then DistanceBrakingBounds(car, dims, o); DistanceBraking(car, o)
    else 100.0
  }

  /**
   * getAcceleration as a rule chain over the lookup results cw and ob: the first rule
   * that fires decides, a missing crosswalk or obstacle switches its rules off.
   */
  function Acceleration(car: Car, dims: Dims, cw: Option<Crosswalk>, peds: seq<Pedestrian>, ob: Option<Obstacle>): (a: real)
    requires ob.Some? ==> ob.value.x > FrontEdge(car, dims)
    ensures Unstable(car) ==> a == -100.0
    ensures a == 100.0 <==> !AnyRuleFires(car, dims, cw, peds, ob)
    ensures a == -100.0 || a == -10.0 || a == 100.0
            || (ob.Some? && a == DistanceBraking(car, ob.value))
  {
    if Unstable(car) then -100.0
    else if PedestrianHazard(car, dims, cw, peds) then -100.0
    else if ob.None? then 100.0
    else ObstacleCommand(car, dims, ob.value)
  }

  /** The steering rule of getDF for an obstacle found ahead. */
  function SteeringFor(car: Car, dims: Dims, o: Obstacle): (df: real)
    ensures df == 100.0 || df == -100.0 || df == -0.5 * car.psi
    ensures InCarCorridor(car, dims, o) && Near(car, o) ==> df == (if car.y < LaneSplitY then 100.0 else -100.0)
    ensures !(InCarCorridor(car, dims, o) && Near(car, o)) ==> df == -0.5 * car.psi
  {
    if InCarCorridor(car, dims, o) && Near(car, o) then
      (if car.y < LaneSplitY then 100.0 else -100.0)
    else -0.5 * car.psi
  }

  /** getDF as a function of the obstacle lookup result; no obstacle ahead means yaw damping. */
  function Steering(car: Car, dims: Dims, ob: Option<Obstacle>): (df: real)
    ensures df == 100.0 || df == -100.0 || df == -0.5 * car.psi
  {
    match ob
    case None => -0.5 * car.psi
    case Some(o) => SteeringFor(car, dims, o)
  }

  /**
   * getAcceleration step by step. sortedCrosswalks and sortedObstacles are the local
   * copies after std::sort; the lookups scan them, the pedestrian loop returns early.
   */
  method GetAcceleration(car: Car, dims: Dims, sortedCrosswalks: seq<Crosswalk>, peds: seq<Pedestrian>,
                         sortedObstacles: seq<Obstacle>) returns (a: real)
    ensures a == Acceleration(car, dims, FirstAhead(sortedCrosswalks, CrosswalkKey, FrontEdge(car, dims)), peds,
                              FirstAhead(sortedObstacles, ObstacleKey, FrontEdge(car, dims)))
  {
    if (car.psi >= 0.2 || car.psi <= -0.2) && car.v >= 10.0 {
      return -100.0;
    }
    if (car.frontAngle >= 0.2 || car.frontAngle <= -0.2) && car.v >= 10.0 {
      return -100.0;
    }
    var nearestCrosswalk := NearestCrosswalk(sortedCrosswalks, car, dims);
    var brakingDistance := car.v * car.v / MaxDeceleration;
    if nearestCrosswalk.Some? {
      var cw := nearestCrosswalk.value;
      for i := 0 to |peds|
        invariant forall j :: 0 <= j < i ==> !Endangers(car, dims, cw, peds[j])
      {
        var ped := peds[i];
        var dirY := if ped.sinYaw < 0.0 then -1 else 1;
        var onCrosswalk := ped.x + dims.fearRadius > cw.lx && ped.x - dims.fearRadius < cw.rx;
        var onSameLane := ped.y + dims.fearRadius > car.y - dims.width && ped.y - dims.fearRadius < car.y + dims.width;
        var movingToOurLane := (ped.y > car.y && dirY < 0) || (ped.y < car.y && dirY > 0);
        if onCrosswalk && (onSameLane || movingToOurLane)
           && car.x + dims.length + dims.fearRadius >= cw.lx - brakingDistance {
          return -100.0;
        }
      }
    }
    var obs := NearestObstacle(sortedObstacles, car, dims);
    if obs.None? {
      return 100.0;
    }
    var o := obs.value;
    var topCar := car.y - dims.width / 2.0 - CorridorMargin;
    var bottomCar := CorridorMargin + car.y + dims.width / 2.0;
    var topObs := o.y - o.r;
    var bottomObs := o.y + o.r;
    var obstacleInFront := (topCar <= bottomObs && topCar >= topObs) || (bottomCar >= topObs && bottomCar <= bottomObs);
    var obstacleNear := o.x > car.x && o.x - car.x < NearRange;
    var distance := o.x - car.x;
    if car.v >= 25.0 && obstacleNear && obstacleInFront {
      return -10.0;
    }
    if car.v >= 60.0 {
      return -BrakingGain / distance;
    }
    return 100.0;
  }

  /** getDF step by step over the sorted copy of the obstacles. */
  method GetDF(car: Car, dims: Dims, sortedObstacles: seq<Obstacle>) returns (df: real)
    ensures df == Steering(car, dims, FirstAhead(sortedObstacles, ObstacleKey, FrontEdge(car, dims)))
  {
    var obs := NearestObstacle(sortedObstacles, car, dims);
    if obs.None? {
      return -0.5 * car.psi;
    }
    var o := obs.value;
    var topCar := car.y - dims.width / 2.0;
    var bottomCar := car.y + dims.width / 2.0;
    var topObs := o.y - o.r;
    var bottomObs := o.y + o.r;
    var position := car.y < LaneSplitY;
    var obstacleInFront := (topCar <= bottomObs && topCar >= topObs) || (bottomCar >= topObs && bottomCar <= bottomObs);
    var obstacleNear := o.x > car.x && o.x - car.x < NearRange;
    if obstacleInFront && obstacleNear {
      if position {
        return 100.0;
      } else {
        return -100.0;
      }
    } else {
      return -0.5 * car.psi;
    }
  }
}
