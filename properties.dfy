/**
 * Properties of the controller: which rule decides, the bounds of each command,
 * invariance under translation, the quirk of the "in front" test, and
 * end-to-end scenarios.
 */
module Properties {
  import opened Wrappers
  import opened Entities
  import opened Lookup
  import opened Controller

  /** Past the guard, a pedestrian endangering the car at the nearest crosswalk means hard braking. */
  lemma PedestrianRuleBrakes(car: Car, dims: Dims, cw: Option<Crosswalk>, peds: seq<Pedestrian>, ob: Option<Obstacle>, i: int)
    requires ob.Some? ==> ob.value.x > FrontEdge(car, dims)
    requires cw.Some? && 0 <= i < |peds| && Endangers(car, dims, cw.value, peds[i])
    ensures Acceleration(car, dims, cw, peds, ob) == -100.0
  {
  }

  /**
   * Past the guard the command is -100 exactly when the pedestrian rule fires, unless
   * the distance-scaled term itself equals -100, which happens only at distance 80000.
   */
  lemma PedestrianRuleIff(car: Car, dims: Dims, cw: Option<Crosswalk>, peds: seq<Pedestrian>, ob: Option<Obstacle>)
    requires ob.Some? ==> ob.value.x > FrontEdge(car, dims)
    requires !Unstable(car)
    ensures Acceleration(car, dims, cw, peds, ob) == -100.0
            <==> PedestrianHazard(car, dims, cw, peds)
                 || (ob.Some? && !SlowDownFires(car, dims, ob.value) && car.v >= 60.0
                     && ob.value.x - car.x == 80000.0)
  {

  }

  /** The -10 rule wins over the distance-scaled rule: it is tested first, even at speed 60 and above. */
  lemma ObstacleSlowDownWins(car: Car, dims: Dims, cw: Option<Crosswalk>, peds: seq<Pedestrian>, o: Obstacle)
    requires o.x > FrontEdge(car, dims)
    requires !Unstable(car) && !PedestrianHazard(car, dims, cw, peds)
    requires car.v >= 25.0 && o.x - car.x < NearRange && InWideCorridor(car, dims, o)
    ensures Acceleration(car, dims, cw, peds, Some(o)) == -10.0
  {
  }

  /**
   * When nothing earlier fires and the speed is 60 or more, the command is
   * -8000000 / distance, whatever the distance and lateral position: the divisor
   * exceeds LENGTH, so the command lies strictly between -8000000 / LENGTH and 0.
   */
  lemma DistanceBrakingApplies(car: Car, dims: Dims, cw: Option<Crosswalk>, peds: seq<Pedestrian>, o: Obstacle)
    requires o.x > FrontEdge(car, dims)
    requires !Unstable(car) && !PedestrianHazard(car, dims, cw, peds) && !SlowDownFires(car, dims, o)
    requires car.v >= 60.0
    ensures o.x - car.x > dims.length > 0.0
    ensures Acceleration(car, dims, cw, peds, Some(o)) == -BrakingGain / (o.x - car.x)
    ensures -BrakingGain / dims.length < Acceleration(car, dims, cw, peds, Some(o)) < 0.0
  {
    DistanceBrakingBounds(car, dims, o);
  }

  /** The distance-scaled braking grows more severe as the gap to the obstacle closes. */
  lemma DistanceBrakingSharpensAsGapCloses(car: Car, o1: Obstacle, o2: Obstacle)
    requires car.x < o1.x < o2.x
    ensures DistanceBraking(car, o1) < DistanceBraking(car, o2)
  {

  }

  /** No rule fires unless its lookup found something: with neither found, only the guard can brake. */
  lemma MissingLookupsFallThrough(car: Car, dims: Dims, peds: seq<Pedestrian>)
    ensures !PedestrianHazard(car, dims, None, peds)
    ensures Acceleration(car, dims, None, peds, None) == if Unstable(car) then -100.0 else 100.0
    ensures Steering(car, dims, None) == -0.5 * car.psi
  {
  }

  /** getDF with an obstacle near and in the car's own corridor: +100 below y = 55, -100 from there up. */
  lemma SteeringAvoidsObstacle(car: Car, dims: Dims, o: Obstacle)
    requires InCarCorridor(car, dims, o) && Near(car, o)
    ensures Steering(car, dims, Some(o)) == if car.y < LaneSplitY then 100.0 else -100.0
  {
  }

  /** getDF with no obstacle ahead, or one that is far or outside the corridor: yaw damping -0.5 * psi. */
  lemma SteeringDampsYaw(car: Car, dims: Dims, ob: Option<Obstacle>)
    requires ob.None? || !(InCarCorridor(car, dims, ob.value) && Near(car, ob.value))
    ensures Steering(car, dims, ob) == -0.5 * car.psi
  {
  }

  /**
   * The "in front" test is interval overlap of the corridor [top, bottom] with the band
   * [o.y - o.r, o.y + o.r], minus the case of a band lying strictly inside the corridor.
   */
  lemma InFrontIsOverlapExceptContained(top: real, bottom: real, o: Obstacle)
    requires top <= bottom && o.r >= 0.0
    ensures InFront(top, bottom, o)
            <==> (top <= o.y + o.r && o.y - o.r <= bottom) && !(top < o.y - o.r && o.y + o.r < bottom)
  {
  }

  /** An obstacle centred on the car's lane but narrower than the car is not "in front" of it. */
  lemma NarrowObstacleInLaneIsMissed(car: Car, dims: Dims, o: Obstacle)
    requires o.y == car.y && 0.0 <= o.r < dims.width / 2.0
    ensures !InCarCorridor(car, dims, o)
    ensures !InWideCorridor(car, dims, o)
  {
  }

  /**
   * Consequence for the commands: at speed 65 an obstacle 100 ahead, centred on the lane
   * and narrower than the car, gets the distance-scaled command -80000 instead of -10.
   */
  lemma NarrowObstacleInLaneAt65(dims: Dims)
    requires dims.length < 100.0
    ensures var car := Car(0.0, 0.0, 0.0, 0.0, 65.0);
            Acceleration(car, dims, None, [], Some(Obstacle(100.0, 0.0, dims.width / 4.0))) == -80000.0
  {
    NarrowObstacleInLaneIsMissed(Car(0.0, 0.0, 0.0, 0.0, 65.0), dims, Obstacle(100.0, 0.0, dims.width / 4.0));
  }

  /** At speed 30 the same kind of obstacle 50 ahead does not slow the car down: +100. */
  lemma NarrowObstacleInLaneAt30(dims: Dims)
    requires dims.length < 50.0
    ensures var car := Car(0.0, 0.0, 0.0, 0.0, 30.0);
            Acceleration(car, dims, None, [], Some(Obstacle(50.0, 0.0, dims.width / 4.0))) == 100.0
  {
    NarrowObstacleInLaneIsMissed(Car(0.0, 0.0, 0.0, 0.0, 30.0), dims, Obstacle(50.0, 0.0, dims.width / 4.0));
  }

  /** The same translation applied to every position. */
  function ShiftCar(car: Car, dx: real, dy: real): Car {
    car.(x := car.x + dx, y := car.y + dy)
  }

  function ShiftPedestrian(p: Pedestrian, dx: real, dy: real): Pedestrian {
    p.(x := p.x + dx, y := p.y + dy)
  }

  function ShiftPedestrians(peds: seq<Pedestrian>, dx: real, dy: real): (r: seq<Pedestrian>)
    ensures |r| == |peds| && forall i :: 0 <= i < |peds| ==> r[i] == ShiftPedestrian(peds[i], dx, dy)
  {
    seq(|peds|, i requires 0 <= i < |peds| => ShiftPedestrian(peds[i], dx, dy))
  }

  function ShiftCrosswalk(cw: Option<Crosswalk>, dx: real): Option<Crosswalk> {
    match cw
    case None => None
    case Some(c) => Some(Crosswalk(c.lx + dx, c.rx + dx))
  }

  function ShiftObstacle(ob: Option<Obstacle>, dx: real, dy: real): Option<Obstacle> {
    match ob
    case None => None
    case Some(o) => Some(o.(x := o.x + dx, y := o.y + dy))
  }

  /** getAcceleration only looks at relative positions: translating the whole scene leaves it unchanged. */
  lemma AccelerationTranslationInvariant(car: Car, dims: Dims, cw: Option<Crosswalk>, peds: seq<Pedestrian>,
                                         ob: Option<Obstacle>, dx: real, dy: real)
    requires ob.Some? ==> ob.value.x > FrontEdge(car, dims)
    ensures var ob' := ShiftObstacle(ob, dx, dy);
            ob'.Some? ==> ob'.value.x > FrontEdge(ShiftCar(car, dx, dy), dims)
    ensures Acceleration(ShiftCar(car, dx, dy), dims, ShiftCrosswalk(cw, dx), ShiftPedestrians(peds, dx, dy),
                         ShiftObstacle(ob, dx, dy))
            == Acceleration(car, dims, cw, peds, ob)
  {

  }

  /** getDF is unchanged by a translation along the road (not across it: y = 55 is a fixed line). */
  lemma SteeringTranslationInvariantAlongRoad(car: Car, dims: Dims, ob: Option<Obstacle>, dx: real)
    ensures Steering(ShiftCar(car, dx, 0.0), dims, ShiftObstacle(ob, dx, 0.0)) == Steering(car, dims, ob)
  {
  }

  /**
   * The order std::sort leaves equal keys in changes getDF's result: two obstacles at the
   * same x, one in the corridor and one far to the side, give +100 or 0 depending on which
   * comes first in the sorted copy.
   */
  lemma SteeringDependsOnTieOrder(dims: Dims)
    requires dims.length < 199.0
    ensures var car := Car(0.0, 0.0, 0.0, 0.0, 0.0);
            var inLane := Obstacle(dims.length + 1.0, 0.0, dims.width);
            var aside := Obstacle(dims.length + 1.0, 4.0 * dims.width, dims.width / 8.0);
            var front := FrontEdge(car, dims);
            SortedBy([inLane, aside], ObstacleKey) && SortedBy([aside, inLane], ObstacleKey)
            && Steering(car, dims, FirstAhead([inLane, aside], ObstacleKey, front)) == 100.0
            && Steering(car, dims, FirstAhead([aside, inLane], ObstacleKey, front)) == 0.0
  {

  }

  /** Braking distance at speed 20 is 400 / 100 = 4. */
  lemma BrakingDistanceAt20()
    ensures BrakingDistance(20.0) == 4.0
  {
  }

  /**
   * Speed 30, an obstacle 50 ahead whose band covers an edge of the widened corridor,
   * and nothing else: -10, not the distance-scaled rule.
   */
  lemma ScenarioSlowDownAt30(dims: Dims)
    requires dims.length < 50.0
    ensures var car := Car(0.0, 0.0, 0.0, 0.0, 30.0);
            Acceleration(car, dims, None, [], Some(Obstacle(50.0, 0.0, dims.width / 2.0 + 3.0))) == -10.0
  {
  }

  /**
   * Speed 65 with the nearest obstacle 100 ahead: when its band covers an edge of the
   * widened corridor the -10 rule is tested first and wins; an obstacle far to the side
   * gets -8000000 / 100 = -80000 (and so does a narrow one centred in the lane, see
   * NarrowObstacleInLaneAt65).
   */
  lemma ScenarioHighSpeed(dims: Dims)
    requires dims.length < 100.0
    ensures var car := Car(0.0, 0.0, 0.0, 0.0, 65.0);
            Acceleration(car, dims, None, [], Some(Obstacle(100.0, 0.0, dims.width / 2.0 + 3.0))) == -10.0
            && Acceleration(car, dims, None, [], Some(Obstacle(100.0, 10.0 * dims.width + 10.0, 1.0))) == -80000.0
  {
  }

  /** Stable heading below speed 10, no pedestrians, nothing ahead: full throttle and yaw damping. */
  lemma ScenarioQuietRoad(car: Car, dims: Dims, crosswalks: seq<Crosswalk>, obstacles: seq<Obstacle>)
    requires car.v < 10.0
    requires forall j :: 0 <= j < |obstacles| ==> obstacles[j].x <= FrontEdge(car, dims)
    ensures Acceleration(car, dims, FirstAhead(crosswalks, CrosswalkKey, FrontEdge(car, dims)), [],
                         FirstAhead(obstacles, ObstacleKey, FrontEdge(car, dims))) == 100.0
    ensures Steering(car, dims, FirstAhead(obstacles, ObstacleKey, FrontEdge(car, dims))) == -0.5 * car.psi
  {
  }
}
