/**
 * getAcceleration and getDF as written dereference the lookup results without a null
 * check. This module models that code with an Undefined outcome where a null pointer
 * would be dereferenced, shows inputs that reach it, and proves that the controller of
 * module Controller (missing entity = rule does not fire) agrees with the code wherever
 * the code is defined.
 */
module Findings {
  import opened Wrappers
  import opened Entities
  import opened Lookup
  import opened Controller

  /**
   * getAcceleration as written: the first pedestrian's test reads nearestCrosswalk,
   * and the obstacle rules read obs, whether or not the lookups found anything.
   */
  function AccelerationAsWritten(car: Car, dims: Dims, cw: Option<Crosswalk>, peds: seq<Pedestrian>,
                                 ob: Option<Obstacle>): (r: Outcome<real>)
    requires ob.Some? ==> ob.value.x > FrontEdge(car, dims)
    ensures Unstable(car) ==> r == Defined(-100.0)
    ensures r.Undefined? ==> cw.None? || ob.None?
    ensures cw.Some? && ob.Some? ==> r.Defined?
  {
    if Unstable(car) then Defined(-100.0)
    else if |peds| > 0 && cw.None? then Undefined
    else if PedestrianHazard(car, dims, cw, peds) then Defined(-100.0)
    else if ob.None? then Undefined
    else Defined(ObstacleCommand(car, dims, ob.value))
  }

  /** getDF as written: obs is read unconditionally. */
  function SteeringAsWritten(car: Car, dims: Dims, ob: Option<Obstacle>): (r: Outcome<real>)
    ensures r.Undefined? <==> ob.None?
  {
    match ob
    case None => Undefined
    case Some(o) => Defined(SteeringFor(car, dims, o))
  }

  /**
   * The code is undefined exactly when, past the guard, a pedestrian exists but no
   * crosswalk lies ahead, or the pedestrian rule does not fire and no obstacle lies ahead.
   */
  lemma AccelerationAsWrittenUndefinedIff(car: Car, dims: Dims, cw: Option<Crosswalk>, peds: seq<Pedestrian>,
                                          ob: Option<Obstacle>)
    requires ob.Some? ==> ob.value.x > FrontEdge(car, dims)
    ensures AccelerationAsWritten(car, dims, cw, peds, ob).Undefined?
            <==> !Unstable(car)
                 && ((|peds| > 0 && cw.None?) || (!PedestrianHazard(car, dims, cw, peds) && ob.None?))
  {
  }

  /** Wherever the code is defined, the corrected controller returns the same command. */
  lemma AccelerationAgreesWhereDefined(car: Car, dims: Dims, cw: Option<Crosswalk>, peds: seq<Pedestrian>,
                                       ob: Option<Obstacle>)
    requires ob.Some? ==> ob.value.x > FrontEdge(car, dims)
    requires AccelerationAsWritten(car, dims, cw, peds, ob).Defined?
    ensures Acceleration(car, dims, cw, peds, ob) == AccelerationAsWritten(car, dims, cw, peds, ob).value
  {
  }

  /** getDF as written is undefined exactly when no obstacle lies ahead, and otherwise agrees. */
  lemma SteeringAgreesWhereDefined(car: Car, dims: Dims, ob: Option<Obstacle>)
    ensures SteeringAsWritten(car, dims, ob).Undefined? <==> ob.None?
    ensures SteeringAsWritten(car, dims, ob).Defined? ==>
              Steering(car, dims, ob) == SteeringAsWritten(car, dims, ob).value
  {
  }

  /**
   * An input that reaches the null dereference: a stable car, no pedestrians and an
   * empty obstacle list. The code dereferences a null obs; the corrected controller
   * accelerates with +100 and damps the yaw.
   */
  lemma EmptyRoadDereferencesNull(dims: Dims)
    ensures var car := Car(0.0, 0.0, 0.0, 0.0, 0.0);
            var ob := FirstAhead([], ObstacleKey, FrontEdge(car, dims));
            AccelerationAsWritten(car, dims, None, [], ob) == Undefined
            && SteeringAsWritten(car, dims, ob) == Undefined
            && Acceleration(car, dims, None, [], ob) == 100.0
            && Steering(car, dims, ob) == 0.0
  {
  }

  /** A pedestrian but no crosswalk ahead: the code dereferences a null nearestCrosswalk. */
  lemma PedestrianWithoutCrosswalkDereferencesNull(dims: Dims, p: Pedestrian)
    ensures var car := Car(0.0, 0.0, 0.0, 0.0, 0.0);
            AccelerationAsWritten(car, dims, None, [p], None) == Undefined
            && Acceleration(car, dims, None, [p], None) == 100.0
  {
  }
}
