/**
 * The plain data the decision logic reads: the car, pedestrians, obstacles and
 * crosswalks, and the size constants of the car and of a pedestrian's fear zone.
 */
module Entities {

  /** A strictly positive real; the constants whose values live outside main.cpp. */
  type PosReal = r: real | r > 0.0 witness 1.0

  /** Car::LENGTH, Car::WIDTH and PedestrianFearRadius, whose values are not part of this model. */
  datatype Dims = Dims(length: PosReal, width: PosReal, fearRadius: PosReal)

  /** The car: position, yaw psi, front-wheel angle and speed. */
  datatype Car = Car(x: real, y: real, psi: real, frontAngle: real, v: real)

  /**
   * A pedestrian. The code only uses the sign of sin(yaw); the model takes that sine
   * as the field sinYaw instead of the heading itself.
   */
  datatype Pedestrian = Pedestrian(x: real, y: real, sinYaw: real)

  /** A static circular obstacle with centre (x, y) and radius r. */
  datatype Obstacle = Obstacle(x: real, y: real, r: real)

  /** A crosswalk spanning lx .. rx along the road. */
  datatype Crosswalk = Crosswalk(lx: real, rx: real)

  /** The x coordinate of the car's front edge, car.x + Car::LENGTH. */
  function FrontEdge(car: Car, dims: Dims): real {
    car.x + dims.length
  }

  /** The sort and lookup key of a crosswalk: its left edge. */
  function CrosswalkKey(c: Crosswalk): real {
    c.lx
  }

  /** The sort and lookup key of an obstacle: its centre's x. */
  function ObstacleKey(o: Obstacle): real {
    o.x
  }

  /** dir_y: -1 when the pedestrian heads towards smaller y, 1 otherwise. */
  function DirY(p: Pedestrian): int {
    if p.sinYaw < 0.0 then -1 else 1
  }
}
