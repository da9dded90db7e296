/** The value side of the accelerometer-driven disc: its constants, the
    records it is made of, and the functions that say what one initialisation,
    one force, one wall-bounce step and one timer tick do to a disc. The
    mutable `Disc` of module AccelDiscs is proved against these functions.
    Every C `double` is an exact `real` here. */
module DiscPhysics {

  const MathPi: real := 3.141592653589793238462
  const DiscDensity: real := 0.25
  /** Scale from a raw accelerometer reading to a force. */
  const AccelRatio: real := 0.05
  /** A post-bounce axis speed above this fires one vibration pulse. */
  const VibrateFactor: real := 2.2
  /** Coefficient of restitution of a wall bounce (the local `e` of the update step). */
  const Restitution: real := 0.5

  datatype Vec2d = Vec2d(x: real, y: real)

  /** One accelerometer sample; only `x` and `y` take part in the physics. */
  datatype AccelData = AccelData(x: int, y: int, z: int)

  const ZeroAccel := AccelData(0, 0, 0)

  datatype Option<T> = None | Some(value: T)

  /** A snapshot of the four fields of a disc. */
  datatype DiscState = DiscState(pos: Vec2d, vel: Vec2d, mass: real, radius: real)

  /** A disc after a step, with the number of vibration pulses the step fired. */
  datatype Outcome = Outcome(disc: DiscState, pulses: nat)

  function Abs(r: real): (a: real) { if r < 0.0 then -r else r }

  /** Mass of a disc of the given radius: area times density. */
  function CalcMass(radius: real): (m: real)
  {
    MathPi * radius * radius * DiscDensity
  }

  lemma ProductPositive(a: real, b: real)
    requires a > 0.0 && b > 0.0
    ensures a * b > 0.0
  {
  }

  /** A disc's mass is never negative, and positive exactly when its radius is not zero. */
  lemma {:induction false} CalcMassPositive(radius: real)
    ensures CalcMass(radius) >= 0.0
    ensures CalcMass(radius) > 0.0 <==> radius != 0.0
  {
    var a := MathPi * radius;
    var b := a * radius;
    if radius > 0.0 {
      ProductPositive(MathPi, radius);
      ProductPositive(a, radius);
      ProductPositive(b, DiscDensity);
    } else if radius < 0.0 {
      ProductPositive(MathPi, -radius);
      assert a == -(MathPi * -radius);
      ProductPositive(MathPi * -radius, -radius);
      assert b == (MathPi * -radius) * -radius;
      ProductPositive(b, DiscDensity);
    }
  }

  /** C's `n / 2` on a signed int: the quotient is truncated toward zero. */
  function HalfTowardZero(n: int): (h: int)
    ensures 0 <= n ==> 0 <= n - 2 * h <= 1
    ensures n < 0 ==> -1 <= n - 2 * h <= 0
  {
    if n >= 0 then n / 2 else -((-n) / 2)
  }

  /** The disc as initialisation leaves it in a frame of the given size. */
  function InitialState(width: int, height: int): (d: DiscState)
    ensures d.vel == Vec2d(0.0, 0.0) && d.radius == 22.0 && d.mass > 0.0
    ensures 0 <= width ==> 0.0 <= width as real - 2.0 * d.pos.x <= 1.0
    ensures 0 <= height ==> 0.0 <= height as real - 2.0 * d.pos.y <= 1.0
  {
    DiscState(Vec2d(HalfTowardZero(width) as real, HalfTowardZero(height) as real),
              Vec2d(0.0, 0.0),
              MathPi * 8.0 * 8.0 * DiscDensity,
              22.0)
  }

  /** The initial mass is that of a disc of radius 8, not of the initial radius 22. */
  lemma InitMassIsNotFromRadius(width: int, height: int)
    ensures InitialState(width, height).mass == CalcMass(8.0) == 16.0 * MathPi
    ensures InitialState(width, height).mass != CalcMass(InitialState(width, height).radius)
  {
  }

  /** Applying a force: the velocity changes by force / mass, nothing else changes. */
  function Forced(d: DiscState, force: Vec2d): (r: DiscState)
    requires d.mass != 0.0
    ensures r.pos == d.pos && r.mass == d.mass && r.radius == d.radius
    ensures (r.vel.x - d.vel.x) * d.mass == force.x
    ensures (r.vel.y - d.vel.y) * d.mass == force.y
  {
    d.(vel := Vec2d(d.vel.x + force.x / d.mass, d.vel.y + force.y / d.mass))
  }

  /** The force an accelerometer sample exerts: one twentieth of the sample,
      with the Y axis inverted. */
  function AccelForce(accel: AccelData): (f: Vec2d)
    ensures f.x * 20.0 == accel.x as real
    ensures f.y * 20.0 == -(accel.y as real)
    ensures (f.x > 0.0 <==> accel.x > 0) && (f.x < 0.0 <==> accel.x < 0)
    ensures (f.y > 0.0 <==> accel.y < 0) && (f.y < 0.0 <==> accel.y > 0)
    ensures accel.x == 0 && accel.y == 0 ==> f == Vec2d(0.0, 0.0)
  {
    Vec2d(accel.x as real * AccelRatio, -(accel.y as real) * AccelRatio)
  }

  /** A zero sample (what the tick uses when no sample is available) leaves the disc as it is. */
  lemma ZeroSampleKeepsDisc(d: DiscState)
    requires d.mass != 0.0
    ensures Forced(d, AccelForce(ZeroAccel)) == d
  {
  }

  /** For a disc of positive mass, a sample tilted toward +x speeds it up
      along x, while a sample tilted toward +y slows it along y: the Y axis is
      inverted. */
  lemma SampleSteersVelocity(d: DiscState, accel: AccelData)
    requires d.mass > 0.0
    ensures Forced(d, AccelForce(accel)).vel.x > d.vel.x <==> accel.x > 0
    ensures Forced(d, AccelForce(accel)).vel.x < d.vel.x <==> accel.x < 0
    ensures Forced(d, AccelForce(accel)).vel.y < d.vel.y <==> accel.y > 0
    ensures Forced(d, AccelForce(accel)).vel.y > d.vel.y <==> accel.y < 0
  {
    var r := Forced(d, AccelForce(accel));
    var dx, dy := r.vel.x - d.vel.x, r.vel.y - d.vel.y;
    assert dx * d.mass == AccelForce(accel).x && dy * d.mass == AccelForce(accel).y;
    if dx > 0.0 { ProductPositive(dx, d.mass); }
    if dx < 0.0 { ProductPositive(-dx, d.mass); }
    if dy > 0.0 { ProductPositive(dy, d.mass); }
    if dy < 0.0 { ProductPositive(-dy, d.mass); }
  }

  /** The sample a tick uses: the peeked one, or all-zero when there is none. */
  function Sample(peeked: Option<AccelData>): (accel: AccelData)
  {
    if peeked.Some? then peeked.value else ZeroAccel
  }

  /** The wall test of one axis: the leading edge has left [0, limit] while
      the disc still moves outward. */
  predicate Hits(p: real, v: real, r: real, limit: int)
  {
    (p - r < 0.0 && v < 0.0) || (p + r > limit as real && v > 0.0)
  }

  /** The velocity of one axis after its wall test. */
  function Bounced(p: real, v: real, r: real, limit: int): (v': real)
  {
    if Hits(p, v, r, limit) then -v * Restitution else v
  }

  /** The restitution law: a disc leaving on the low side is sent back toward
      the high side and vice versa, at half its speed; without a hit the
      velocity is kept. So a bounce never speeds an axis up. */
  lemma BounceLaw(p: real, v: real, r: real, limit: int)
    ensures p - r < 0.0 && v < 0.0 ==> Bounced(p, v, r, limit) > 0.0
    ensures p + r > limit as real && v > 0.0 ==> Bounced(p, v, r, limit) < 0.0
    ensures Hits(p, v, r, limit) ==> 2.0 * Abs(Bounced(p, v, r, limit)) == Abs(v)
    ensures !Hits(p, v, r, limit) ==> Bounced(p, v, r, limit) == v
    ensures Abs(Bounced(p, v, r, limit)) <= Abs(v)
  {
  }

  /** Post-bounce speed that counts as a hard hit. */
  predicate HardHit(v: real)
  {
    v > VibrateFactor || v < -VibrateFactor
  }

  /** The pulses one axis fires in one update. The post-bounce speed is
      tested, so an axis pulses exactly when it bounces with an incoming
      speed above twice the vibration threshold. */
  function AxisPulses(p: real, v: real, r: real, limit: int): (n: nat)
  {
    if Hits(p, v, r, limit) && HardHit(Bounced(p, v, r, limit)) then 1 else 0
  }

  lemma PulseLaw(p: real, v: real, r: real, limit: int)
    ensures AxisPulses(p, v, r, limit) <= 1
    ensures AxisPulses(p, v, r, limit) == 1 <==> Hits(p, v, r, limit) && Abs(v) > 2.0 * VibrateFactor
  {
  }

  /** One update: the x test, the y test, then the Euler position step. */
  function Updated(d: DiscState, width: int, height: int): (o: Outcome)
    ensures o.disc.mass == d.mass && o.disc.radius == d.radius
    ensures o.disc.vel == Vec2d(Bounced(d.pos.x, d.vel.x, d.radius, width),
                                Bounced(d.pos.y, d.vel.y, d.radius, height))
    ensures o.disc.pos == Vec2d(d.pos.x + o.disc.vel.x, d.pos.y + o.disc.vel.y)
    ensures o.pulses == AxisPulses(d.pos.x, d.vel.x, d.radius, width)
                      + AxisPulses(d.pos.y, d.vel.y, d.radius, height)
    ensures o.pulses <= 2
  {
    var vx := Bounced(d.pos.x, d.vel.x, d.radius, width);
    var vy := Bounced(d.pos.y, d.vel.y, d.radius, height);
    Outcome(DiscState(Vec2d(d.pos.x + vx, d.pos.y + vy), Vec2d(vx, vy), d.mass, d.radius),
            AxisPulses(d.pos.x, d.vel.x, d.radius, width)
            + AxisPulses(d.pos.y, d.vel.y, d.radius, height))
  }

  /** The x results of an update depend only on the x data and the width,
      the y results only on the y data and the height. */
  lemma AxesAreIndependent(d1: DiscState, d2: DiscState, w1: int, h1: int, w2: int, h2: int)
    requires d1.radius == d2.radius
    ensures d1.pos.x == d2.pos.x && d1.vel.x == d2.vel.x && w1 == w2 ==>
              Updated(d1, w1, h1).disc.pos.x == Updated(d2, w2, h2).disc.pos.x &&
              Updated(d1, w1, h1).disc.vel.x == Updated(d2, w2, h2).disc.vel.x
    ensures d1.pos.y == d2.pos.y && d1.vel.y == d2.vel.y && h1 == h2 ==>
              Updated(d1, w1, h1).disc.pos.y == Updated(d2, w2, h2).disc.pos.y &&
              Updated(d1, w1, h1).disc.vel.y == Updated(d2, w2, h2).disc.vel.y
  {
  }

  /** Away from the walls an update keeps the velocity and moves the disc by it. */
  lemma FreeFlight(d: DiscState, width: int, height: int)
    requires !Hits(d.pos.x, d.vel.x, d.radius, width)
    requires !Hits(d.pos.y, d.vel.y, d.radius, height)
    ensures Updated(d, width, height) ==
              Outcome(d.(pos := Vec2d(d.pos.x + d.vel.x, d.pos.y + d.vel.y)), 0)
  {
  }

  /** A corner hit: both axes bounce in the same update and each fires a pulse. */
  lemma CornerHitFiresTwice()
    ensures exists d: DiscState :: Updated(d, 144, 168).pulses == 2
  {
    var d := DiscState(Vec2d(10.0, 160.0), Vec2d(-10.0, 6.0), 1.0, 22.0);
    assert Updated(d, 144, 168).pulses == 2;
  }

  /** A slow wall hit bounces at half speed without a pulse. */
  lemma SlowHitIsSilent()
    ensures var o := Updated(DiscState(Vec2d(5.0, 50.0), Vec2d(-3.0, 0.0), 1.0, 11.0), 100, 100);
            o.disc.vel == Vec2d(1.5, 0.0) && o.disc.pos == Vec2d(6.5, 50.0) && o.pulses == 0
  {
    assert Hits(5.0, -3.0, 11.0, 100);
  }

  /** One timer tick for one disc: the sample's force first, then the update. */
  function Tick(d: DiscState, accel: AccelData, width: int, height: int): (o: Outcome)
    requires d.mass != 0.0
    ensures o.disc.mass == d.mass && o.disc.radius == d.radius
    ensures o.pulses <= 2
  {
    Updated(Forced(d, AccelForce(accel)), width, height)
  }

  /** Because the sample is applied before the wall test, a disc at rest whose
      edge is past the left wall bounces in the very tick that pushes it
      outward; the update alone would leave it at rest. */
  lemma SampleIsAppliedBeforeBounce(width: int, height: int)
    ensures var d := DiscState(Vec2d(5.0, 50.0), Vec2d(0.0, 0.0), 16.0 * MathPi, 22.0);
            Tick(d, AccelData(-100, 0, 0), width, height).disc.vel.x > 0.0 &&
            Updated(d, width, height).disc.vel.x == 0.0
  {
    var d := DiscState(Vec2d(5.0, 50.0), Vec2d(0.0, 0.0), 16.0 * MathPi, 22.0);
    var pushed := Forced(d, AccelForce(AccelData(-100, 0, 0)));
    assert pushed.vel.x < 0.0;
    assert Hits(pushed.pos.x, pushed.vel.x, pushed.radius, width);
  }

  /** Successive ticks of one disc, one sample per tick. */
  function Run(d: DiscState, samples: seq<AccelData>, width: int, height: int): (o: Outcome)
    requires d.mass != 0.0
    ensures o.disc.mass == d.mass && o.disc.radius == d.radius
    ensures o.pulses <= 2 * |samples|
    decreases |samples|
  {
    if samples == [] then Outcome(d, 0)
    else
      var first := Tick(d, samples[0], width, height);
      var rest := Run(first.disc, samples[1..], width, height);
      Outcome(rest.disc, first.pulses + rest.pulses)
  }

  /** A disc at rest stays where it is, silently, while every sample is zero. */
  lemma {:induction false} RestIsStable(d: DiscState, samples: seq<AccelData>, width: int, height: int)
    requires d.mass != 0.0 && d.vel == Vec2d(0.0, 0.0)
    requires forall k :: 0 <= k < |samples| ==> samples[k] == ZeroAccel
    ensures Run(d, samples, width, height) == Outcome(d, 0)
    decreases |samples|
  {
    if samples != [] {
      ZeroSampleKeepsDisc(d);
      FreeFlight(d, width, height);
      assert Tick(d, samples[0], width, height) == Outcome(d, 0);
      RestIsStable(d, samples[1..], width, height);
    }
  }

  /** Without accelerometer input no axis ever speeds up: bounces only lose speed. */
  lemma {:induction false} SpeedNeverGrowsWithoutInput(d: DiscState, samples: seq<AccelData>, width: int, height: int)
    requires d.mass != 0.0
    requires forall k :: 0 <= k < |samples| ==> samples[k] == ZeroAccel
    ensures Abs(Run(d, samples, width, height).disc.vel.x) <= Abs(d.vel.x)
    ensures Abs(Run(d, samples, width, height).disc.vel.y) <= Abs(d.vel.y)
    decreases |samples|
  {
    if samples != [] {
      ZeroSampleKeepsDisc(d);
      var next := Tick(d, samples[0], width, height).disc;
      BounceLaw(d.pos.x, d.vel.x, d.radius, width);
      BounceLaw(d.pos.y, d.vel.y, d.radius, height);
      assert Abs(next.vel.x) <= Abs(d.vel.x) && Abs(next.vel.y) <= Abs(d.vel.y);
      SpeedNeverGrowsWithoutInput(next, samples[1..], width, height);
    }
  }
}
