/** The mutable side of the disc simulation: each disc is an object whose
    fields the operations update in place, and the timer tick walks the
    array of discs. Every operation is proved against the value-level
    functions of module DiscPhysics. */
module AccelDiscs {
  import opened DiscPhysics

  class Disc {
    var pos: Vec2d
    var vel: Vec2d
    var mass: real
    var radius: real

    /** The object invariant once initialised: the mass can be divided by. */
    ghost predicate Valid()
      reads this
    {
      mass > 0.0
    }

    /** The four fields as one value. */
    function State(): DiscState
      reads this
    {
      DiscState(pos, vel, mass, radius)
    }

    /** A disc in zero-filled static storage, before initialisation. */
    constructor ()
      ensures State() == DiscState(Vec2d(0.0, 0.0), Vec2d(0.0, 0.0), 0.0, 0.0)
    {
      pos := Vec2d(0.0, 0.0);
      vel := Vec2d(0.0, 0.0);
      mass := 0.0;
      radius := 0.0;
    }

    /** Centres the disc in the frame, at rest, with radius 22 and the mass of radius 8. */
    method Init(width: int, height: int)
      modifies this
      ensures Valid()
      ensures State() == InitialState(width, height)
    {
      pos := pos.(x := HalfTowardZero(width) as real);
      pos := pos.(y := HalfTowardZero(height) as real);
      vel := vel.(x := 0.0);
      vel := vel.(y := 0.0);
      radius := 22.0;
      mass := MathPi * 8.0 * 8.0 * DiscDensity;
    }

    /** Adds force / mass to the velocity. */
    method ApplyForce(force: Vec2d)
      requires Valid()
      modifies this
      ensures Valid()
      ensures State() == Forced(old(State()), force)
    {
      vel := vel.(x := vel.x + force.x / mass);
      vel := vel.(y := vel.y + force.y / mass);
    }

    /** Turns an accelerometer sample into a force (Y inverted) and applies it. */
    method ApplyAccel(accel: AccelData)
      requires Valid()
      modifies this
      ensures Valid()
      ensures State() == Forced(old(State()), AccelForce(accel))
    {
      var force := Vec2d(accel.x as real * AccelRatio, -(accel.y as real) * AccelRatio);
      ApplyForce(force);
    }

    /** Bounces each axis off the frame's walls, then moves the disc by its
        new velocity; returns the number of vibration pulses fired. */
    method Update(width: int, height: int) returns (pulses: nat)
      modifies this
      ensures State() == Updated(old(State()), width, height).disc
      ensures pulses == Updated(old(State()), width, height).pulses
    {
      pulses := 0;
      if (pos.x - radius < 0.0 && vel.x < 0.0)
        || (pos.x + radius > width as real && vel.x > 0.0)
      {
        vel := vel.(x := -vel.x * Restitution);
        if vel.x > VibrateFactor || vel.x < -VibrateFactor {
          pulses := pulses + 1;
        }
      }
      if (pos.y - radius < 0.0 && vel.y < 0.0)
        || (pos.y + radius > height as real && vel.y > 0.0)
      {
        vel := vel.(y := -vel.y * Restitution);
        if vel.y > VibrateFactor || vel.y < -VibrateFactor {
          pulses := pulses + 1;
        }
      }
      pos := pos.(x := pos.x + vel.x);
      pos := pos.(y := pos.y + vel.y);
    }
  }

  /** The discs of the array are separate objects, as separate array slots are. */
  ghost predicate Distinct(discs: array<Disc>)
    reads discs
  {
    forall i, j :: 0 <= i < j < discs.Length ==> discs[i] != discs[j]
  }

  ghost predicate AllValid(discs: array<Disc>)
    reads discs, set k | 0 <= k < discs.Length :: discs[k]
  {
    forall k :: 0 <= k < discs.Length ==> discs[k].Valid()
  }

  /** Initialises every disc of the array for a frame of the given size. */
  method InitDiscs(discs: array<Disc>, width: int, height: int)
    modifies set k | 0 <= k < discs.Length :: discs[k]
    ensures AllValid(discs)
    ensures forall k :: 0 <= k < discs.Length ==> discs[k].State() == InitialState(width, height)
  {
    for i := 0 to discs.Length
      invariant forall k :: 0 <= k < i ==>
                  discs[k].Valid() && discs[k].State() == InitialState(width, height)
    {
      discs[i].Init(width, height);
    }
  }

  /** The body of the tick loop for one disc: apply the sample, then update. */
  method TickDisc(disc: Disc, accel: AccelData, width: int, height: int) returns (fired: nat)
    requires disc.Valid()
    modifies disc
    ensures disc.Valid()
    ensures disc.State() == Tick(old(disc.State()), accel, width, height).disc
    ensures fired == Tick(old(disc.State()), accel, width, height).pulses
  {
    disc.ApplyAccel(accel);
    fired := disc.Update(width, height);
  }

  /** The pulses one tick fires over the first `n` discs of the array, in array order. */
  ghost function PulsesOver(discs: array<Disc>, n: nat, accel: AccelData, width: int, height: int): (p: nat)
    requires n <= discs.Length
    requires forall k :: 0 <= k < discs.Length ==> discs[k].mass != 0.0
    reads discs, set k | 0 <= k < discs.Length :: discs[k]
    ensures p <= 2 * n
  {
    if n == 0 then 0
    else PulsesOver(discs, n - 1, accel, width, height) + Tick(discs[n - 1].State(), accel, width, height).pulses
  }

  /** One timer tick: the sample (zero when none could be read) is applied
      to each disc in turn, and each disc is then updated. Returns the
      number of vibration pulses the tick fired. */
  method TimerCallback(discs: array<Disc>, peeked: Option<AccelData>, width: int, height: int)
    returns (pulses: nat)
    requires Distinct(discs) && AllValid(discs)
    modifies set k | 0 <= k < discs.Length :: discs[k]
    ensures AllValid(discs)
    ensures forall k :: 0 <= k < discs.Length ==>
              discs[k].State() == Tick(old(discs[k].State()), Sample(peeked), width, height).disc
    ensures pulses == old(PulsesOver(discs, discs.Length, Sample(peeked), width, height))
  {
    var accel := AccelData(0, 0, 0);
    if peeked.Some? {
      accel := peeked.value;
    }
    assert accel == Sample(peeked);
    pulses := 0;
    var i := 0;
    while i < discs.Length
      invariant 0 <= i <= discs.Length
      invariant forall k :: 0 <= k < discs.Length ==> discs[k].Valid()
      invariant forall k :: 0 <= k < i ==>
                  discs[k].State() == Tick(old(discs[k].State()), accel, width, height).disc
      invariant forall k :: i <= k < discs.Length ==> discs[k].State() == old(discs[k].State())
      invariant pulses == old(PulsesOver(discs, i, accel, width, height))
    {
      var disc := discs[i];
      assert disc.State() == old(disc.State());
      var fired := TickDisc(disc, accel, width, height);
      assert fired == Tick(old(disc.State()), accel, width, height).pulses;
      assert forall k :: 0 <= k < discs.Length && k != i ==> discs[k] != disc;
      assert old(PulsesOver(discs, i + 1, accel, width, height))
          == old(PulsesOver(discs, i, accel, width, height)) + fired;
      pulses := pulses + fired;
      i := i + 1;
    }
  }
}
