# Accelerometer discs: the physics step

A Pebble watch app that moves a disc (drawn as a creature sprite) around the
screen. Every 50 ms a timer fires. The tick reads the latest accelerometer
sample, turns it into a force on each disc, bounces the disc off the window
edges with restitution 0.5, fires a short vibration pulse on a hard hit, and
moves the disc by one explicit Euler step. This project models that physics,
from `src/feature_accel_discs.c`, and proves what it does.

Two modules:

- `DiscPhysics` (`disc_physics.dfy`) holds the values: `Vec2d`, `AccelData`,
  the `DiscState` snapshot of a disc, and the constants `MathPi`,
  `DiscDensity`, `AccelRatio`, `VibrateFactor` and `Restitution`. It also holds
  the functions that say what each operation does to a disc: `InitialState`,
  `Forced`, `AccelForce`, `Bounced`, `AxisPulses`, `Updated`, `Tick` and
  `Run`, with the lemmas about them.
- `AccelDiscs` (`accel_discs.dfy`) holds the `Disc` class. Its fields `pos`,
  `vel`, `mass` and `radius` are updated in place, as the C code does through
  a `Disc *`. It also holds the tick over an `array<Disc>`, which stands for
  the static `discs[]` array. Each method is proved to leave the disc in the
  state the matching `DiscPhysics` function gives.

Modelling choices:

- Every C `double` is an exact `real`.
- The window frame's width and height are `int` parameters.
- `frame.size.w/2` is C integer division, which truncates toward zero (`HalfTowardZero`).
- `disc_update` does not call `vibes_short_pulse`; it returns the number of pulses it would fire.
- `accel_service_peek` becomes an `Option<AccelData>` parameter. `None` gives the
  all-zero sample that the callback initialises before peeking.
- Static storage starts zero-filled, so an uninitialised `Disc` has mass 0.
  `Valid()` (mass > 0) holds from `Init` on.

The file has no creature mood state and no rotation, and its vibration
threshold is 2.2. `disc_init` sets radius 22 but mass π·8·8·0.25 = 16π,
which is not `disc_calc_mass` of that radius; `InitMassIsNotFromRadius`
states this.

## Model

| member | source | states |
|---|---|---|
| `DiscPhysics.CalcMassPositive` | src/feature_accel_discs.c:34-37 | the mass π·r²·0.25 is never negative, and it is positive exactly when the radius is non-zero |
| `DiscPhysics.HalfTowardZero` | src/feature_accel_discs.c:42-43 | C's `n/2` on an int: twice the result is within one of `n`, rounding toward zero for either sign |
| `DiscPhysics.InitialState` | src/feature_accel_discs.c:40-48 | initialisation leaves the disc at rest, with radius 22 and positive mass, and centred in the frame to within half a pixel |
| `DiscPhysics.InitMassIsNotFromRadius` | src/feature_accel_discs.c:40-48 | the initial mass is 16π, the mass of radius 8, and it differs from the mass of the initial radius 22 |
| `AccelDiscs.Disc.constructor` | src/feature_accel_discs.c:24 | a disc in zero-filled static storage: every field 0 |
| `AccelDiscs.Disc.Init` | src/feature_accel_discs.c:40-48 | the disc becomes `InitialState(width, height)` and valid (mass > 0) |
| `AccelDiscs.InitDiscs` | src/feature_accel_discs.c:134-136 | every disc of the array is initialised and valid |
| `DiscPhysics.Forced` | src/feature_accel_discs.c:50-54 | applying a force changes only the velocity, and velocity change × mass equals the force on each axis |
| `AccelDiscs.Disc.ApplyForce` | src/feature_accel_discs.c:50-54 | the disc's new state is `Forced` of its old state; it stays valid |
| `DiscPhysics.AccelForce` | src/feature_accel_discs.c:56-62 | the force is one twentieth of the sample with Y negated, and keeps the sign of x and the opposite sign of y; a zero sample gives zero force |
| `DiscPhysics.SampleSteersVelocity` | src/feature_accel_discs.c:56-62 | with positive mass, +x tilt raises vel.x and −x tilt lowers it; +y tilt lowers vel.y and −y tilt raises it (both directions of each) |
| `DiscPhysics.ZeroSampleKeepsDisc` | src/feature_accel_discs.c:110-116 | the all-zero sample the tick falls back to leaves the disc unchanged |
| `AccelDiscs.Disc.ApplyAccel` | src/feature_accel_discs.c:56-62 | the disc's new state is the sample's force applied to its old state |
| `DiscPhysics.BounceLaw` | src/feature_accel_discs.c:69-72 | a disc leaving past the low wall while moving outward comes back moving toward the high side, and vice versa, at exactly half its speed; with no hit the velocity is kept; speed never grows |
| `DiscPhysics.PulseLaw` | src/feature_accel_discs.c:74-76 | an axis fires at most one pulse, and fires one exactly when it bounces with incoming speed above 4.4 (post-bounce speed above 2.2) |
| `DiscPhysics.Updated` | src/feature_accel_discs.c:65-91 | an update keeps mass and radius, sets each axis's velocity to that axis's own wall-test result (`Bounced`), moves the position by that post-bounce velocity, and fires the x-axis pulses plus the y-axis pulses, at most 2 |
| `AccelDiscs.Disc.Update` | src/feature_accel_discs.c:65-91 | the in-place update leaves the disc in `Updated`'s state and returns its pulse count |
| `DiscPhysics.AxesAreIndependent` | src/feature_accel_discs.c:69-86 | the new x position and velocity depend only on the x data, the radius and the width; the same holds for y and the height |
| `DiscPhysics.FreeFlight` | src/feature_accel_discs.c:88-90 | with no wall hit on either axis, the velocity is kept, the position advances by it, and no pulse fires |
| `DiscPhysics.CornerHitFiresTwice` | src/feature_accel_discs.c:69-86 | some disc bounces on both axes in one update and fires two pulses |
| `DiscPhysics.SlowHitIsSilent` | src/feature_accel_discs.c:70-76 | a left-wall hit at speed 3 leaves with speed 1.5 and fires no pulse |
| `DiscPhysics.Tick` | src/feature_accel_discs.c:115-117 | one tick of one disc keeps its mass and radius and fires at most 2 pulses |
| `DiscPhysics.SampleIsAppliedBeforeBounce` | src/feature_accel_discs.c:115-117 | the sample acts before the wall test: a resting disc past the left wall, pushed left, bounces in that same tick, while the update alone would leave it at rest |
| `AccelDiscs.TickDisc` | src/feature_accel_discs.c:115-117 | applying the sample and then updating leaves the disc in `Tick`'s state and returns `Tick`'s pulse count |
| `AccelDiscs.PulsesOver` | src/feature_accel_discs.c:114-118 | the pulses a tick fires over the first n discs are at most 2n |
| `AccelDiscs.TimerCallback` | src/feature_accel_discs.c:109-118 | each disc ends in `Tick` of its old state and the peeked sample (zero if none). The result is the total pulse count over the discs in order. All discs stay valid |
| `DiscPhysics.Run` | src/feature_accel_discs.c:109-122 | successive ticks, one sample each, keep mass and radius and fire at most 2 pulses per tick |
| `DiscPhysics.RestIsStable` | src/feature_accel_discs.c:109-122 | a disc at rest stays where it is, and fires no pulse, over any number of zero-sample ticks |
| `DiscPhysics.SpeedNeverGrowsWithoutInput` | src/feature_accel_discs.c:65-91 | over any number of zero-sample ticks neither axis's speed grows |

## Left out

- Window, layer and bitmap lifecycle (`window_load`, `window_unload`, `init`, `deinit`, `main`): platform plumbing with no physics. The only part kept is the loop in `window_load` that initialises every disc (`InitDiscs`). The window frame is a pair of parameters.
- Drawing (`disc_draw`, `disc_layer_update_callback`), including conversion of positions to integer `GRect`s: rendering only.
- Timer re-arming (`app_timer_register`, the 50 ms period) and `layer_mark_dirty`: scheduling, not logic. Successive ticks are modelled as a sequence of samples (`Run`).
- `accel_service_peek` is an input parameter, and its status code is not modelled. `vibes_short_pulse` is counted, not performed.
- IEEE-754 rounding, infinities, NaN and overflow of `double`: all arithmetic is exact over reals.
- `AccelData`'s `did_vibrate` and `timestamp` fields, and the 16-bit width of accelerometer samples and `GRect` sizes: integers are unbounded.
- `AccelDiscs.Disc.ApplyForce`: requires a positive mass. The C code would divide by zero on an uninitialised disc, but no caller does that, since the discs are initialised before the first tick.
- `AccelDiscs.TimerCallback`: requires the array's `Disc` references to be pairwise distinct. The C array's elements are distinct storage, so this always holds there. `NUM_DISCS` is 1 in the source; the model accepts an array of any length.
