# Black hole ray simulations, modelled in Dafny

This project models the simulation core of two small black-hole visualisers.

- **The 3D simulation** (`BlackHole3D.cpp`):
  - `RayPoint` objects are pulled towards a black hole at the origin by an inverse-square acceleration.
  - Every update renormalises their speed to `LIGHT_SPEED`.
  - A ray closer than `EVENT_HORIZON` stops moving and raises `hasHit`.
  - Each ray keeps a fixed-length trail of 1000 positions, newest first. Every update shifts it by one slot; `reset` refills it.
  - The main loop clamps the frame time at 0.05. It resets every ray while R is held, then updates every ray.
  - The black-hole sphere's index buffer is built by a nested loop over stacks and slices.
- **The 2D simulation** (`Blackhole2D.cpp`):
  - Rays are integrated in polar coordinates `(r, phi)` along the simplified Schwarzschild null-geodesic equations, with a semi-implicit Euler step of 0.02.
  - A ray's Cartesian positions are appended to a trail of at most 1000 entries, oldest first.
  - `initRays` creates 30 rays at the left edge of the view, all heading in `+x`.
  - Each frame, only rays at or outside the Schwarzschild radius are stepped.

Modules:

- `Numerics`: real vectors and the C math library.
  - `sqrt`, `sin`, `cos` and `atan2` are passed in as the function values of a `Libm`.
  - Only `sqrt` is constrained, by `Lawful`: it returns the non-negative root.
- `BlackHole3D`:
  - a pure specification: `RayState`, `Step`, `ResetState` and `Run`, with lemmas about them;
  - the class `RayPoint`, whose trail is an `array`; its methods are proved to implement that specification;
  - the main loop's sweeps over all rays.
- `SphereMesh`: the index-buffer loop, proved equal to a recursive definition of the mesh.
- `Blackhole2D`:
  - the black hole;
  - the accelerations and `GeodesicStep`;
  - the trail;
  - the class `Ray`, whose trail is a `seq`;
  - `Geodesic`, `InitRays` and the frame loop `Advance`.

Some behaviours of the code are worth stating explicitly, because the model reproduces them exactly:

- **2D capture check.** A 2D ray is skipped only when `r < r_s`. The frame loop steps rays with `r >= r_s` (Blackhole2D.cpp:258), and `Ray::update` returns early only when `r < r_s` (Blackhole2D.cpp:178). A ray exactly on the horizon is still stepped.
- **3D capture.** Nothing in BlackHole3D.cpp ever sets `finished` to true. A captured ray only raises `hasHit`, and then keeps pushing its frozen position onto its trail every frame (`CaptureIsSticky`). `hasHit` is raised only inside the horizon (`HitMeansCaptured`), so once it is raised the ray never moves again (`HitIsSticky`).
- **Frame time.** The frame time is capped only from above (BlackHole3D.cpp:321), so `ClampDeltaTime` has no lower bound.
- **Degenerate rays.** The `Ray` constructor does not check for a zero position or a zero direction. The model makes both non-zero a precondition of the constructor; see "Left out".

## Model

| member | source | states |
|---|---|---|
| BlackHole3D.RayPoint.constructor | BlackHole3D.cpp:149-152 | position and velocity, and their saved originals, come from the arguments; the trail holds 1000 copies of the start position; not finished, not hit |
| BlackHole3D.Filled | BlackHole3D.cpp:152 | the trail `resize` fill gives exactly n samples, each equal to the given position |
| BlackHole3D.RayPoint.Reset | BlackHole3D.cpp:188-193 | position and velocity return to the originals; every trail slot holds the original position; both flags are cleared; nothing else changes |
| BlackHole3D.ResetRestoresConstruction | BlackHole3D.cpp:188-193 | reset after any sequence of updates gives back exactly the state the ray was constructed in |
| BlackHole3D.RayPoint.Update | BlackHole3D.cpp:200-226 | the new state is `Step` of the old one: a finished ray is untouched; inside the horizon only `hasHit` is raised; otherwise the ray is deflected, renormalised and advanced; the trail is shifted one slot with the new position at its head |
| BlackHole3D.StepWhenFree | BlackHole3D.cpp:211-217 | outside the horizon the new speed is exactly `LIGHT_SPEED` (unless the pull cancels the velocity exactly), the position moves by the new velocity times dt, and `hasHit` is unchanged |
| BlackHole3D.StepWhenCaptured | BlackHole3D.cpp:207-209 | inside the horizon an update leaves position and velocity alone, raises `hasHit` and shifts the unchanged position into the trail |
| BlackHole3D.StepShiftsTrail | BlackHole3D.cpp:221-226 | an update keeps the trail length, puts the new position at slot 0 and moves every other sample one slot back |
| BlackHole3D.CaptureIsSticky | BlackHole3D.cpp:204-226 | once captured, position and velocity never change again; `hasHit` is raised by the first update; after k updates the first k slots hold the frozen position and the rest are the old trail shifted by k |
| BlackHole3D.HitInvInitial | BlackHole3D.cpp:146-152 | a newly constructed ray carries no `hasHit`, so the flag is a witness of capture from the start |
| BlackHole3D.HitInvReset | BlackHole3D.cpp:188-193 | reset clears `hasHit`, so the flag is again a witness of capture |
| BlackHole3D.HitInvStep | BlackHole3D.cpp:204-217 | an update raises `hasHit` only inside the horizon and does not move a ray that carries it, so "`hasHit` implies inside the horizon" is preserved |
| BlackHole3D.HitInvRun | BlackHole3D.cpp:200-226 | the same invariant holds after any number of updates |
| BlackHole3D.HitMeansCaptured | BlackHole3D.cpp:200-226 | in every state reachable from construction by updates, a ray with `hasHit` is inside the event horizon |
| BlackHole3D.HitIsSticky | BlackHole3D.cpp:200-226 | once `hasHit` is raised, later updates never change position or velocity and the flag stays raised |
| BlackHole3D.RunWhenFinished | BlackHole3D.cpp:201 | a finished ray is unchanged by any number of updates |
| BlackHole3D.RayPoint.ShiftTrail | BlackHole3D.cpp:221-226 | the backward copy loop leaves the old trail shifted one slot back, the oldest sample dropped and the given position at the head |
| BlackHole3D.RunKeepsShape | BlackHole3D.cpp:200-231 | updates never change the trail length, the saved originals or the finished flag |
| BlackHole3D.ClampDeltaTime | BlackHole3D.cpp:321 | the frame time passed on is at most 0.05; it is the measured time when that is at most 0.05, and 0.05 otherwise |
| BlackHole3D.ResetAll | BlackHole3D.cpp:324-326 | every ray of the collection is reset, independently of the others |
| BlackHole3D.UpdateAll | BlackHole3D.cpp:359-362 | every ray of the collection takes exactly one `Step` with the same dt, independently of the others |
| BlackHole3D.Frame | BlackHole3D.cpp:321-360 | each ray ends up as one `Step`, with the clamped frame time, of its state, which is reset first when R is pressed |
| Numerics.NormalizeIsUnit3 | BlackHole3D.cpp:212-216 | `glm::normalize` of a non-zero vector has unit length |
| Numerics.LengthFacts3 | BlackHole3D.cpp:205 | the length is non-negative, squares to the dot product and is zero only for the zero vector |
| SphereMesh.BuildIndices | BlackHole3D.cpp:107-114 | the loop produces exactly the mesh definition: two triangles `(a, b, a+1)` and `(b, b+1, a+1)` per grid cell, row by row, 6 * stacks * slices indices in total, each a vertex of the (stacks+1) x (slices+1) grid |
| SphereMesh.MeshShape | BlackHole3D.cpp:107-115 | the mesh has 6 * rows * slices indices, each naming one of the (rows+1) * (slices+1) grid vertices |
| SphereMesh.RowShape | BlackHole3D.cpp:108-113 | a row of cells has 6 indices per cell, all within grid rows i and i+1 |
| Blackhole2D.WithRadius | Blackhole2D.cpp:94 | the radius constructor keeps the position, takes the radius as the horizon radius and sets the mass to 1 |
| Blackhole2D.WithMass | Blackhole2D.cpp:96-98 | the mass constructor sets the horizon radius to 2m / 1000, which is positive for a positive mass |
| Blackhole2D.SchwarzschildRadiusOfConstructors | Blackhole2D.cpp:126 | the getter returns the radius each constructor set up; the main program's black hole has radius 0.2 and mass 1 |
| Blackhole2D.RadialAccelFlat | Blackhole2D.cpp:202-203 | with no black hole the radial acceleration is the centrifugal `r * dphi^2` of straight-line motion |
| Blackhole2D.RadialAccelTurningPoint | Blackhole2D.cpp:202-203 | at a turning point (dr == 0) the radial acceleration is `dphi^2 * (r - r_s)` |
| Blackhole2D.AngularAccel | Blackhole2D.cpp:206 | the angular acceleration is exactly the one that keeps the angular momentum `r^2 * dphi` constant: `2 r dr dphi + r^2 d2phi == 0` |
| Blackhole2D.GeodesicIsSemiImplicit | Blackhole2D.cpp:208-214 | the velocities advance first; the position then moves by the updated velocity, i.e. by the old velocity plus the acceleration times h^2 |
| Blackhole2D.RadialRayStaysRadial | Blackhole2D.cpp:206-214 | a purely radial ray keeps its angle and stays radial |
| Blackhole2D.Geodesic | Blackhole2D.cpp:194-215 | the ray's polar state becomes `GeodesicStep` of the old one (nothing happens for r <= 0); the trail is not touched |
| Blackhole2D.PolarOfCartesian | Blackhole2D.cpp:145-146 | the radial part `(p.d)/r` and angular part `(p x d)/r^2` form the polar velocity of d: they have the speed of d and convert back to d |
| Blackhole2D.Ray.constructor | Blackhole2D.cpp:137-156 | r is the length of pos and phi its `atan2`; the velocity is `PolarVelocity`; the trail holds pos alone |
| Blackhole2D.InitialSpeed | Blackhole2D.cpp:143-153 | after the "normalisation" the squared speed `dr^2 + r^2 dphi^2` is `1 / \|dir\|^2` |
| Blackhole2D.InitialDirection | Blackhole2D.cpp:142-153 | the initial polar velocity converts back to the Cartesian velocity `dir / \|dir\|^2`, so the ray heads along dir |
| Blackhole2D.Ray.Update | Blackhole2D.cpp:177-188 | inside the horizon (r < r_s) the trail is unchanged; otherwise the current Cartesian position is appended, and past 1000 entries the oldest is dropped |
| Blackhole2D.Pushed | Blackhole2D.cpp:183-187 | appending to a trail of at most 1000 entries gives between 1 and 1000 entries, ending with the new point |
| Blackhole2D.TrailIsRecentHistory | Blackhole2D.cpp:183-187 | after any number of appends the trail is exactly the most recent 1000 points of its whole history, oldest first |
| Blackhole2D.FrameStepFacts | Blackhole2D.cpp:257-261 | a frame keeps the trail between 1 and 1000 entries and leaves a ray inside the horizon completely unchanged |
| Blackhole2D.Advance | Blackhole2D.cpp:257-261 | every ray ends up as `FrameStep` of its old state: a geodesic step followed by `update` when `r >= r_s`, otherwise untouched |
| Blackhole2D.StartPositions | Blackhole2D.cpp:222-226 | the start heights run from -0.9 to 0.9 in 29 equal steps, and no start position is the origin |
| Blackhole2D.StartDirectionIsUnit | Blackhole2D.cpp:227 | every ray's direction, the normalised `(1, 0)`, has unit length |
| Blackhole2D.StartRaysMoveRight | Blackhole2D.cpp:225-227 | every ray `initRays` creates starts with unit speed, heading along the start direction |
| Blackhole2D.InitRays | Blackhole2D.cpp:218-229 | exactly 30 fresh, distinct, valid rays; ray i starts at start position i with the constructor's polar state and a one-point trail |

## Left out

- Rendering is not modelled: OpenGL and GLFW calls, shaders, buffer uploads, `draw` methods, the window, camera and mouse callbacks, and the grid.
- The sphere's vertex positions are trigonometric and are not modelled; only its index buffer is.
- `Ton618.cpp` and `Calculus.h` are not part of this model.
- Floating point is modelled as exact reals: `float` and `double` rounding, overflow, infinities and NaN are all absent.
  - The `(float)` casts of `getSchwarzschildRadius` and of the frame time are the identity here.
  - The 0.02, 0.05 and 2m/1000 constants are exact decimals.
- `sqrt`, `sin`, `cos` and `atan2` are arguments. Only the defining property of `sqrt` is assumed, so nothing is proved that depends on trigonometry.
- The clock (`glfwGetTime`) and the R key are parameters: `Frame` takes the measured frame time and whether R is pressed; `InitRays` takes the window size.
- Numerics.Normalize3: for the zero vector `glm::normalize` divides by zero (NaN). The model returns the zero vector, so `StepWhenFree` states unit speed only when the deflected velocity is non-zero.
- Blackhole2D.GeodesicStep: at `r == r_s > 0` the source divides by zero and produces infinities or NaN. Reals cannot represent that, so `Geodesic`, `FrameStep` and `Advance` require every ray that would be stepped to have `r != r_s`.
- Blackhole2D.Ray.constructor: with a zero position or a zero direction the source produces NaN. The model requires both to be non-zero. `StartPositions` and `StartDirectionIsUnit` show that `initRays` meets this requirement.
- Blackhole2D.StartPosition: with a zero window height the aspect ratio divides by zero; the model requires a non-zero height.
- SphereMesh.BuildIndices: the index arithmetic uses C `int`. The model uses unbounded integers, so overflow for huge grids (not reachable with the 30 x 30 sphere) is not modelled.
- Multi-frame behaviour of the 2D simulation is stated per frame (`Advance`, `FrameStepFacts`) and for the trail (`TrailIsRecentHistory`), not as a fold over many frames. A fold would need every intermediate radius to stay off `r_s`, which cannot be shown in general.
- The 2D main loop's restart on R, which simply calls `initRays` again, is not modelled as a separate operation; `InitRays` covers what it produces.
- The GPU copy of each 3D trail (`glBufferSubData`) is not modelled; it mirrors the `trail` array that is modelled.
