/** The 3D simulation: rays (RayPoint) shot at a black hole at the origin, deflected by an
    inverse-square pull whose speed is renormalised to LIGHT_SPEED every update, each
    carrying a fixed-length trail of its recent positions, newest first. */
module BlackHole3D {
  import opened Numerics

  const SIMULATION_G: real := 1.0
  const BH_MASS: real := 13200.0
  const LIGHT_SPEED: real := 50.0
  const EVENT_HORIZON: real := 1.0
  /** Number of samples in every trail. */
  const TRAIL_LENGTH: nat := 1000
  /** The largest frame time step the main loop passes to the rays. */
  const MAX_DELTA_TIME: real := 0.05
  /** Centre of the black hole (the global spherePos, never moved). */
  const SpherePos: Vec3 := Zero3

  // ------------------------------------------------------------------------------------
  // Abstract state of one ray and the specification of its operations

  /** Everything a RayPoint holds apart from its GPU handles. */
  datatype RayState = RayState(
    position: Vec3,
    velocity: Vec3,
    originalPos: Vec3,
    originalVel: Vec3,
    trail: seq<Vec3>,
    finished: bool,
    hasHit: bool)

  /** n copies of p. */
  function Filled(n: nat, p: Vec3): (t: seq<Vec3>)
    ensures |t| == n
    ensures forall i :: 0 <= i < n ==> t[i] == p
  {
    seq(n, _ => p)
  }

  /** The trail after one update: p at the head, every older sample one slot further back,
      and the oldest sample gone. */
  function Shifted(trail: seq<Vec3>, p: Vec3): seq<Vec3>
  {
    if trail == [] then [] else [p] + trail[..|trail| - 1]
  }

  /** The state a RayPoint is constructed in. */
  function Initial(startPos: Vec3, startVel: Vec3): RayState
  {
    RayState(startPos, startVel, startPos, startVel, Filled(TRAIL_LENGTH, startPos), false, false)
  }

  /** The state RayPoint::reset leaves behind. */
  function ResetState(s: RayState): RayState
  {
    s.(position := s.originalPos, velocity := s.originalVel,
       trail := Filled(|s.trail|, s.originalPos), finished := false, hasHit := false)
  }

  /** The ray is closer to the black hole than the event horizon. */
  predicate Captured(m: Libm, position: Vec3)
  {
    Length3(m, Sub3(SpherePos, position)) < EVENT_HORIZON
  }

  /** The velocity after the inverse-square pull of one update, before renormalisation. */
  function Deflected(m: Libm, s: RayState, dt: real): Vec3
    requires !Captured(m, s.position)
  {
    var toCenter := Sub3(SpherePos, s.position);
    var dist := Length3(m, toCenter);
    var dir := Normalize3(m, toCenter);
    SqOfPositive(dist);
    var acceleration := (SIMULATION_G * BH_MASS) / Sq(dist);
    Add3(s.velocity, Scale3(Scale3(dir, acceleration), dt))
  }

  /** The state RayPoint::update(dt) leaves behind. */
  function Step(m: Libm, s: RayState, dt: real): RayState
  {
    if s.finished then s
    else
      var next :=
        if Captured(m, s.position) then s.(hasHit := true)
        else
          var v := Scale3(Normalize3(m, Deflected(m, s, dt)), LIGHT_SPEED);
          s.(velocity := v, position := Add3(s.position, Scale3(v, dt)));
      next.(trail := Shifted(s.trail, next.position))
  }

  /** One update per time step of dts, in order. */
  function Run(m: Libm, s: RayState, dts: seq<real>): RayState
    decreases |dts|
  {
    if dts == [] then s else Run(m, Step(m, s, dts[0]), dts[1..])
  }

  /** The frame time step the main loop passes on: capped at MAX_DELTA_TIME, otherwise
      untouched (there is no lower bound). */
  function ClampDeltaTime(deltaTime: real): (dt: real)
    ensures dt <= MAX_DELTA_TIME
    ensures dt == deltaTime || dt == MAX_DELTA_TIME
    ensures deltaTime <= MAX_DELTA_TIME ==> dt == deltaTime
  {
    if deltaTime > MAX_DELTA_TIME then MAX_DELTA_TIME else deltaTime
  }

  // ------------------------------------------------------------------------------------
  // Properties of the specification

  /** A finished ray is never changed by any number of updates. */
  lemma {:induction false} RunWhenFinished(m: Libm, s: RayState, dts: seq<real>)
    requires s.finished
    ensures Run(m, s, dts) == s
    decreases |dts|
  {
    if dts != [] {
      RunWhenFinished(m, Step(m, s, dts[0]), dts[1..]);
    }
  }

  /** Updates keep the trail length, the original position and velocity and the finished
      flag (which nothing ever sets). */
  lemma {:induction false} RunKeepsShape(m: Libm, s: RayState, dts: seq<real>)
    ensures |Run(m, s, dts).trail| == |s.trail|
    ensures Run(m, s, dts).originalPos == s.originalPos
    ensures Run(m, s, dts).originalVel == s.originalVel
    ensures Run(m, s, dts).finished == s.finished
    decreases |dts|
  {
    if dts != [] {
      RunKeepsShape(m, Step(m, s, dts[0]), dts[1..]);
    }
  }

  /** Shifting a trail keeps its length, puts p at the head and moves every older sample
      one slot back. */
  lemma ShiftedFacts(trail: seq<Vec3>, p: Vec3)
    ensures |Shifted(trail, p)| == |trail|
    ensures |trail| > 0 ==> Shifted(trail, p)[0] == p
    ensures forall i :: 0 < i < |trail| ==> Shifted(trail, p)[i] == trail[i - 1]
  {
  }

  /** One update puts the new position at the head of the trail and moves every older
      sample one slot back, dropping the last one. */
  lemma StepShiftsTrail(m: Libm, s: RayState, dt: real)
    requires !s.finished && |s.trail| > 0
    ensures |Step(m, s, dt).trail| == |s.trail|
    ensures Step(m, s, dt).trail[0] == Step(m, s, dt).position
    ensures forall i :: 0 < i < |s.trail| ==> Step(m, s, dt).trail[i] == s.trail[i - 1]
  {
  }

  /** Inside the event horizon an update only raises hasHit and shifts the unchanged
      position into the trail. */
  lemma StepWhenCaptured(m: Libm, s: RayState, dt: real)
    requires !s.finished && Captured(m, s.position)
    ensures Step(m, s, dt) == s.(hasHit := true, trail := Shifted(s.trail, s.position))
  {
  }

  /** Outside the event horizon the velocity is renormalised to LIGHT_SPEED (unless the pull
      cancelled it exactly) and only then is the position advanced, by the new velocity. */
  lemma StepWhenFree(m: Libm, s: RayState, dt: real)
    requires Lawful(m)
    requires !s.finished && !Captured(m, s.position)
    ensures Step(m, s, dt).hasHit == s.hasHit
    ensures Deflected(m, s, dt) != Zero3 ==>
      Dot3(Step(m, s, dt).velocity, Step(m, s, dt).velocity) == Sq(LIGHT_SPEED)
    ensures Step(m, s, dt).position == Add3(s.position, Scale3(Step(m, s, dt).velocity, dt))
  {
    var d := Deflected(m, s, dt);
    if d != Zero3 {
      var n := Normalize3(m, d);
      NormalizeIsUnit3(m, d);
      DotScale3(n, LIGHT_SPEED);
    }
  }

  /** Capture is sticky: once inside the event horizon, the position and velocity never
      change again, hasHit is raised by the first update, and each update pushes the frozen
      position onto the trail. */
  lemma {:induction false} CaptureIsSticky(m: Libm, s: RayState, dts: seq<real>)
    requires !s.finished && Captured(m, s.position)
    ensures Run(m, s, dts).position == s.position
    ensures Run(m, s, dts).velocity == s.velocity
    ensures Run(m, s, dts).hasHit == (s.hasHit || dts != [])
    ensures |Run(m, s, dts).trail| == |s.trail|
    ensures forall i :: 0 <= i < |s.trail| && i < |dts| ==> Run(m, s, dts).trail[i] == s.position
    ensures forall i :: |dts| <= i < |s.trail| ==> Run(m, s, dts).trail[i] == s.trail[i - |dts|]
    decreases |dts|
  {
    if dts != [] {
      var s' := s.(hasHit := true, trail := Shifted(s.trail, s.position));
      var rest := dts[1..];
      StepWhenCaptured(m, s, dts[0]);
      assert Run(m, s, dts) == Run(m, s', rest);
      CaptureIsSticky(m, s', rest);
      ShiftedFacts(s.trail, s.position);
      var r := Run(m, s', rest);
      forall i | 0 <= i < |s.trail| && i < |dts|
        ensures r.trail[i] == s.position
      {
        if i >= |rest| {
          assert r.trail[i] == s'.trail[i - |rest|];
        }
      }
      forall i | |dts| <= i < |s.trail|
        ensures r.trail[i] == s.trail[i - |dts|]
      {
        assert r.trail[i] == s'.trail[i - |rest|];
      }
    }
  }

  /** reset forgets every update made since construction: resetting after any sequence of
      updates gives back exactly the state the ray was constructed in. */
  lemma ResetRestoresConstruction(m: Libm, startPos: Vec3, startVel: Vec3, dts: seq<real>)
    ensures ResetState(Run(m, Initial(startPos, startVel), dts)) == Initial(startPos, startVel)
  {
    RunKeepsShape(m, Initial(startPos, startVel), dts);
  }

  /** hasHit is raised only inside the event horizon: the flag is a witness of capture. */
  predicate HitInv(m: Libm, s: RayState)
  {
    s.hasHit ==> Captured(m, s.position)
  }

  /** A freshly constructed ray has not hit anything. */
  lemma HitInvInitial(m: Libm, startPos: Vec3, startVel: Vec3)
    ensures HitInv(m, Initial(startPos, startVel))
  {
  }

  /** reset clears hasHit, so the invariant holds after it whatever came before. */
  lemma HitInvReset(m: Libm, s: RayState)
    ensures HitInv(m, ResetState(s))
  {
  }

  /** An update keeps the invariant: it raises hasHit only for a captured ray, whose
      position it does not move, and a ray outside the horizon cannot already carry it. */
  lemma HitInvStep(m: Libm, s: RayState, dt: real)
    requires HitInv(m, s)
    ensures HitInv(m, Step(m, s, dt))
  {
    if !s.finished && Captured(m, s.position) {
      StepWhenCaptured(m, s, dt);
    }
  }

  /** The invariant holds after any number of updates. */
  lemma {:induction false} HitInvRun(m: Libm, s: RayState, dts: seq<real>)
    requires HitInv(m, s)
    ensures HitInv(m, Run(m, s, dts))
    decreases |dts|
  {
    if dts != [] {
      HitInvStep(m, s, dts[0]);
      HitInvRun(m, Step(m, s, dts[0]), dts[1..]);
    }
  }

  /** Every ray that has been constructed and then updated any number of times carries
      hasHit only while inside the event horizon. */
  lemma HitMeansCaptured(m: Libm, startPos: Vec3, startVel: Vec3, dts: seq<real>)
    ensures Run(m, Initial(startPos, startVel), dts).hasHit ==>
      Captured(m, Run(m, Initial(startPos, startVel), dts).position)
  {
    HitInvInitial(m, startPos, startVel);
    HitInvRun(m, Initial(startPos, startVel), dts);
  }

  /** Once hasHit is raised (in a state that keeps the invariant), position and velocity
      never change again and the flag stays raised, whether or not the ray is finished. */
  lemma HitIsSticky(m: Libm, s: RayState, dts: seq<real>)
    requires HitInv(m, s) && s.hasHit
    ensures Run(m, s, dts).position == s.position
    ensures Run(m, s, dts).velocity == s.velocity
    ensures Run(m, s, dts).hasHit
  {
    if s.finished {
      RunWhenFinished(m, s, dts);
    } else {
      CaptureIsSticky(m, s, dts);
    }
  }

  // ------------------------------------------------------------------------------------
  // The ray object

  class RayPoint {
    var position: Vec3
    var velocity: Vec3
    var originalPos: Vec3
    var originalVel: Vec3
    /** The trail, newest sample first; its length never changes. */
    const trail: array<Vec3>
    var finished: bool
    var hasHit: bool

    ghost predicate Valid()
    {
      trail.Length == TRAIL_LENGTH
    }

    ghost function State(): RayState
      reads this, trail
    {
      RayState(position, velocity, originalPos, originalVel, trail[..], finished, hasHit)
    }

    constructor (startPos: Vec3, startVel: Vec3)
      ensures Valid() && fresh(trail)
      ensures position == startPos && velocity == startVel
      ensures originalPos == startPos && originalVel == startVel
      ensures forall i :: 0 <= i < trail.Length ==> trail[i] == startPos
      ensures !finished && !hasHit
      ensures State() == Initial(startPos, startVel)
    {
      position, velocity := startPos, startVel;
      originalPos, originalVel := startPos, startVel;
      trail := new Vec3[TRAIL_LENGTH](_ => startPos);
      finished, hasHit := false, false;
      new;
      assert trail[..] == Filled(TRAIL_LENGTH, startPos);
    }

    /** Restart the ray from its original position and velocity. */
    method Reset()
      requires Valid()
      modifies this, trail
      ensures Valid()
      ensures position == originalPos == old(originalPos)
      ensures velocity == originalVel == old(originalVel)
      ensures forall i :: 0 <= i < trail.Length ==> trail[i] == originalPos
      ensures !finished && !hasHit
      ensures State() == ResetState(old(State()))
    {
      position := originalPos;
      velocity := originalVel;
      var i := 0;
      while i < trail.Length
        invariant 0 <= i <= trail.Length
        invariant forall k :: 0 <= k < i ==> trail[k] == originalPos
        modifies trail
      {
        trail[i] := originalPos;
        i := i + 1;
      }
      finished := false;
      hasHit := false;
      assert trail[..] == Filled(trail.Length, originalPos);
    }

    /** Advance the ray by one frame of length dt. */
    method Update(dt: real, m: Libm)
      requires Valid()
      modifies this`position, this`velocity, this`hasHit, trail
      ensures Valid()
      ensures State() == Step(m, old(State()), dt)
    {
      if finished {
        return;
      }
      ghost var s := State();
      var toCenter := Sub3(SpherePos, position);
      var dist := Length3(m, toCenter);
      if dist < EVENT_HORIZON {
        hasHit := true;
      } else {
        var dir := Normalize3(m, toCenter);
        SqOfPositive(dist);
        var acceleration := (SIMULATION_G * BH_MASS) / Sq(dist);
        velocity := Add3(velocity, Scale3(Scale3(dir, acceleration), dt));
        assert velocity == Deflected(m, s, dt);
        velocity := Scale3(Normalize3(m, velocity), LIGHT_SPEED);
        position := Add3(position, Scale3(velocity, dt));
      }
      ghost var next := Step(m, s, dt);
      assert position == next.position && velocity == next.velocity && hasHit == next.hasHit;
      if !finished {
        ShiftTrail(position);
      }
    }

    /** Move every trail sample one slot back, dropping the oldest, and put p at the head. */
    method ShiftTrail(p: Vec3)
      requires Valid()
      modifies trail
      ensures trail[..] == Shifted(old(trail[..]), p)
    {
      var i := trail.Length - 1;
      while i > 0
        invariant 0 <= i < trail.Length
        invariant forall k :: 0 <= k <= i ==> trail[k] == old(trail[k])
        invariant forall k :: i < k < trail.Length ==> trail[k] == old(trail[k - 1])
      {
        trail[i] := trail[i - 1];
        i := i - 1;
      }
      trail[0] := p;
      assert trail[..] == Shifted(old(trail[..]), p);
    }
  }

  // ------------------------------------------------------------------------------------
  // The main loop's sweeps over all rays

  /** Distinct rays own distinct trails. */
  ghost predicate Independent(rays: seq<RayPoint>)
  {
    forall i, j :: 0 <= i < |rays| && 0 <= j < |rays| && i != j ==>
      rays[i] != rays[j] && rays[i].trail != rays[j].trail
  }

  ghost predicate AllValid(rays: seq<RayPoint>)
    reads set i | 0 <= i < |rays| :: rays[i]
  {
    forall i :: 0 <= i < |rays| ==> rays[i].Valid()
  }

  /** Reset every ray (the R key). */
  method ResetAll(rays: seq<RayPoint>)
    requires Independent(rays) && AllValid(rays)
    modifies set i | 0 <= i < |rays| :: rays[i]
    modifies set i | 0 <= i < |rays| :: rays[i].trail
    ensures AllValid(rays)
    ensures forall i :: 0 <= i < |rays| ==> rays[i].State() == ResetState(old(rays[i].State()))
  {
    var k := 0;
    while k < |rays|
      invariant 0 <= k <= |rays|
      invariant AllValid(rays)
      invariant forall i :: 0 <= i < k ==> rays[i].State() == ResetState(old(rays[i].State()))
      invariant forall i :: k <= i < |rays| ==> rays[i].State() == old(rays[i].State())
    {
      rays[k].Reset();
      k := k + 1;
    }
  }

  /** Update every ray once, each independently of the others. */
  method UpdateAll(rays: seq<RayPoint>, dt: real, m: Libm)
    requires Independent(rays) && AllValid(rays)
    modifies set i | 0 <= i < |rays| :: rays[i]
    modifies set i | 0 <= i < |rays| :: rays[i].trail
    ensures AllValid(rays)
    ensures forall i :: 0 <= i < |rays| ==> rays[i].State() == Step(m, old(rays[i].State()), dt)
  {
    var k := 0;
    while k < |rays|
      invariant 0 <= k <= |rays|
      invariant AllValid(rays)
      invariant forall i :: 0 <= i < k ==> rays[i].State() == Step(m, old(rays[i].State()), dt)
      invariant forall i :: k <= i < |rays| ==> rays[i].State() == old(rays[i].State())
    {
      rays[k].Update(dt, m);
      k := k + 1;
    }
  }

  /** The simulation part of one iteration of the main loop: clamp the frame time, reset
      every ray if the R key is down, then update every ray. */
  method Frame(rays: seq<RayPoint>, deltaTime: real, resetPressed: bool, m: Libm)
    requires Independent(rays) && AllValid(rays)
    modifies set i | 0 <= i < |rays| :: rays[i]
    modifies set i | 0 <= i < |rays| :: rays[i].trail
    ensures AllValid(rays)
    ensures forall i :: 0 <= i < |rays| ==>
      rays[i].State() == Step(m, if resetPressed then ResetState(old(rays[i].State())) else old(rays[i].State()),
                              ClampDeltaTime(deltaTime))
  {
    var dt := ClampDeltaTime(deltaTime);
    if resetPressed {
      ResetAll(rays);
    }
    UpdateAll(rays, dt, m);
  }
}
