/** The dart of the mini-game (DartComponent): after striking a target it
    follows the target's later moves by adding each change of the target's
    position to its own, instead of being re-parented under the target. */
module Dart {
  import opened Wrappers
  import opened Geometry
  import opened Subscriptions

  /** The transform of a target component as read at collision time. */
  datatype TargetPose = TargetPose(id: nat, position: Vec3, eulers: Vec3)

  /** A game object of the scene; `target` is its TargetComponent, if any. */
  datatype SceneNode = SceneNode(target: Option<TargetPose>)

  /** The game object the dart struck and its ancestors, nearest parent first. */
  datatype CollisionBody = CollisionBody(self: SceneNode, ancestors: seq<SceneNode>)

  /** One followed quantity of the target. `value` is what the dart moves by
      the target's deltas, `prev` the last target reading it has seen. */
  datatype Channel = Channel(value: Vec3, prev: Vec3)

  /** State of one dart.
      - position.value: the dart's transform position;
        position.prev: the cached target position (_prevTargetPosition);
      - rotation.value: the sum of the Euler increments added to the dart's
        rotation; rotation.prev: the cached target Euler angles
        (_prevTargetEulers);
      - hit: _hitTarget; timer: _despawnCooldownTime;
      - frozen: the rigidbody has been stopped and locked;
      - destroyed: Destroy has been requested for the dart's game object. */
  datatype DartState = DartState(
    position: Channel,
    rotation: Channel,
    hit: bool,
    timer: real,
    frozen: bool,
    destroyed: bool)

  /** What a collision produces: the next state and the target told about it. */
  datatype CollisionOutcome = CollisionOutcome(next: DartState, notified: Option<nat>)

  /** The distance the dart keeps from the last target reading. */
  function Offset(c: Channel): Vec3
  {
    Sub(c.value, c.prev)
  }

  /** OnStart: the dart is placed at its launch position; every other field has
      its declared initial value. */
  function Launch(origin: Vec3): (s: DartState)
    ensures s.position.value == origin
    ensures !s.hit && !s.frozen && !s.destroyed
  {
    DartState(Channel(origin, Zero), Channel(Zero, Zero), false, 0.0, false, false)
  }

  /** The nearest game object in `nodes` that carries a target. */
  function FirstTarget(nodes: seq<SceneNode>): (r: Option<TargetPose>)
    ensures r.None? <==> forall i :: 0 <= i < |nodes| ==> nodes[i].target.None?
    ensures r.Some? ==> exists i :: 0 <= i < |nodes| && nodes[i].target == r
                           && forall j :: 0 <= j < i ==> nodes[j].target.None?
  {
    if |nodes| == 0 then None
    else if nodes[0].target.Some? then nodes[0].target
    else
      var r := FirstTarget(nodes[1..]);
      assert forall i :: 0 <= i < |nodes| - 1 ==> nodes[1..][i] == nodes[i + 1];
      if r.Some? then
        var i :| 0 <= i < |nodes[1..]| && nodes[1..][i].target == r
                 && forall j :: 0 <= j < i ==> nodes[1..][j].target.None?;
        assert nodes[i + 1].target == r;
        r
      else r
  }

  /** `GetComponent<TargetComponent>() ?? GetComponentInParent<TargetComponent>()`:
      the struck object's own target, otherwise the nearest ancestor's
      (GetComponentInParent starts its search at the object itself). */
  function FindTarget(body: CollisionBody): (r: Option<TargetPose>)
    ensures body.self.target.Some? ==> r == body.self.target
    ensures r.None? <==> body.self.target.None? &&
                         forall i :: 0 <= i < |body.ancestors| ==> body.ancestors[i].target.None?
    ensures r.Some? && body.self.target.None? ==>
              exists i :: 0 <= i < |body.ancestors| && body.ancestors[i].target == r
                 && forall j :: 0 <= j < i ==> body.ancestors[j].target.None?
  {
    match body.self.target
    case Some(t) => Some(t)
    case None =>
      var lineage := [body.self] + body.ancestors;
      var r := FirstTarget(lineage);
      assert forall i :: 0 <= i < |body.ancestors| ==> lineage[i + 1] == body.ancestors[i];
      if r.Some? then
        var i :| 0 <= i < |lineage| && lineage[i].target == r
                 && forall j :: 0 <= j < i ==> lineage[j].target.None?;
        assert i > 0;
        assert forall j :: 0 <= j < i - 1 ==> body.ancestors[j].target.None? by {
          forall j | 0 <= j < i - 1 ensures body.ancestors[j].target.None? {
            assert lineage[j + 1] == body.ancestors[j];
          }
        }
        r
      else r
  }

  /** OnCollisionEnter. A body without a target anywhere in its lineage changes
      nothing. Otherwise the dart is frozen, marked as hit, its despawn timer is
      (re)started from the configured cooldown, the target's pose is
      snapshotted and the target is notified. There is no `hit` guard: every
      target collision does all of this again. */
  function OnCollisionEnter(s: DartState, body: CollisionBody, cooldown: real): (r: CollisionOutcome)
    ensures FindTarget(body).None? ==> r.next == s && r.notified.None?
    ensures FindTarget(body).Some? ==>
              var t := FindTarget(body).value;
              && r.next.hit && r.next.frozen && r.next.timer == cooldown
              && r.next.position == Channel(s.position.value, t.position)
              && r.next.rotation == Channel(s.rotation.value, t.eulers)
              && r.next.destroyed == s.destroyed
              && r.notified == Some(t.id)
  {
    match FindTarget(body)
    case None => CollisionOutcome(s, None)
    case Some(t) =>
      var next := s.(frozen := true, hit := true, timer := cooldown,
                     position := s.position.(prev := t.position),
                     rotation := s.rotation.(prev := t.eulers));
      CollisionOutcome(next, Some(t.id))
  }

  /** The delta rule shared by position and rotation changes: detached, only
      the cached reading is refreshed; attached, the reading's change since
      the cache is added to the value before the cache is refreshed, so the
      offset between value and reading is kept. */
  function Follow(c: Channel, attached: bool, reading: Vec3): (r: Channel)
    ensures r.prev == reading
    ensures !attached ==> r.value == c.value
    ensures attached ==> Offset(r) == Offset(c)
  {
    if !attached then c.(prev := reading)
    else Channel(Add(c.value, Sub(reading, c.prev)), reading)
  }

  /** OnTargetChangedPosition. Before a hit the dart stays put and only the
      cached target position changes; after a hit the dart moves by exactly
      the target's displacement since the cached position. */
  function OnTargetChangedPosition(s: DartState, p: Vec3): (r: DartState)
    ensures r.position.prev == p
    ensures !s.hit ==> r.position.value == s.position.value
    ensures s.hit ==> r.position.value == Add(s.position.value, Sub(p, s.position.prev))
    ensures r == s.(position := r.position)
  {
    s.(position := Follow(s.position, s.hit, p))
  }

  /** OnTargetChangedRotation, with the same branching as the position
      handler. After a hit the Euler delta is added to the dart's rotation;
      only the sum of those increments is kept here. The dart's position is
      never affected. */
  function OnTargetChangedRotation(s: DartState, e: Vec3): (r: DartState)
    ensures r.rotation.prev == e
    ensures !s.hit ==> r.rotation.value == s.rotation.value
    ensures s.hit ==> r.rotation.value == Add(s.rotation.value, Sub(e, s.rotation.prev))
    ensures r == s.(rotation := r.rotation)
  {
    s.(rotation := Follow(s.rotation, s.hit, e))
  }

  /** The despawn part of Update: a running timer of a hit dart counts down by
      the frame time, and the dart is destroyed on the frame that brings the
      timer to zero or below. */
  function Update(s: DartState, dt: real): (r: DartState)
    ensures !(s.hit && s.timer > 0.0) ==> r == s
    ensures s.hit && s.timer > 0.0 ==> r.timer == s.timer - dt
    ensures r.destroyed == (s.destroyed || (s.hit && s.timer > 0.0 && r.timer <= 0.0))
    ensures r == s.(timer := r.timer, destroyed := r.destroyed)
  {
    if s.hit && s.timer > 0.0 then
      var t := s.timer - dt;
      s.(timer := t, destroyed := if t <= 0.0 then true else s.destroyed)
    else s
  }

  /** OnDestroyerHit: destroys the dart whatever its state. */
  function OnDestroyerHit(s: DartState): (r: DartState)
    ensures r.destroyed
    ensures r == s.(destroyed := r.destroyed)
  {
    s.(destroyed := true)
  }

  /** Events the dart reacts to. */
  datatype Event =
    | Collision(body: CollisionBody)
    | TargetMoved(position: Vec3)
    | TargetTurned(eulers: Vec3)
    | Frame(dt: real)
    | DestroyerHit

  function Step(s: DartState, cooldown: real, e: Event): DartState
  {
    match e
    case Collision(body) => OnCollisionEnter(s, body, cooldown).next
    case TargetMoved(p) => OnTargetChangedPosition(s, p)
    case TargetTurned(a) => OnTargetChangedRotation(s, a)
    case Frame(dt) => Update(s, dt)
    case DestroyerHit => OnDestroyerHit(s)
  }

  /** Handles `events` in order. */
  function Run(s: DartState, cooldown: real, events: seq<Event>): DartState
    decreases |events|
  {
    if |events| == 0 then s else Run(Step(s, cooldown, events[0]), cooldown, events[1..])
  }

  /** A collision that finds a target. */
  predicate StrikesTarget(e: Event)
  {
    e.Collision? && FindTarget(e.body).Some?
  }

  predicate NoStrike(events: seq<Event>)
  {
    forall i :: 0 <= i < |events| ==> !StrikesTarget(events[i])
  }

  /** Once hit, a dart stays hit and a destroyed dart stays destroyed. */
  lemma {:induction false} HitAndDestroyedAreSticky(s: DartState, cooldown: real, events: seq<Event>)
    ensures s.hit ==> Run(s, cooldown, events).hit
    ensures s.destroyed ==> Run(s, cooldown, events).destroyed
    decreases |events|
  {
    if |events| > 0 {
      HitAndDestroyedAreSticky(Step(s, cooldown, events[0]), cooldown, events[1..]);
    }
  }

  /** Rigid attachment: after a hit, whatever happens except a new strike, the
      dart keeps the offset from the target's position, and its accumulated
      rotation keeps its offset from the target's Euler angles. */
  lemma {:induction false} AttachedOffsetIsKept(s: DartState, cooldown: real, events: seq<Event>)
    requires s.hit
    requires NoStrike(events)
    ensures Offset(Run(s, cooldown, events).position) == Offset(s.position)
    ensures Offset(Run(s, cooldown, events).rotation) == Offset(s.rotation)
    decreases |events|
  {
    if |events| > 0 {
      var s1 := Step(s, cooldown, events[0]);
      assert !StrikesTarget(events[0]);
      assert Offset(s1.position) == Offset(s.position) && Offset(s1.rotation) == Offset(s.rotation);
      assert NoStrike(events[1..]) by {
        forall i | 0 <= i < |events[1..]| ensures !StrikesTarget(events[1..][i]) {
          assert events[1..][i] == events[i + 1];
        }
      }
      AttachedOffsetIsKept(s1, cooldown, events[1..]);
    }
  }

  /** Before a hit, target moves and turns only refresh the cache: whatever
      happens except a strike, the dart neither moves nor turns. */
  lemma {:induction false} DetachedDartStaysPut(s: DartState, cooldown: real, events: seq<Event>)
    requires !s.hit
    requires NoStrike(events)
    ensures Run(s, cooldown, events).position.value == s.position.value
    ensures Run(s, cooldown, events).rotation.value == s.rotation.value
    ensures !Run(s, cooldown, events).hit
    decreases |events|
  {
    if |events| > 0 {
      var s1 := Step(s, cooldown, events[0]);
      assert !StrikesTarget(events[0]);
      assert s1.position.value == s.position.value && s1.rotation.value == s.rotation.value && !s1.hit;
      assert NoStrike(events[1..]) by {
        forall i | 0 <= i < |events[1..]| ensures !StrikesTarget(events[1..][i]) {
          assert events[1..][i] == events[i + 1];
        }
      }
      DetachedDartStaysPut(s1, cooldown, events[1..]);
    }
  }

  /** Applies a sequence of target readings to one channel. */
  function FollowAll(c: Channel, attached: bool, readings: seq<Vec3>): (r: Channel)
    ensures |readings| > 0 ==> r.prev == readings[|readings| - 1]
    ensures |readings| == 0 ==> r == c
    ensures !attached ==> r.value == c.value
    decreases |readings|
  {
    if |readings| == 0 then c
    else FollowAll(Follow(c, attached, readings[0]), attached, readings[1..])
  }

  /** Telescoping: after a hit, the readings p1..pn move the value by exactly
      pn minus the cached reading, whatever the intermediate readings were. */
  lemma {:induction false} FollowTelescopes(c: Channel, readings: seq<Vec3>)
    requires |readings| > 0
    ensures FollowAll(c, true, readings).value == Add(c.value, Sub(readings[|readings| - 1], c.prev))
    decreases |readings|
  {
    var c1 := Follow(c, true, readings[0]);
    if |readings| > 1 {
      FollowTelescopes(c1, readings[1..]);
    }
  }

  /** A run of target position changes. */
  function Moves(readings: seq<Vec3>): (events: seq<Event>)
    ensures |events| == |readings|
    ensures forall i :: 0 <= i < |readings| ==> events[i] == TargetMoved(readings[i])
  {
    seq(|readings|, i requires 0 <= i < |readings| => TargetMoved(readings[i]))
  }

  /** Target position changes act on the position channel only. */
  lemma {:induction false} RunOfMoves(s: DartState, cooldown: real, readings: seq<Vec3>)
    ensures Run(s, cooldown, Moves(readings)) == s.(position := FollowAll(s.position, s.hit, readings))
    decreases |readings|
  {
    if |readings| > 0 {
      var s1 := Step(s, cooldown, TargetMoved(readings[0]));
      assert Moves(readings)[1..] == Moves(readings[1..]);
      RunOfMoves(s1, cooldown, readings[1..]);
    }
  }

  /** A strike followed by target moves p1..pn carries the dart by exactly
      pn minus the target position snapshotted at the collision. */
  lemma StrikeThenMovesCarriesDart(s: DartState, cooldown: real, body: CollisionBody, readings: seq<Vec3>)
    requires FindTarget(body).Some?
    requires |readings| > 0
    ensures Run(s, cooldown, [Collision(body)] + Moves(readings)).position.value
            == Add(s.position.value, Sub(readings[|readings| - 1], FindTarget(body).value.position))
  {
    var events := [Collision(body)] + Moves(readings);
    var s1 := OnCollisionEnter(s, body, cooldown).next;
    assert events[1..] == Moves(readings);
    assert Run(s, cooldown, events) == Run(s1, cooldown, Moves(readings));
    RunOfMoves(s1, cooldown, readings);
    FollowTelescopes(s1.position, readings);
  }

  /** Total of a sequence of frame times. */
  function Elapsed(dts: seq<real>): real
    decreases |dts|
  {
    if |dts| == 0 then 0.0 else dts[0] + Elapsed(dts[1..])
  }

  /** Frame times are never negative (Time.deltaTime). */
  predicate FrameTimes(dts: seq<real>)
  {
    forall i :: 0 <= i < |dts| ==> dts[i] >= 0.0
  }

  /** Runs the despawn part of Update once per frame time. */
  function Frames(s: DartState, dts: seq<real>): DartState
    decreases |dts|
  {
    if |dts| == 0 then s else Frames(Update(s, dts[0]), dts[1..])
  }

  lemma {:induction false} ElapsedNonNegative(dts: seq<real>)
    requires FrameTimes(dts)
    ensures Elapsed(dts) >= 0.0
    decreases |dts|
  {
    if |dts| > 0 {
      assert FrameTimes(dts[1..]) by {
        forall i | 0 <= i < |dts[1..]| ensures dts[1..][i] >= 0.0 {
          assert dts[1..][i] == dts[i + 1];
        }
      }
      ElapsedNonNegative(dts[1..]);
    }
  }

  /** A dart that is not hit, or whose timer is not running, is never
      destroyed by frames: in particular a cooldown of zero or less means the
      dart is never despawned. */
  lemma {:induction false} IdleTimerNeverDespawns(s: DartState, dts: seq<real>)
    requires !s.hit || s.timer <= 0.0
    ensures Frames(s, dts) == s
    decreases |dts|
  {
    if |dts| > 0 {
      IdleTimerNeverDespawns(Update(s, dts[0]), dts[1..]);
    }
  }

  /** Despawn determinism: a hit dart with a running timer T is destroyed by a
      run of frames exactly when the frames add up to at least T; otherwise
      the timer has counted down by their total. */
  lemma {:induction false} DespawnAfterCooldown(s: DartState, dts: seq<real>)
    requires s.hit && s.timer > 0.0 && !s.destroyed
    requires FrameTimes(dts)
    ensures Frames(s, dts).destroyed <==> Elapsed(dts) >= s.timer
    ensures !Frames(s, dts).destroyed ==> Frames(s, dts).timer == s.timer - Elapsed(dts)
    decreases |dts|
  {
    if |dts| > 0 {
      var s1 := Update(s, dts[0]);
      assert FrameTimes(dts[1..]) by {
        forall i | 0 <= i < |dts[1..]| ensures dts[1..][i] >= 0.0 {
          assert dts[1..][i] == dts[i + 1];
        }
      }
      ElapsedNonNegative(dts[1..]);
      if s1.timer <= 0.0 {
        IdleTimerNeverDespawns(s1, dts[1..]);
      } else {
        DespawnAfterCooldown(s1, dts[1..]);
      }
    }
  }

  /** A dart struck with a 2-second cooldown still exists after 1.9 seconds and
      is destroyed once a further 0.2 seconds have passed. */
  lemma CooldownScenario(origin: Vec3, body: CollisionBody)
    requires FindTarget(body).Some?
    ensures var struck := OnCollisionEnter(Launch(origin), body, 2.0).next;
            && !Frames(struck, [1.9]).destroyed
            && Frames(struck, [1.9, 0.2]).destroyed
  {
  }

  /** The delegates dart instance `id` registers in HookEvents. */
  function DartHooks(id: nat): seq<Hook>
  {
    [ Hook(TargetPosition, Handler(id, DartTargetMoved)),
      Hook(TargetRotation, Handler(id, DartTargetTurned)) ]
  }

  /** UnHookEvents removes exactly what HookEvents added, so enabling and
      disabling a dart leaves every invocation list as it was, while in
      between both of its handlers are listening. */
  lemma HookSymmetry(reg: Registry, id: nat)
    ensures UnHookAll(HookAll(reg, DartHooks(id)), DartHooks(id)) == reg
    ensures Handler(id, DartTargetMoved) in
              Listeners(HookAll(reg, DartHooks(id)), TargetPosition)
    ensures Handler(id, DartTargetTurned) in
              Listeners(HookAll(reg, DartHooks(id)), TargetRotation)
  {
    var hooks := DartHooks(id);
    assert DistinctCells(hooks);
    UnHookUndoesHook(reg, hooks);
    HookRegisters(reg, hooks, 0);
    HookRegisters(reg, hooks, 1);
  }
}
