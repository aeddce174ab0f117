# Dart mini-game core, modelled in Dafny

This project models the three small state machines of an augmented-reality
dart game:

- **the dart** (`DartComponent`): launched from a position; on striking an
  object that carries a `TargetComponent` (on itself or an ancestor) it
  freezes, starts a despawn timer and snapshots the target's pose; from then
  on every change of the target's position is added to the dart's position as
  a delta, so the dart rides along with the target. Before a strike, target
  changes only refresh the cached pose. The timer counts down each frame and
  destroys the dart when it reaches zero; an object destroyer can destroy it
  at any time;
- **the detector switch** (`TargetPlacerManager`): the selected placer type
  enables the image detector or the plane detector and disables the other;
  a "target found" notification turns the plane detector off (or on for
  `false`);
- **the plane latch** (`ARPlaneUpdater`): each frame a plane at least as large
  as the threshold in both directions publishes its center and then raises the
  shared "found" flag; a `true` found notification destroys the updater.

Every handler is a pure function over immutable records of exact `real`
vectors (`geometry.dfy`); event sequences are folds of those functions, and
the properties are lemmas over the folds. `subscriptions.dfy` models the
`HookEvents` / `UnHookEvents` pairs as C# multicast-delegate invocation lists.

Files: `wrappers.dfy` (`Option`), `geometry.dfy`, `subscriptions.dfy`,
`dart.dfy`, `target_placer.dfy`, `plane_updater.dfy`.

Two consequences of the code are worth calling out:

- the collision handler has no `hit` guard, so every collision with a target
  re-snapshots the target's pose and restarts the despawn timer
  (`Dart.OnCollisionEnter`);
- the found handler of the detector switch sets the plane detector to the
  negation of the flag, so a `false` notification switches the plane detector
  on even while image tracking is selected
  (`TargetPlacer.FoundFalseInImageModeRunsBoth`); "at most one detector runs"
  survives every other notification (`TargetPlacer.AtMostOnePreserved`).

Handlers are delegates: a method bound to one component instance (an
instance id), so several darts or plane updaters can listen to the same cell
and each `-=` removes only its own instance's delegate.

## Model

| member | source | states |
|---|---|---|
| Dart.Launch | Assets/Scripts/Game/Darts/DartComponent.cs:38-55 | A new dart sits at its launch position, not hit, not frozen, not destroyed |
| Dart.FirstTarget | Assets/Scripts/Game/Darts/DartComponent.cs:104-105 | The search yields nothing exactly when no object in the list carries a target, otherwise the target of the first object that does |
| Dart.FindTarget | Assets/Scripts/Game/Darts/DartComponent.cs:104-106 | The struck object's own target wins; otherwise the nearest ancestor carrying one; absent exactly when neither the object nor any ancestor has a target |
| Dart.OnCollisionEnter | Assets/Scripts/Game/Darts/DartComponent.cs:102-120 | No target in the lineage: state unchanged and nobody notified; otherwise frozen, hit, timer set to the cooldown, target position and Euler angles cached, dart position untouched, that target notified, whether or not the dart was already hit |
| Dart.Follow | Assets/Scripts/Game/Darts/DartComponent.cs:131-157 | The cache always ends at the new reading; detached, the value stays; attached, the offset between value and cached reading is preserved |
| Dart.OnTargetChangedPosition | Assets/Scripts/Game/Darts/DartComponent.cs:131-142 | Before a hit only the cached target position changes; after a hit the dart moves by the new position minus the cached one; nothing else changes |
| Dart.OnTargetChangedRotation | Assets/Scripts/Game/Darts/DartComponent.cs:144-157 | Same branching for Euler angles: the cache ends at the new angles, before a hit nothing turns, after a hit the angle delta is applied; position and all else unchanged |
| Dart.Update | Assets/Scripts/Game/Darts/DartComponent.cs:80-90 | Only a hit dart with a positive timer counts down; afterwards it is destroyed exactly when it already was or this frame brings the timer to zero or below, so a frame never clears destruction; nothing else changes |
| Dart.OnDestroyerHit | Assets/Scripts/Game/Darts/DartComponent.cs:126-129 | The dart is destroyed whatever its state, and nothing else changes |
| Dart.HitAndDestroyedAreSticky | Assets/Scripts/Game/Darts/DartComponent.cs:82-157 | No event ever clears the hit flag or revives a destroyed dart |
| Dart.AttachedOffsetIsKept | Assets/Scripts/Game/Darts/DartComponent.cs:139-156 | After a hit, across any events without a new strike, the dart keeps its offset to the target position and its accumulated rotation keeps its offset to the target angles (rigid attachment) |
| Dart.DetachedDartStaysPut | Assets/Scripts/Game/Darts/DartComponent.cs:131-150 | Before a hit, across any events without a strike, the dart neither moves nor turns and stays unhit |
| Dart.FollowAll | Assets/Scripts/Game/Darts/DartComponent.cs:131-142 | A run of readings leaves the cache at the last reading and, detached, leaves the value where it was |
| Dart.FollowTelescopes | Assets/Scripts/Game/Darts/DartComponent.cs:139-141 | After a hit, readings p1..pn move the value by exactly pn minus the cached reading, whatever the intermediate readings |
| Dart.RunOfMoves | Assets/Scripts/Game/Darts/DartComponent.cs:131-142 | A run of target position changes touches only the dart's position channel |
| Dart.StrikeThenMovesCarriesDart | Assets/Scripts/Game/Darts/DartComponent.cs:115-141 | A strike followed by target positions p1..pn moves the dart by pn minus the target position snapshotted at the strike |
| Dart.IdleTimerNeverDespawns | Assets/Scripts/Game/Darts/DartComponent.cs:82-89 | An unhit dart, or one whose timer is zero or below (a cooldown of zero or less), is never changed by frames, so never despawned |
| Dart.DespawnAfterCooldown | Assets/Scripts/Game/Darts/DartComponent.cs:82-90 | A hit dart with running timer T is destroyed by frames exactly when their times add up to at least T; otherwise its timer is T minus that total |
| Dart.CooldownScenario | Assets/Scripts/Game/Darts/DartComponent.cs:82-113 | Struck with a 2 s cooldown, the dart exists after 1.9 s and is destroyed after a further 0.2 s |
| Dart.HookSymmetry | Assets/Scripts/Game/Darts/DartComponent.cs:68-78 | For any dart instance, unhooking after hooking restores every invocation list; while hooked, both of its target handlers listen |
| Subscriptions.Remove | Assets/Scripts/Game/Misc/TargetPlacerManager.cs:36-37 | `-=` of an absent delegate is a no-op; of a present one it removes exactly its last occurrence and keeps the other entries in order |
| Subscriptions.RemoveUndoesAppend | Assets/Scripts/Game/Misc/TargetPlacerManager.cs:30-37 | `-=` right after `+=` of the same handler gives back the list as it was |
| Subscriptions.HookAll | Assets/Scripts/Game/Misc/TargetPlacerManager.cs:28-32 | Hooking appends each cell's hooked delegates at the end of that cell's list, in hooking order; cells without a hook keep their list |
| Subscriptions.UnHookUndoesHook | Assets/Scripts/Game/Misc/TargetPlacerManager.cs:28-38 | An unhook list mirroring its hook list (one handler per cell) restores every invocation list exactly |
| Subscriptions.UnHookAll | Assets/Scripts/Game/Misc/TargetPlacerManager.cs:34-38 | Unhooking gives each cell the list obtained by one `-=` per delegate unhooked from it, in order; cells without an unhook line keep their list |
| Subscriptions.UnHookReleasesOwnHandlers | Assets/Scripts/Game/Misc/TargetPlacerManager.cs:28-38 | An instance whose delegates were not yet registered and are shared by no other instance, unhooking after others hooked in between, leaves each list as it was plus the others' delegates in hooking order, and none of its own delegates listens anywhere |
| Subscriptions.HookRegisters | Assets/Scripts/Game/Misc/TargetPlacerManager.cs:28-32 | After hooking, every hooked delegate is in its cell's invocation list |
| TargetPlacer.OnTargetPlacerChanged | Assets/Scripts/Game/Misc/TargetPlacerManager.cs:40-53 | Image tracking runs only the image detector, plane tracking only the plane detector (exactly one runs); any other value changes nothing |
| TargetPlacer.OnFoundTarget | Assets/Scripts/Game/Misc/TargetPlacerManager.cs:55-58 | The plane detector runs exactly when no target is found; the image detector is untouched |
| TargetPlacer.Start | Assets/Scripts/Game/Misc/TargetPlacerManager.cs:21-26 | At start the selected type is applied once: recognised types leave exactly the matching detector running, others keep the configured flags |
| TargetPlacer.SelectionOverrides | Assets/Scripts/Game/Misc/TargetPlacerManager.cs:40-53 | Selecting a type twice equals selecting it once; a recognised selection overrides any earlier one |
| TargetPlacer.ImageFlagFollowsSelectionOnly | Assets/Scripts/Game/Misc/TargetPlacerManager.cs:40-58 | Without a recognised selection, no notification changes the image detector |
| TargetPlacer.AtMostOnePreserved | Assets/Scripts/Game/Misc/TargetPlacerManager.cs:40-58 | If at most one detector runs, it still does after any notification other than found == false |
| TargetPlacer.FoundFalseInImageModeRunsBoth | Assets/Scripts/Game/Misc/TargetPlacerManager.cs:44-58 | Image tracking followed by found == false leaves both detectors running |
| TargetPlacer.HookSymmetry | Assets/Scripts/Game/Misc/TargetPlacerManager.cs:28-38 | For any manager instance, unhooking after hooking restores every invocation list; while hooked, both of its handlers listen |
| PlaneUpdater.Update | Assets/Scripts/Game/AR/ARPlaneUpdater.cs:52-61 | Writes happen exactly when both sides reach the threshold (inclusive); then center is written before `true`; the cells hold what was written; a set flag stays set |
| PlaneUpdater.OnFoundPlaneTarget | Assets/Scripts/Game/AR/ARPlaneUpdater.cs:41-47 | A `true` notification destroys the updater, a `false` one changes nothing; the shared cells are untouched |
| PlaneUpdater.FoundIsALatch | Assets/Scripts/Game/AR/ARPlaneUpdater.cs:52-61 | After any samples the flag is set exactly when it was set before or some sample was large enough; `false` is never written |
| PlaneUpdater.ThresholdScenario | Assets/Scripts/Game/AR/ARPlaneUpdater.cs:54-60 | Threshold (1,1): samples (0.5,0.5) and (1.0,0.9) write nothing, (1.2,1.1) writes its center then `true` |
| PlaneUpdater.HookSymmetry | Assets/Scripts/Game/AR/ARPlaneUpdater.cs:31-39 | For any updater instance, unhooking after hooking restores every invocation list; while hooked, its found handler listens |
| PlaneUpdater.UpdaterUnHooksAmongOthers | Assets/Scripts/Game/AR/ARPlaneUpdater.cs:31-39 | Updater a, a manager and updater b hook in turn; after a unhooks, the found list is exactly [manager, b] and holds no delegate of a |

## Left out

- Rigidbody physics (the launch impulse, zeroing velocity, gravity, constraints): engine behaviour; the collision only records a `frozen` flag, and the dart's position before a strike is whatever the model was given.
- The launch orientation and the quaternion/Euler conversions: Unity's `eulerAngles` normalisation and quaternion round trip are floating point and opaque.
- Dart.OnTargetChangedRotation: keeps only the sum of the Euler increments applied after a hit, not the dart's resulting orientation, because the orientation depends on Unity's Euler normalisation.
- `Vector3.ProjectOnPlane` and `Debug.DrawLine` in the dart's Update: debug rendering only.
- The `DartPosition` property and `pointToTrack`: read-only accessor, not used by the modelled handlers.
- What `TargetComponent.OnDartCollide` does: the model records only which target was notified.
- The shared reference cells (`Utils.References`) and `EventContainerComponent` are not part of this model: change notifications are explicit handler calls, so equality-gated notification and the timing of HookEvents/UnHookEvents calls are not modelled.
- The target lookup as a player build performs it: in the Unity Editor a missing component comes back as a placeholder that `??` does not treat as null, so the ancestor search would not run there.
- The engine's handling of destroyed objects (deferred destruction, no further callbacks): `destroyed` is a flag, and handlers are not gated by it.
- The AR Foundation managers and the plane: abstracted as two `enabled` flags and a size/center sample.
- Floating-point rounding, NaN and infinities: vectors and times are exact reals.
- `Time.deltaTime` is a parameter; that it is never negative is assumed only by the despawn lemmas.
