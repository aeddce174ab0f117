/** TargetPlacerManager: switches between the image detector and the plane
    detector according to the selected placer type, and turns the plane
    detector off once a target has been found. */
module TargetPlacer {
  import Subscriptions

  /** TargetPlacerType. A C# enum variable can hold any value of its
      underlying type; everything but the two listed members is `Unlisted`. */
  datatype PlacerType = ImageTracking | PlaneTracking | Unlisted(code: int)

  /** The `enabled` flags of the ARTrackedImageManager and the ARPlaneManager. */
  datatype Detectors = Detectors(imageEnabled: bool, planeEnabled: bool)

  predicate Recognised(t: PlacerType)
  {
    t.ImageTracking? || t.PlaneTracking?
  }

  /** At most one detector is running. */
  predicate AtMostOne(d: Detectors)
  {
    !(d.imageEnabled && d.planeEnabled)
  }

  /** OnTargetPlacerChanged: a recognised type enables its detector and
      disables the other; the switch has no default case, so any other value
      leaves both flags as they were. */
  function OnTargetPlacerChanged(d: Detectors, t: PlacerType): (r: Detectors)
    ensures Recognised(t) ==> r.imageEnabled != r.planeEnabled
    ensures Recognised(t) ==> (r.imageEnabled <==> t.ImageTracking?)
    ensures Recognised(t) ==> (r.planeEnabled <==> t.PlaneTracking?)
    ensures !Recognised(t) ==> r == d
  {
    match t
    case ImageTracking => Detectors(true, false)
    case PlaneTracking => Detectors(false, true)
    case Unlisted(_) => d
  }

  /** OnFoundTarget: the plane detector runs exactly while no target has been
      found; the image detector is not touched. */
  function OnFoundTarget(d: Detectors, found: bool): (r: Detectors)
    ensures r.planeEnabled != found
    ensures r.imageEnabled == d.imageEnabled
  {
    d.(planeEnabled := !found)
  }

  /** OnStart applies the placer value current at start-up once, to the flags
      the detectors were configured with. */
  function Start(configured: Detectors, t: PlacerType): (r: Detectors)
    ensures Recognised(t) ==> r.imageEnabled != r.planeEnabled && (r.imageEnabled <==> t.ImageTracking?)
    ensures !Recognised(t) ==> r == configured
  {
    OnTargetPlacerChanged(configured, t)
  }

  /** Selecting the same type twice is the same as selecting it once, and a
      recognised selection overrides whatever was selected before. */
  lemma SelectionOverrides(d: Detectors, a: PlacerType, b: PlacerType)
    ensures OnTargetPlacerChanged(OnTargetPlacerChanged(d, a), a) == OnTargetPlacerChanged(d, a)
    ensures Recognised(b) ==>
              OnTargetPlacerChanged(OnTargetPlacerChanged(d, a), b) == OnTargetPlacerChanged(d, b)
  {
  }

  /** Notifications the manager handles. */
  datatype Event = PlacerChanged(placer: PlacerType) | FoundTargetChanged(found: bool)

  function Step(d: Detectors, e: Event): Detectors
  {
    match e
    case PlacerChanged(t) => OnTargetPlacerChanged(d, t)
    case FoundTargetChanged(b) => OnFoundTarget(d, b)
  }

  function Run(d: Detectors, events: seq<Event>): Detectors
    decreases |events|
  {
    if |events| == 0 then d else Run(Step(d, events[0]), events[1..])
  }

  /** Only a recognised placer selection changes the image detector. */
  lemma {:induction false} ImageFlagFollowsSelectionOnly(d: Detectors, events: seq<Event>)
    requires forall i :: 0 <= i < |events| ==> !(events[i].PlacerChanged? && Recognised(events[i].placer))
    ensures Run(d, events).imageEnabled == d.imageEnabled
    decreases |events|
  {
    if |events| > 0 {
      assert forall i :: 0 <= i < |events| - 1 ==> events[1..][i] == events[i + 1];
      ImageFlagFollowsSelectionOnly(Step(d, events[0]), events[1..]);
    }
  }

  /** "At most one detector runs" survives every notification except a
      `found == false` one. */
  lemma AtMostOnePreserved(d: Detectors, e: Event)
    requires AtMostOne(d)
    requires e != FoundTargetChanged(false)
    ensures AtMostOne(Step(d, e))
  {
  }

  /** A `found == false` notification while image tracking is selected turns
      the plane detector on beside the image detector. */
  lemma FoundFalseInImageModeRunsBoth(d: Detectors)
    ensures var r := Run(d, [PlacerChanged(ImageTracking), FoundTargetChanged(false)]);
            r.imageEnabled && r.planeEnabled
  {
  }

  /** The delegates manager instance `id` registers in HookEvents. */
  function PlacerHooks(id: nat): seq<Subscriptions.Hook>
  {
    [ Subscriptions.Hook(Subscriptions.TargetPlacerSelection, Subscriptions.Handler(id, Subscriptions.PlacerModeChanged)),
      Subscriptions.Hook(Subscriptions.FoundTarget, Subscriptions.Handler(id, Subscriptions.PlacerFoundTarget)) ]
  }

  /** UnHookEvents removes exactly what HookEvents added; in between both
      handlers are listening. */
  lemma HookSymmetry(reg: Subscriptions.Registry, id: nat)
    ensures Subscriptions.UnHookAll(Subscriptions.HookAll(reg, PlacerHooks(id)), PlacerHooks(id)) == reg
    ensures Subscriptions.Handler(id, Subscriptions.PlacerModeChanged) in
              Subscriptions.Listeners(Subscriptions.HookAll(reg, PlacerHooks(id)), Subscriptions.TargetPlacerSelection)
    ensures Subscriptions.Handler(id, Subscriptions.PlacerFoundTarget) in
              Subscriptions.Listeners(Subscriptions.HookAll(reg, PlacerHooks(id)), Subscriptions.FoundTarget)
  {
    var hooks := PlacerHooks(id);
    assert Subscriptions.DistinctCells(hooks);
    Subscriptions.UnHookUndoesHook(reg, hooks);
    Subscriptions.HookRegisters(reg, hooks, 0);
    Subscriptions.HookRegisters(reg, hooks, 1);
  }
}
