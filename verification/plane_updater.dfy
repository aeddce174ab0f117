/** ARPlaneUpdater: watches a detected plane grow and, once it is at least the
    configured size in both directions, publishes its center and raises the
    shared "target found" flag. */
module PlaneUpdater {
  import opened Geometry
  import Subscriptions
  import TargetPlacer

  /** The shared cells the updater writes (`centerPos`, `foundTarget`) and
      whether the updater's game object has been destroyed. */
  datatype PlaneState = PlaneState(found: bool, center: Vec3, destroyed: bool)

  /** One reading of the ARPlane: its size and its center. */
  datatype Sample = Sample(size: Vec2, center: Vec3)

  /** A write to a shared cell, in the order it is made. */
  datatype Write = CenterWritten(center: Vec3) | FoundWritten(found: bool)

  datatype FrameResult = FrameResult(next: PlaneState, writes: seq<Write>)

  /** The plane is large enough: both sides reach the threshold (inclusive). */
  predicate LargeEnough(size: Vec2, maxSize: Vec2)
  {
    size.x >= maxSize.x && size.y >= maxSize.y
  }

  /** Applies one write to the shared cells. */
  function Apply(st: PlaneState, w: Write): PlaneState
  {
    match w
    case CenterWritten(c) => st.(center := c)
    case FoundWritten(b) => st.(found := b)
  }

  function ApplyAll(st: PlaneState, ws: seq<Write>): PlaneState
    decreases |ws|
  {
    if |ws| == 0 then st else ApplyAll(Apply(st, ws[0]), ws[1..])
  }

  /** Update: on a large-enough sample the center is written first and then
      `true` into the found flag; otherwise nothing is written. The shared
      cells end up holding what was written. */
  function Update(st: PlaneState, sample: Sample, maxSize: Vec2): (r: FrameResult)
    ensures |r.writes| > 0 <==> LargeEnough(sample.size, maxSize)
    ensures |r.writes| > 0 ==> r.writes == [CenterWritten(sample.center), FoundWritten(true)]
    ensures r.next == ApplyAll(st, r.writes)
    ensures LargeEnough(sample.size, maxSize) ==> r.next.found && r.next.center == sample.center
    ensures st.found ==> r.next.found
    ensures r.next.destroyed == st.destroyed
  {
    if LargeEnough(sample.size, maxSize) then
      var writes := [CenterWritten(sample.center), FoundWritten(true)];
      var next := st.(center := sample.center, found := true);
      assert writes[1..] == [FoundWritten(true)];
      assert ApplyAll(st, writes) == ApplyAll(st.(center := sample.center), [FoundWritten(true)]);
      FrameResult(next, writes)
    else
      FrameResult(st, [])
  }

  /** OnFoundPlaneTarget: a `true` notification destroys the updater, a
      `false` one changes nothing. */
  function OnFoundPlaneTarget(st: PlaneState, found: bool): (r: PlaneState)
    ensures found ==> r.destroyed
    ensures !found ==> r == st
    ensures r.found == st.found && r.center == st.center
  {
    if found then st.(destroyed := true) else st
  }

  /** Runs Update once per sample; yields the final cells and every write. */
  function Frames(st: PlaneState, samples: seq<Sample>, maxSize: Vec2): FrameResult
    decreases |samples|
  {
    if |samples| == 0 then FrameResult(st, [])
    else
      var first := Update(st, samples[0], maxSize);
      var rest := Frames(first.next, samples[1..], maxSize);
      FrameResult(rest.next, first.writes + rest.writes)
  }

  /** The latch: after any run of samples the flag is set exactly when it was
      set before or some sample was large enough, and the updater never
      writes `false`. */
  lemma {:induction false} FoundIsALatch(st: PlaneState, samples: seq<Sample>, maxSize: Vec2)
    ensures Frames(st, samples, maxSize).next.found <==>
              st.found || exists i :: 0 <= i < |samples| && LargeEnough(samples[i].size, maxSize)
    ensures forall k :: 0 <= k < |Frames(st, samples, maxSize).writes| ==>
              Frames(st, samples, maxSize).writes[k] != FoundWritten(false)
    decreases |samples|
  {
    if |samples| > 0 {
      var first := Update(st, samples[0], maxSize);
      FoundIsALatch(first.next, samples[1..], maxSize);
      var tail := samples[1..];
      if exists i :: 0 <= i < |tail| && LargeEnough(tail[i].size, maxSize) {
        var i :| 0 <= i < |tail| && LargeEnough(tail[i].size, maxSize);
        assert samples[i + 1] == tail[i];
      }
      if exists i :: 0 <= i < |samples| && LargeEnough(samples[i].size, maxSize) {
        var i :| 0 <= i < |samples| && LargeEnough(samples[i].size, maxSize);
        if i > 0 {
          assert tail[i - 1] == samples[i];
        }
      }
    }
  }

  /** With threshold (1, 1), the samples (0.5, 0.5) and (1.0, 0.9) write
      nothing and (1.2, 1.1) writes its center and then `true`. */
  lemma ThresholdScenario(st: PlaneState, c1: Vec3, c2: Vec3, c3: Vec3)
    requires !st.found
    ensures var maxSize := Vec2(1.0, 1.0);
            var r1 := Update(st, Sample(Vec2(0.5, 0.5), c1), maxSize);
            var r2 := Update(r1.next, Sample(Vec2(1.0, 0.9), c2), maxSize);
            var r3 := Update(r2.next, Sample(Vec2(1.2, 1.1), c3), maxSize);
            && r1.writes == [] && r2.writes == [] && !r2.next.found
            && r3.writes == [CenterWritten(c3), FoundWritten(true)]
            && r3.next.found && r3.next.center == c3
  {
  }

  /** The delegate updater instance `id` registers in HookEvents. */
  function PlaneHooks(id: nat): seq<Subscriptions.Hook>
  {
    [ Subscriptions.Hook(Subscriptions.FoundTarget, Subscriptions.Handler(id, Subscriptions.PlaneFoundTarget)) ]
  }

  /** UnHookEvents removes exactly what HookEvents added. */
  lemma HookSymmetry(reg: Subscriptions.Registry, id: nat)
    ensures Subscriptions.UnHookAll(Subscriptions.HookAll(reg, PlaneHooks(id)), PlaneHooks(id)) == reg
    ensures Subscriptions.Handler(id, Subscriptions.PlaneFoundTarget) in
              Subscriptions.Listeners(Subscriptions.HookAll(reg, PlaneHooks(id)), Subscriptions.FoundTarget)
  {
  }

  /** A manager `m` and then an updater `b` attach, in that order, one
      delegate each to the found flag. */
  lemma FoundListenersOfManagerThenUpdater(m: nat, b: nat)
    ensures Subscriptions.HandlersOn(TargetPlacer.PlacerHooks(m) + PlaneHooks(b), Subscriptions.FoundTarget)
            == [Subscriptions.Handler(m, Subscriptions.PlacerFoundTarget),
                Subscriptions.Handler(b, Subscriptions.PlaneFoundTarget)]
  {
    var placer := TargetPlacer.PlacerHooks(m);
    Subscriptions.HandlersOnAppend(placer, PlaneHooks(b), Subscriptions.FoundTarget);
    assert placer[1..][1..] == [];
    assert PlaneHooks(b)[1..] == [];
  }

  /** One updater per detected plane: updater `a` hooks, then a manager `m`
      and a second updater `b`; when `a` unhooks, the found flag's list holds
      the manager's and `b`'s delegates in their hooking order, and no list
      keeps a delegate of `a`. */
  lemma UpdaterUnHooksAmongOthers(a: nat, m: nat, b: nat)
    requires a != b
    ensures var others := TargetPlacer.PlacerHooks(m) + PlaneHooks(b);
            var r := Subscriptions.UnHookAll(
                       Subscriptions.HookAll(Subscriptions.HookAll(Subscriptions.NoSubscribers, PlaneHooks(a)), others),
                       PlaneHooks(a));
            && Subscriptions.Listeners(r, Subscriptions.FoundTarget)
               == [Subscriptions.Handler(m, Subscriptions.PlacerFoundTarget),
                   Subscriptions.Handler(b, Subscriptions.PlaneFoundTarget)]
            && Subscriptions.Handler(a, Subscriptions.PlaneFoundTarget) !in Subscriptions.Listeners(r, Subscriptions.FoundTarget)
  {
    var own := PlaneHooks(a);
    var others := TargetPlacer.PlacerHooks(m) + PlaneHooks(b);
    assert Subscriptions.DistinctCells(own);
    assert Subscriptions.Listeners(Subscriptions.NoSubscribers, Subscriptions.FoundTarget) == [];
    assert forall j :: 0 <= j < |others| ==> own[0].handler != others[j].handler;
    Subscriptions.UnHookReleasesOwnHandlers(Subscriptions.NoSubscribers, own, others);
    FoundListenersOfManagerThenUpdater(m, b);
  }
}
