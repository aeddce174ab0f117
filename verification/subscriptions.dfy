/** Change-handler registration, as done by the HookEvents / UnHookEvents pairs
    of the game components. Each shared cell keeps a C# multicast-delegate
    invocation list: `+=` appends a delegate, `-=` removes its LAST occurrence,
    keeps the other entries in order, and does nothing when it is absent. */
module Subscriptions {

  /** The shared reference cells the core components listen to. */
  datatype Cell = TargetPosition | TargetRotation | TargetPlacerSelection | FoundTarget

  /** The handler methods of the core components. */
  datatype Method =
    | DartTargetMoved      // DartComponent.OnTargetChangedPosition
    | DartTargetTurned     // DartComponent.OnTargetChangedRotation
    | PlacerModeChanged    // TargetPlacerManager.OnTargetPlacerChanged
    | PlacerFoundTarget    // TargetPlacerManager.OnFoundTarget
    | PlaneFoundTarget     // ARPlaneUpdater.OnFoundPlaneTarget

  /** A delegate: a handler method bound to one component instance. Two
      delegates are equal exactly when instance and method both agree. */
  datatype Handler = Handler(owner: nat, action: Method)

  /** One `cell.Event += handler` line of a HookEvents body. */
  datatype Hook = Hook(cell: Cell, handler: Handler)

  /** The invocation list of every cell. */
  datatype Registry = Registry(
    targetPosition: seq<Handler>,
    targetRotation: seq<Handler>,
    targetPlacerSelection: seq<Handler>,
    foundTarget: seq<Handler>)

  const NoSubscribers := Registry([], [], [], [])

  /** The handlers a change of `c` would invoke, in invocation order. */
  function Listeners(reg: Registry, c: Cell): seq<Handler>
  {
    match c
    case TargetPosition => reg.targetPosition
    case TargetRotation => reg.targetRotation
    case TargetPlacerSelection => reg.targetPlacerSelection
    case FoundTarget => reg.foundTarget
  }

  function SetListeners(reg: Registry, c: Cell, l: seq<Handler>): (r: Registry)
    ensures Listeners(r, c) == l
    ensures forall d :: d != c ==> Listeners(r, d) == Listeners(reg, d)
  {
    match c
    case TargetPosition => reg.(targetPosition := l)
    case TargetRotation => reg.(targetRotation := l)
    case TargetPlacerSelection => reg.(targetPlacerSelection := l)
    case FoundTarget => reg.(foundTarget := l)
  }

  /** Two registries are equal exactly when every cell has the same list. */
  lemma RegistryExtensionality(a: Registry, b: Registry)
    requires forall c :: Listeners(a, c) == Listeners(b, c)
    ensures a == b
  {
    assert Listeners(a, TargetPosition) == Listeners(b, TargetPosition);
    assert Listeners(a, TargetRotation) == Listeners(b, TargetRotation);
    assert Listeners(a, TargetPlacerSelection) == Listeners(b, TargetPlacerSelection);
    assert Listeners(a, FoundTarget) == Listeners(b, FoundTarget);
  }

  /** Position of the last occurrence of `h` in `l`, or -1 when there is none. */
  function LastIndex(l: seq<Handler>, h: Handler): (k: int)
    ensures -1 <= k < |l|
    ensures k == -1 <==> h !in l
    ensures 0 <= k ==> l[k] == h && h !in l[k + 1..]
    ensures forall j :: 0 <= j < |l| && l[j] == h ==> j <= k
    decreases |l|
  {
    if |l| == 0 then -1
    else if l[|l| - 1] == h then |l| - 1
    else
      var k := LastIndex(l[..|l| - 1], h);
      assert l == l[..|l| - 1] + [l[|l| - 1]];
      assert 0 <= k ==> l[k + 1..] == l[..|l| - 1][k + 1..] + [l[|l| - 1]];
      k
  }

  /** `list -= h`: drops the last occurrence of `h` and keeps the order of the
      rest; without `h` the list is unchanged. */
  function Remove(l: seq<Handler>, h: Handler): (r: seq<Handler>)
    ensures h !in l ==> r == l
    ensures h in l ==> r == l[..LastIndex(l, h)] + l[LastIndex(l, h) + 1..]
    decreases |l|
  {
    if |l| == 0 then l
    else
      var init := l[..|l| - 1];
      var last := l[|l| - 1];
      assert l == init + [last];
      if last == h then init
      else
        var k := LastIndex(init, h);
        assert k == LastIndex(l, h);
        assert 0 <= k ==> l[..k] == init[..k] && l[k + 1..] == init[k + 1..] + [last];
        Remove(init, h) + [last]
  }

  /** `-=` undoes `+=`, whatever the list held before. */
  lemma RemoveUndoesAppend(l: seq<Handler>, h: Handler)
    ensures Remove(l + [h], h) == l
  {
  }

  /** Removing a delegate that occurs once takes out exactly that entry. */
  lemma RemoveSingle(a: seq<Handler>, h: Handler, b: seq<Handler>)
    requires h !in a && h !in b
    ensures Remove(a + [h] + b, h) == a + b
  {
    var l := a + [h] + b;
    assert l[|a|] == h;
    var k := LastIndex(l, h);
    assert k >= |a|;
    assert k <= |a| by {
      assert forall j :: |a| < j < |l| ==> l[j] == b[j - |a| - 1];
    }
    assert l[..k] == a && l[k + 1..] == b;
  }

  /** Runs `-=` for each delegate of `hs`, in order. */
  function RemoveAll(l: seq<Handler>, hs: seq<Handler>): seq<Handler>
    decreases |hs|
  {
    if |hs| == 0 then l else RemoveAll(Remove(l, hs[0]), hs[1..])
  }

  /** The delegates a hook list attaches to cell `c`, in hooking order. */
  function HandlersOn(hooks: seq<Hook>, c: Cell): seq<Handler>
    decreases |hooks|
  {
    if |hooks| == 0 then []
    else (if hooks[0].cell == c then [hooks[0].handler] else []) + HandlersOn(hooks[1..], c)
  }

  /** Hooking two lists in a row attaches the first list's delegates, then the second's. */
  lemma {:induction false} HandlersOnAppend(x: seq<Hook>, y: seq<Hook>, c: Cell)
    ensures HandlersOn(x + y, c) == HandlersOn(x, c) + HandlersOn(y, c)
    decreases |x|
  {
    if |x| > 0 {
      assert (x + y)[0] == x[0] && (x + y)[1..] == x[1..] + y;
      HandlersOnAppend(x[1..], y, c);
    } else {
      assert x + y == y;
    }
  }

  /** A delegate that no hook on `c` carries is not attached to `c`. */
  lemma {:induction false} HandlersOnOnlyFromHooks(hooks: seq<Hook>, c: Cell, h: Handler)
    requires forall i :: 0 <= i < |hooks| && hooks[i].cell == c ==> hooks[i].handler != h
    ensures h !in HandlersOn(hooks, c)
    decreases |hooks|
  {
    if |hooks| > 0 {
      assert forall i :: 0 <= i < |hooks| - 1 ==> hooks[1..][i] == hooks[i + 1];
      HandlersOnOnlyFromHooks(hooks[1..], c, h);
    }
  }

  /** A cell no hook touches receives nothing. */
  lemma {:induction false} NoHookNoHandlers(hooks: seq<Hook>, c: Cell)
    requires forall i :: 0 <= i < |hooks| ==> hooks[i].cell != c
    ensures HandlersOn(hooks, c) == []
    decreases |hooks|
  {
    if |hooks| > 0 {
      assert forall i :: 0 <= i < |hooks| - 1 ==> hooks[1..][i] == hooks[i + 1];
      NoHookNoHandlers(hooks[1..], c);
    }
  }

  /** Every hook on `c` contributes its delegate to `c`. */
  lemma {:induction false} HooksReachHandlersOn(hooks: seq<Hook>, k: nat)
    requires k < |hooks|
    ensures hooks[k].handler in HandlersOn(hooks, hooks[k].cell)
    decreases |hooks|
  {
    if k > 0 {
      assert hooks[k] == hooks[1..][k - 1];
      HooksReachHandlersOn(hooks[1..], k - 1);
    }
  }

  /** A hook list that touches every cell at most once. */
  predicate DistinctCells(hooks: seq<Hook>)
  {
    forall i, j :: 0 <= i < j < |hooks| ==> hooks[i].cell != hooks[j].cell
  }

  /** With distinct cells, a cell receives no delegate or exactly one. */
  lemma {:induction false} AtMostOneHandlerPerCell(hooks: seq<Hook>, c: Cell)
    requires DistinctCells(hooks)
    ensures HandlersOn(hooks, c) == [] ||
            exists i :: 0 <= i < |hooks| && hooks[i].cell == c && HandlersOn(hooks, c) == [hooks[i].handler]
    decreases |hooks|
  {
    if |hooks| > 0 {
      var rest := hooks[1..];
      assert DistinctCells(rest) by {
        forall i, j | 0 <= i < j < |rest| ensures rest[i].cell != rest[j].cell {
          assert rest[i] == hooks[i + 1] && rest[j] == hooks[j + 1];
        }
      }
      if hooks[0].cell == c {
        assert forall i :: 0 <= i < |rest| ==> rest[i].cell != c by {
          forall i | 0 <= i < |rest| ensures rest[i].cell != c {
            assert rest[i] == hooks[i + 1];
          }
        }
        NoHookNoHandlers(rest, c);
        assert HandlersOn(hooks, c) == [hooks[0].handler];
      } else {
        AtMostOneHandlerPerCell(rest, c);
        if HandlersOn(rest, c) != [] {
          var i :| 0 <= i < |rest| && rest[i].cell == c && HandlersOn(rest, c) == [rest[i].handler];
          assert rest[i] == hooks[i + 1];
        }
      }
    }
  }

  /** Runs the `+=` lines of a HookEvents body in order: each cell's list gets
      the delegates hooked on it appended at its end, in hooking order. */
  function HookAll(reg: Registry, hooks: seq<Hook>): (r: Registry)
    ensures forall c :: Listeners(r, c) == Listeners(reg, c) + HandlersOn(hooks, c)
    decreases |hooks|
  {
    if |hooks| == 0 then reg
    else
      var c := hooks[0].cell;
      var reg1 := SetListeners(reg, c, Listeners(reg, c) + [hooks[0].handler]);
      var r := HookAll(reg1, hooks[1..]);
      assert forall d :: Listeners(r, d) == Listeners(reg, d) + HandlersOn(hooks, d) by {
        forall d ensures Listeners(r, d) == Listeners(reg, d) + HandlersOn(hooks, d) {
          if d == c {
            assert Listeners(r, d) == Listeners(reg, d) + [hooks[0].handler] + HandlersOn(hooks[1..], d);
          }
        }
      }
      r
  }

  /** Runs the matching `-=` lines of an UnHookEvents body in order: each
      cell's list loses, one `-=` at a time, the delegates unhooked from it;
      cells without an unhook line keep their list. */
  function UnHookAll(reg: Registry, hooks: seq<Hook>): (r: Registry)
    ensures forall c :: Listeners(r, c) == RemoveAll(Listeners(reg, c), HandlersOn(hooks, c))
    decreases |hooks|
  {
    if |hooks| == 0 then reg
    else
      var c := hooks[0].cell;
      var reg1 := SetListeners(reg, c, Remove(Listeners(reg, c), hooks[0].handler));
      var r := UnHookAll(reg1, hooks[1..]);
      assert forall d :: Listeners(r, d) == RemoveAll(Listeners(reg, d), HandlersOn(hooks, d)) by {
        forall d ensures Listeners(r, d) == RemoveAll(Listeners(reg, d), HandlersOn(hooks, d)) {
          var hs := HandlersOn(hooks, d);
          if d == c {
            assert hs == [hooks[0].handler] + HandlersOn(hooks[1..], d);
            assert hs[0] == hooks[0].handler && hs[1..] == HandlersOn(hooks[1..], d);
            assert RemoveAll(Listeners(reg, d), hs) == RemoveAll(Listeners(reg1, d), HandlersOn(hooks[1..], d));
          } else {
            assert hs == HandlersOn(hooks[1..], d);
          }
        }
      }
      r
  }

  /** Unhooking right after hooking one cell's delegates (at most one per
      cell) gives that cell its list back. */
  lemma UnHookUndoesHookOnCell(reg: Registry, hooks: seq<Hook>, c: Cell)
    requires DistinctCells(hooks)
    ensures Listeners(UnHookAll(HookAll(reg, hooks), hooks), c) == Listeners(reg, c)
  {
    var hs := HandlersOn(hooks, c);
    var hooked := HookAll(reg, hooks);
    assert Listeners(hooked, c) == Listeners(reg, c) + hs;
    assert Listeners(UnHookAll(hooked, hooks), c) == RemoveAll(Listeners(hooked, c), hs);
    AtMostOneHandlerPerCell(hooks, c);
    if hs != [] {
      var i :| 0 <= i < |hooks| && hooks[i].cell == c && hs == [hooks[i].handler];
      assert hs[1..] == [];
      RemoveUndoesAppend(Listeners(reg, c), hooks[i].handler);
    }
  }

  /** An UnHookEvents body that mirrors its HookEvents body restores every
      invocation list exactly: nothing stays registered and nothing that was
      registered before is lost. */
  lemma UnHookUndoesHook(reg: Registry, hooks: seq<Hook>)
    requires DistinctCells(hooks)
    ensures UnHookAll(HookAll(reg, hooks), hooks) == reg
  {
    forall c ensures Listeners(UnHookAll(HookAll(reg, hooks), hooks), c) == Listeners(reg, c) {
      UnHookUndoesHookOnCell(reg, hooks, c);
    }
    RegistryExtensionality(UnHookAll(HookAll(reg, hooks), hooks), reg);
  }

  /** One cell of UnHookReleasesOwnHandlers. */
  lemma UnHookReleasesOwnOnCell(reg: Registry, own: seq<Hook>, others: seq<Hook>, c: Cell)
    requires DistinctCells(own)
    requires forall i :: 0 <= i < |own| ==> own[i].handler !in Listeners(reg, own[i].cell)
    requires forall i, j :: 0 <= i < |own| && 0 <= j < |others| ==> own[i].handler != others[j].handler
    ensures Listeners(UnHookAll(HookAll(HookAll(reg, own), others), own), c)
            == Listeners(reg, c) + HandlersOn(others, c)
  {
    var mine := HandlersOn(own, c);
    var theirs := HandlersOn(others, c);
    var ownHooked := HookAll(reg, own);
    var hooked := HookAll(ownHooked, others);
    var released := UnHookAll(hooked, own);
    assert Listeners(ownHooked, c) == Listeners(reg, c) + mine;
    assert Listeners(hooked, c) == Listeners(reg, c) + mine + theirs;
    assert Listeners(released, c) == RemoveAll(Listeners(hooked, c), mine);
    AtMostOneHandlerPerCell(own, c);
    if mine == [] {
      ReleaseNothing(Listeners(reg, c), theirs);
    } else {
      var i :| 0 <= i < |own| && own[i].cell == c && mine == [own[i].handler];
      HandlersOnOnlyFromHooks(others, c, own[i].handler);
      ReleaseOne(Listeners(reg, c), own[i].handler, theirs);
    }
  }

  /** Unhooking nothing from a cell keeps its list. Kept as a separate lemma:
      the same step stated inside UnHookReleasesOwnOnCell is too costly. */
  lemma ReleaseNothing(l: seq<Handler>, t: seq<Handler>)
    ensures RemoveAll(l + [] + t, []) == l + t
  {
  }

  /** Unhooking the one delegate that sits between `l` and `t` leaves `l + t`. */
  lemma ReleaseOne(l: seq<Handler>, h: Handler, t: seq<Handler>)
    requires h !in l && h !in t
    ensures RemoveAll(l + [h] + t, [h]) == l + t
  {
    assert [h][1..] == [];
    RemoveSingle(l, h, t);
  }

  /** A component instance whose delegates were not registered, and which
      others do not share, is fully released by its UnHookEvents body even
      when other instances hooked in between: each list ends up as it was
      plus the others' delegates, in the order they were hooked. */
  lemma UnHookReleasesOwnHandlers(reg: Registry, own: seq<Hook>, others: seq<Hook>)
    requires DistinctCells(own)
    requires forall i :: 0 <= i < |own| ==> own[i].handler !in Listeners(reg, own[i].cell)
    requires forall i, j :: 0 <= i < |own| && 0 <= j < |others| ==> own[i].handler != others[j].handler
    ensures forall c :: Listeners(UnHookAll(HookAll(HookAll(reg, own), others), own), c)
                        == Listeners(reg, c) + HandlersOn(others, c)
    ensures forall i :: 0 <= i < |own| ==>
              own[i].handler !in Listeners(UnHookAll(HookAll(HookAll(reg, own), others), own), own[i].cell)
  {
    forall c ensures Listeners(UnHookAll(HookAll(HookAll(reg, own), others), own), c)
                     == Listeners(reg, c) + HandlersOn(others, c) {
      UnHookReleasesOwnOnCell(reg, own, others, c);
    }
    forall i | 0 <= i < |own|
      ensures own[i].handler !in Listeners(UnHookAll(HookAll(HookAll(reg, own), others), own), own[i].cell)
    {
      HandlersOnOnlyFromHooks(others, own[i].cell, own[i].handler);
    }
  }

  /** After a HookEvents body every hooked delegate is listening on its cell. */
  lemma HookRegisters(reg: Registry, hooks: seq<Hook>, k: nat)
    requires k < |hooks|
    ensures hooks[k].handler in Listeners(HookAll(reg, hooks), hooks[k].cell)
  {
    HooksReachHandlersOn(hooks, k);
  }
}
