/** The device state machine and what its runs guarantee. */
module StateMachine {
  import opened Types

  /** The transition that `set_target_state` performs, or the refusal. */
  function Transition(current: DeviceState, target: DeviceState): Result<DeviceState> {
    match (current, target)
    case (Init, DiscoverySync) => Ok(target)
    case (DiscoverySync, PreOp) => Ok(target)
    case (PreOp, SafeOp) => Ok(target)
    case (SafeOp, PreOp) => Ok(target)
    case (SafeOp, Op) => Ok(target)
    case (SafeOp, Shutdown) => Ok(target)
    case (Op, SafeOp) => Ok(target)
    case (Op, Shutdown) => Ok(target)
    case (Error, Init) => Ok(target)
    case (c, t) =>
      if c == t then Ok(c)
      else if t == Error then Ok(t)
      else Err(ErrStateConflict)
  }

  /** The state after a request, granted or not. */
  function Next(current: DeviceState, target: DeviceState): DeviceState {
    match Transition(current, target)
    case Ok(s) => s
    case Err(_) => current
  }

  /** The operational ladder, one rung above the other; Error and Shutdown stand apart from it. */
  function Rank(s: DeviceState): nat {
    match s
    case Init => 0
    case DiscoverySync => 1
    case PreOp => 2
    case SafeOp => 3
    case Op => 4
    case Error => 10
    case Shutdown => 20
  }

  /**
   What the life cycle grants: to stay, to fail, to climb one rung, to step down one rung from
   Op or SafeOp, to shut down from either, and to restart after a failure.
   */
  predicate Granted(s: DeviceState, t: DeviceState) {
    || t == s
    || t == Error
    || Rank(t) == Rank(s) + 1
    || (s in {SafeOp, Op} && Rank(t) + 1 == Rank(s))
    || (s in {SafeOp, Op} && t == Shutdown)
    || (s == Error && t == Init)
  }

  class DeviceStateManager {
    var state: DeviceState

    constructor ()
      ensures state == Init
    {
      state := Init;
    }

    method SetTargetState(target: DeviceState) returns (r: Result<()>)
      modifies this
      ensures state == Next(old(state), target)
      ensures r.Ok? ==> state == target
      ensures r.Err? ==> state == old(state) != target && r.code == ErrStateConflict
      ensures r.Ok? <==> Granted(old(state), target)
    {
      match Transition(state, target) {
        case Ok(s) =>
          state := s;
          r := Ok(());
        case Err(code) =>
          r := Err(code);
      }
    }
  }

  /** The states a manager goes through under a sequence of requests, from creation on. */
  function Trace(targets: seq<DeviceState>): (tr: seq<DeviceState>)
    ensures |tr| == |targets| + 1
  {
    if targets == [] then [Init]
    else
      var tr := Trace(targets[..|targets| - 1]);
      tr + [Next(tr[|tr| - 1], targets[|targets| - 1])]
  }

  lemma {:induction false} TraceStep(targets: seq<DeviceState>, i: nat)
    requires i < |targets|
    ensures Trace(targets)[0] == Init
    ensures Trace(targets)[i + 1] == Next(Trace(targets)[i], targets[i])
  {
    var front := targets[..|targets| - 1];
    if |targets| > 1 { TraceStep(front, if i < |front| then i else 0); }
  }

  /** In every run a request is followed exactly when the life cycle grants it; a refused one changes nothing. */
  lemma {:induction false} FollowedIffGranted(targets: seq<DeviceState>, i: nat)
    requires i < |targets|
    ensures var tr := Trace(targets);
            && (tr[i + 1] == targets[i] <==> Granted(tr[i], targets[i]))
            && (!Granted(tr[i], targets[i]) ==> tr[i + 1] == tr[i])
  {
    TraceStep(targets, i);
  }

  /** `a` is the latest visit of Init up to `i`. */
  ghost predicate LatestInit(tr: seq<DeviceState>, a: nat, i: nat) {
    && a <= i < |tr|
    && tr[a] == Init
    && forall j :: a < j <= i ==> tr[j] != Init
  }

  /** Since the latest Init the device has been discovered by step `i`. */
  ghost predicate Discovered(tr: seq<DeviceState>, i: nat) {
    exists a: nat, b: nat :: LatestInit(tr, a, i) && a < b <= i && tr[b] == DiscoverySync
  }

  /** Since the latest Init the device has been discovered and then configured by step `i`. */
  ghost predicate Configured(tr: seq<DeviceState>, i: nat) {
    exists a: nat, b: nat, c: nat ::
      LatestInit(tr, a, i) && a < b < c <= i && tr[b] == DiscoverySync && tr[c] == PreOp
  }

  lemma ConfiguredStays(tr: seq<DeviceState>, i: nat)
    requires i + 1 < |tr| && tr[i + 1] != Init && Configured(tr, i)
    ensures Configured(tr, i + 1)
  {
    var a: nat, b: nat, c: nat :|
      LatestInit(tr, a, i) && a < b < c <= i && tr[b] == DiscoverySync && tr[c] == PreOp;
    assert LatestInit(tr, a, i + 1);
  }

  lemma DiscoveredStays(tr: seq<DeviceState>, i: nat)
    requires i + 1 < |tr| && tr[i + 1] != Init && Discovered(tr, i)
    ensures Discovered(tr, i + 1)
    ensures tr[i + 1] == PreOp ==> Configured(tr, i + 1)
  {
    var a: nat, b: nat :| LatestInit(tr, a, i) && a < b <= i && tr[b] == DiscoverySync;
    assert LatestInit(tr, a, i + 1);
  }

  lemma DiscoveredNow(tr: seq<DeviceState>, i: nat)
    requires i + 1 < |tr| && tr[i] == Init && tr[i + 1] == DiscoverySync
    ensures Discovered(tr, i + 1)
  {
    assert LatestInit(tr, i, i + 1);
  }

  lemma {:induction false} Progress(targets: seq<DeviceState>, i: nat)
    requires i <= |targets|
    ensures var tr := Trace(targets);
            && (tr[i] == Init ==> LatestInit(tr, i, i))
            && (tr[i] == DiscoverySync ==> Discovered(tr, i))
            && (tr[i] == PreOp || tr[i] == SafeOp || tr[i] == Op ==> Configured(tr, i))
  {
    var tr := Trace(targets);
    if i == 0 {
      if |targets| > 0 { TraceStep(targets, 0); }
    } else {
      Progress(targets, i - 1);
      TraceStep(targets, i - 1);
      if tr[i] == DiscoverySync {
        if tr[i - 1] == Init { DiscoveredNow(tr, i - 1); } else { DiscoveredStays(tr, i - 1); }
      } else if tr[i] == PreOp && tr[i - 1] == DiscoverySync {
        DiscoveredStays(tr, i - 1);
      } else if tr[i] == PreOp || tr[i] == SafeOp || tr[i] == Op {
        ConfiguredStays(tr, i - 1);
      }
    }
  }

  /**
   In every run each entry into Op comes directly from SafeOp, and since the latest Init the
   device went through DiscoverySync and after it through PreOp.
   */
  lemma {:induction false} OpIsEarned(targets: seq<DeviceState>, i: nat)
    requires i < |targets|
    requires Trace(targets)[i + 1] == Op && Trace(targets)[i] != Op
    ensures var tr := Trace(targets);
            tr[i] == SafeOp && Configured(tr, i)
  {
    TraceStep(targets, i);
    Progress(targets, i);
  }

  /**
   In every run Init is re-entered only from Error, and Shutdown is left only to Error, exactly
   when Error is requested: contrary to the comment above the transition table, Shutdown is not
   terminal.
   */
  lemma {:induction false} EntriesAndExits(targets: seq<DeviceState>, i: nat)
    requires i < |targets|
    ensures var tr := Trace(targets);
            && (tr[i] != Init && tr[i + 1] == Init ==> tr[i] == Error)
            && (tr[i] == Shutdown && tr[i + 1] != Shutdown ==> tr[i + 1] == Error)
            && (tr[i] == Shutdown ==> (tr[i + 1] != Shutdown <==> targets[i] == Error))
            && (tr[i] == Error && tr[i + 1] != Error ==> tr[i + 1] == Init)
            && (tr[i + 1] != tr[i] ==> tr[i + 1] == targets[i])
  {
    TraceStep(targets, i);
  }

  /** A run that reaches Shutdown and leaves it. */
  lemma ShutdownIsLeftExample()
    ensures Trace([DiscoverySync, PreOp, SafeOp, Shutdown, Error]) ==
            [Init, DiscoverySync, PreOp, SafeOp, Shutdown, Error]
  {
    var targets := [DiscoverySync, PreOp, SafeOp, Shutdown, Error];
    assert targets[..4] == [DiscoverySync, PreOp, SafeOp, Shutdown];
    assert targets[..4][..3] == [DiscoverySync, PreOp, SafeOp];
    assert targets[..4][..3][..2] == [DiscoverySync, PreOp];
    assert Trace([]) == [Init];
    assert Trace([DiscoverySync]) == [Init, DiscoverySync];
    assert Trace([DiscoverySync, PreOp]) == [Init, DiscoverySync, PreOp] by {
      assert [DiscoverySync, PreOp][..1] == [DiscoverySync];
    }
    assert Trace([DiscoverySync, PreOp, SafeOp]) == [Init, DiscoverySync, PreOp, SafeOp];
    assert Trace([DiscoverySync, PreOp, SafeOp, Shutdown]) == [Init, DiscoverySync, PreOp, SafeOp, Shutdown];
  }
}
