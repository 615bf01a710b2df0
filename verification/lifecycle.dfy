/** The order in which servo initialisation acquires its fifteen resources,
    the goto chain that releases them when a step fails, and the order of
    deinitialisation. Resources are names; acquiring and releasing them
    (mutexes, conditions, threads, transport subscriptions, memory) is not
    modelled beyond the order of the actions. */
module Lifecycle {

  datatype Resource =
    | NetRef            // the transport reference taken with il_net__retain
    | Dict              // the optional dictionary
    | UnitsLock
    | SwLock
    | SwChanged         // statusword change condition
    | SwSubscription    // statusword subscription on the transport
    | StateSubsArray
    | StateSubsLock
    | StateMonitor      // state monitor thread
    | EmcyLock
    | EmcyNotEmpty      // emergency queue condition
    | EmcySubscription  // emergency subscription on the transport
    | EmcySubsArray
    | EmcySubsLock
    | EmcyMonitor       // emergency monitor thread

  /** Acquisition order of il_servo_base__init. */
  const Steps: seq<Resource> := [
    NetRef, Dict, UnitsLock, SwLock, SwChanged, SwSubscription,
    StateSubsArray, StateSubsLock, StateMonitor, EmcyLock, EmcyNotEmpty,
    EmcySubscription, EmcySubsArray, EmcySubsLock, EmcyMonitor]

  /** A monitor is stopped (stop flag) and then joined; everything else is
      released. */
  datatype Action = Release(res: Resource) | Stop(res: Resource) | Join(res: Resource)

  predicate IsMonitor(res: Resource)
  {
    res == StateMonitor || res == EmcyMonitor
  }

  /** What tearing down one resource does; the dictionary is destroyed only
      when one is loaded. */
  function Undo(res: Resource, dictLoaded: bool): (a: seq<Action>)
    ensures IsMonitor(res) ==> a == [Stop(res), Join(res)]
    ensures res == Dict && !dictLoaded ==> a == []
    ensures !IsMonitor(res) && (res != Dict || dictLoaded) ==> a == [Release(res)]
  {
    if IsMonitor(res) then [Stop(res), Join(res)]
    else if res == Dict && !dictLoaded then []
    else [Release(res)]
  }

  /** The reference teardown of an acquired prefix: the last acquired
      resource first. */
  function Teardown(acquired: seq<Resource>, dictLoaded: bool): seq<Action>
  {
    if acquired == [] then []
    else Undo(acquired[|acquired| - 1], dictLoaded) + Teardown(acquired[..|acquired| - 1], dictLoaded)
  }

  /** The cleanup labels after `return 0`, in the order they appear; each
      falls through to the next. */
  const Labels: seq<Resource> := [
    EmcySubsLock, EmcySubsArray, EmcySubscription, EmcyNotEmpty, EmcyLock,
    StateMonitor, StateSubsLock, StateSubsArray, SwSubscription, SwChanged,
    SwLock, UnitsLock, Dict, NetRef]

  /** The label each failing step jumps to, as the gotos say. The transport
      reference cannot fail. */
  function FailTarget(failed: Resource): (target: Resource)
    requires failed != NetRef
    ensures target in Labels
  {
    match failed
    case Dict => NetRef
    case UnitsLock => Dict
    case SwLock => UnitsLock
    case SwChanged => SwLock
    case SwSubscription => SwChanged
    case StateSubsArray => SwSubscription
    case StateSubsLock => StateSubsArray
    case StateMonitor => StateSubsLock
    case EmcyLock => StateMonitor
    case EmcyNotEmpty => EmcyLock
    case EmcySubscription => EmcyNotEmpty
    case EmcySubsArray => EmcySubscription
    case EmcySubsLock => EmcySubsArray
    case EmcyMonitor => EmcySubsLock
  }

  /** Position of a label in the cleanup chain. */
  function LabelIndex(res: Resource): (i: nat)
    requires res in Labels
    ensures i < |Labels| && Labels[i] == res
  {
    match res
    case EmcySubsLock => 0
    case EmcySubsArray => 1
    case EmcySubscription => 2
    case EmcyNotEmpty => 3
    case EmcyLock => 4
    case StateMonitor => 5
    case StateSubsLock => 6
    case StateSubsArray => 7
    case SwSubscription => 8
    case SwChanged => 9
    case SwLock => 10
    case UnitsLock => 11
    case Dict => 12
    case NetRef => 13
  }

  /** Running the labels from one onwards, falling through to the end. */
  function Chain(labels: seq<Resource>, dictLoaded: bool): seq<Action>
  {
    if labels == [] then [] else Undo(labels[0], dictLoaded) + Chain(labels[1..], dictLoaded)
  }

  /** Whether a step can fail: the transport reference never does, and the
      dictionary only when one is to be loaded. */
  predicate CanFail(step: Resource, dictGiven: bool)
  {
    step != NetRef && (step == Dict ==> dictGiven)
  }

  /** The actions of a failed il_servo_base__init: jump to the failing
      step's label and fall through. A failed dictionary load leaves no
      dictionary to destroy. */
  function Rollback(failed: Resource, dictGiven: bool): (a: seq<Action>)
    requires CanFail(failed, dictGiven)
    ensures |a| > 0 && a[|a| - 1] == Release(NetRef)
  {
    ChainEndsWithNet(Labels[LabelIndex(FailTarget(failed))..], dictGiven && failed != Dict);
    Chain(Labels[LabelIndex(FailTarget(failed))..], dictGiven && failed != Dict)
  }

  lemma {:induction false} ChainEndsWithNet(labels: seq<Resource>, dictLoaded: bool)
    requires labels != [] && labels[|labels| - 1] == NetRef
    ensures var a := Chain(labels, dictLoaded); |a| > 0 && a[|a| - 1] == Release(NetRef)
    decreases |labels|
  {
    if |labels| > 1 {
      ChainEndsWithNet(labels[1..], dictLoaded);
    }
  }

  /** A chain of labels that lists a prefix backwards runs the teardown
      of that prefix. */
  lemma {:induction false} ChainMirrorsTeardown(labels: seq<Resource>, acquired: seq<Resource>, dictLoaded: bool)
    requires |labels| == |acquired|
    requires forall i :: 0 <= i < |labels| ==> labels[i] == acquired[|acquired| - 1 - i]
    ensures Chain(labels, dictLoaded) == Teardown(acquired, dictLoaded)
    decreases |labels|
  {
    if labels != [] {
      var n := |acquired|;
      assert labels[0] == acquired[n - 1];
      ChainMirrorsTeardown(labels[1..], acquired[..n - 1], dictLoaded);
    }
  }

  lemma {:induction false} ChainAppend(a: seq<Resource>, b: seq<Resource>, dictLoaded: bool)
    ensures Chain(a + b, dictLoaded) == Chain(a, dictLoaded) + Chain(b, dictLoaded)
    decreases |a|
  {
    if a == [] {
      assert a + b == b;
    } else {
      assert (a + b)[0] == a[0];
      assert (a + b)[1..] == a[1..] + b;
      ChainAppend(a[1..], b, dictLoaded);
    }
  }

  /** Only resources on the chain are released. */
  lemma {:induction false} ChainReleasesOnly(labels: seq<Resource>, dictLoaded: bool, res: Resource)
    requires res !in labels
    ensures Release(res) !in Chain(labels, dictLoaded)
    decreases |labels|
  {
    if labels != [] {
      assert labels[0] != res;
      assert res !in labels[1..];
      ChainReleasesOnly(labels[1..], dictLoaded, res);
    }
  }

  /** A failure at step k releases exactly the resources acquired before
      it, last acquired first, each monitor stopped and then joined. */
  lemma RollbackReleasesPrefix(k: nat, dictGiven: bool)
    requires 1 <= k < |Steps| && CanFail(Steps[k], dictGiven)
    ensures Rollback(Steps[k], dictGiven) == Teardown(Steps[..k], dictGiven && k != 1)
  {
    TargetPrecedesFailure(k);
    LabelsMirrorSteps();
    var from := Labels[|Steps| - 1 - k..];
    assert forall i :: 0 <= i < |from| ==> from[i] == Labels[|Steps| - 1 - k + i];
    ChainMirrorsTeardown(from, Steps[..k], dictGiven && k != 1);
  }

  /** Each goto targets the label of the step acquired just before. */
  lemma TargetPrecedesFailure(k: nat)
    requires 1 <= k < |Steps|
    ensures FailTarget(Steps[k]) == Steps[k - 1]
    ensures LabelIndex(FailTarget(Steps[k])) == |Steps| - 1 - k
  {
    if k < 4 {
    } else if k < 8 {
    } else if k < 12 {
    } else {
    }
  }

  /** The cleanup labels list the steps before the last one backwards. */
  lemma LabelsMirrorSteps()
    ensures |Labels| == |Steps| - 1
    ensures forall i :: 0 <= i < |Labels| ==> Labels[i] == Steps[|Labels| - 1 - i]
  {
    forall i | 0 <= i < |Labels|
      ensures Labels[i] == Steps[|Labels| - 1 - i]
    {
      if i < 4 {
      } else if i < 8 {
      } else if i < 11 {
      } else {
      }
    }
  }

  /** The resources il_servo_base__deinit tears down, in the order
      written: each monitor is stopped and joined, the rest released, the
      dictionary only when loaded. */
  const DeinitOrder: seq<Resource> := [
    EmcyMonitor, EmcySubsLock, EmcySubsArray, EmcySubscription, EmcyNotEmpty,
    EmcyLock, StateMonitor, StateSubsLock, StateSubsArray, SwSubscription,
    SwChanged, SwLock, UnitsLock, Dict]

  function Deinit(dictLoaded: bool): (a: seq<Action>)
    ensures Release(NetRef) !in a
  {
    ChainReleasesOnly(DeinitOrder, dictLoaded, NetRef);
    Chain(DeinitOrder, dictLoaded)
  }

  /** Deinitialisation tears down every step after the transport reference
      in reverse order, but never releases that reference, unlike the
      rollback of a failed initialisation, which always ends with it. */
  lemma DeinitSkipsNetRef(dictLoaded: bool)
    ensures Deinit(dictLoaded) == Teardown(Steps[1..], dictLoaded)
    ensures Teardown(Steps, dictLoaded) == Deinit(dictLoaded) + [Release(NetRef)]
  {
    DeinitMirrorsSteps();
    ChainMirrorsTeardown(DeinitOrder, Steps[1..], dictLoaded);
    ChainMirrorsTeardown(DeinitOrder + [NetRef], Steps, dictLoaded);
    ChainAppend(DeinitOrder, [NetRef], dictLoaded);
    assert Chain([NetRef], dictLoaded) == [Release(NetRef)];
  }

  /** The deinitialisation order lists the steps after the transport
      reference backwards. */
  lemma DeinitMirrorsSteps()
    ensures |DeinitOrder| == |Steps| - 1
    ensures forall i :: 0 <= i < |DeinitOrder| ==> DeinitOrder[i] == Steps[1..][|DeinitOrder| - 1 - i]
    ensures forall i :: 0 <= i <= |DeinitOrder| ==> (DeinitOrder + [NetRef])[i] == Steps[|Steps| - 1 - i]
  {
    forall i | 0 <= i < |DeinitOrder|
      ensures DeinitOrder[i] == Steps[|Steps| - 1 - i]
    {
      if i < 4 {
      } else if i < 8 {
      } else if i < 11 {
      } else {
      }
    }
  }

  /** Every join is immediately preceded by the stop of the same monitor. */
  predicate StopThenJoin(a: seq<Action>)
  {
    forall i :: 0 <= i < |a| && a[i].Join? ==> i > 0 && a[i - 1] == Stop(a[i].res)
  }

  lemma {:induction false} TeardownStopsThenJoins(acquired: seq<Resource>, dictLoaded: bool)
    ensures StopThenJoin(Teardown(acquired, dictLoaded))
    decreases |acquired|
  {
    if acquired != [] {
      var n := |acquired|;
      TeardownStopsThenJoins(acquired[..n - 1], dictLoaded);
      UndoStopsThenJoins(acquired[n - 1], dictLoaded);
      StopThenJoinAppend(Undo(acquired[n - 1], dictLoaded), Teardown(acquired[..n - 1], dictLoaded));
    }
  }

  lemma UndoStopsThenJoins(res: Resource, dictLoaded: bool)
    ensures StopThenJoin(Undo(res, dictLoaded))
  {
  }

  /** A list that never starts with a join can follow any other such list. */
  lemma StopThenJoinAppend(u: seq<Action>, rest: seq<Action>)
    requires StopThenJoin(u) && StopThenJoin(rest)
    ensures StopThenJoin(u + rest)
  {
    var a := u + rest;
    forall i | 0 <= i < |a| && a[i].Join?
      ensures i > 0 && a[i - 1] == Stop(a[i].res)
    {
      if i < |u| {
        assert a[i] == u[i];
        assert a[i - 1] == u[i - 1];
      } else {
        assert a[i] == rest[i - |u|];
        if i - |u| > 0 {
          assert a[i - 1] == rest[i - |u| - 1];
        }
      }
    }
  }
}
