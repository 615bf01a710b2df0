/** One iteration of each monitor thread. The state monitor waits for a
    statusword change and notifies the state subscribers; the emergency
    monitor, once woken, drains the ring and calls every emergency
    subscriber with each code. The thread loop and its stop flag are not
    modelled; each iteration is a step. */
module Monitors {
  import opened Outcomes
  import opened Statusword
  import opened Subscribers
  import Emcy

  /** The monitor's baseline word after the iteration, and the word its
      subscribers are notified of, if any. The notified word is handed to
      the protocol's state decoder, which is not part of this model. */
  datatype StateStep = StateStep(baseline: Word, notify: Option<Word>)

  /** state_subs_monitor as written: the baseline becomes whatever the wait
      left in `sw`, and subscribers are notified only when the wait
      returned success. */
  function StateMonitorStepAsWritten(baseline: Word, stored: Word, timeout: int, start: Option<Timespec>, wake: Wake, end: Option<Timespec>): (r: StateStep)
    ensures var w := WaitChange(stored, baseline, timeout, start, wake, end);
      && r.baseline == w.sw
      && (r.notify.Some? <==> w.status.Ok?)
      && (r.notify.Some? ==> r.notify.value == r.baseline)
  {
    var w := WaitChange(stored, baseline, timeout, start, wake, end);
    StateStep(w.sw, if w.status.Ok? then Some(w.sw) else None)
  }

  /** As written, a change picked up by a wake-up that arrives when the
      timeout has just run out moves the baseline but is reported as a
      timeout, so no subscriber ever hears of it. */
  lemma AsWrittenLateWakeLosesChange()
    ensures var r := StateMonitorStepAsWritten(0, 0, 100, Some(Timespec(0, 0)), Signalled(1), Some(Timespec(0, 100_000_000)));
      r.baseline == 1 && r.notify.None?
  {
    assert ElapsedMs(Diff(Timespec(0, 0), Timespec(0, 100_000_000))) == 100;
  }

  /** The state monitor as intended: every move of the baseline is
      notified, on top of everything the code notifies. */
  function StateMonitorStep(baseline: Word, stored: Word, timeout: int, start: Option<Timespec>, wake: Wake, end: Option<Timespec>): (r: StateStep)
    ensures r.baseline == StateMonitorStepAsWritten(baseline, stored, timeout, start, wake, end).baseline
    ensures r.baseline != baseline ==> r.notify == Some(r.baseline)
    ensures r.notify.Some? <==> r.baseline != baseline || StateMonitorStepAsWritten(baseline, stored, timeout, start, wake, end).notify.Some?
    ensures r.notify.Some? ==> r.notify.value == r.baseline
  {
    var w := WaitChange(stored, baseline, timeout, start, wake, end);
    StateStep(w.sw, if w.status.Ok? || w.sw != baseline then Some(w.sw) else None)
  }

  /** One subscriber called with one emergency code. */
  datatype Delivery = Delivery(sub: Slot, code: Emcy.Code)

  /** Every code in order, each delivered to every subscriber in order. */
  function Deliveries(codes: seq<Emcy.Code>, subs: seq<Slot>): (d: seq<Delivery>)
    ensures |codes| == 1 ==> |d| == |subs| && forall i :: 0 <= i < |subs| ==> d[i] == Delivery(subs[i], codes[0])
  {
    if codes == [] then []
    else seq(|subs|, i requires 0 <= i < |subs| => Delivery(subs[i], codes[0])) + Deliveries(codes[1..], subs)
  }

  lemma {:induction false} DeliveriesAppend(a: seq<Emcy.Code>, b: seq<Emcy.Code>, subs: seq<Slot>)
    ensures Deliveries(a + b, subs) == Deliveries(a, subs) + Deliveries(b, subs)
    decreases |a|
  {
    if a == [] {
      assert a + b == b;
    } else {
      assert (a + b)[0] == a[0];
      assert (a + b)[1..] == a[1..] + b;
      DeliveriesAppend(a[1..], b, subs);
    }
  }

  /** The woken branch of emcy_subs_monitor: pop codes until CIRC_CNT is 0,
      calling the subscribers for each. The subscriber list is taken as
      fixed for the whole drain. A fan-out that blocks or faults halts the
      thread right after the first pop: a held lock blocks before any call,
      so that code is lost; a size past the array first calls every
      occupied slot of the array with that code, then reads outside it. */
  method Drain(ring: Emcy.Ring, reg: Registry) returns (delivered: seq<Delivery>, rest: Emcy.Ring, halted: bool)
    requires Emcy.Valid(ring)
    ensures Emcy.Valid(rest) && rest.queue == ring.queue && rest.head == ring.head
    ensures halted <==> Emcy.Contents(ring) != [] && (reg.locked || reg.sz > |reg.subs|)
    ensures !halted ==> Emcy.Contents(rest) == []
    ensures Emcy.Contents(ring) == [] ==> delivered == []
    ensures !halted && Emcy.Contents(ring) != [] ==>
      delivered == Deliveries(Emcy.Contents(ring), Occupants(reg.subs[..reg.sz]))
    ensures halted ==> Emcy.Contents(rest) == Emcy.Contents(ring)[1..]
    ensures halted && reg.locked ==> delivered == []
    ensures halted && !reg.locked ==> delivered == Deliveries(Emcy.Contents(ring)[..1], Occupants(reg.subs))
  {
    Emcy.CircMacros(ring);
    if reg.locked || reg.sz > |reg.subs| {
      if Emcy.CircCnt(ring.head, ring.tail, |ring.queue|) != 0 {
        Emcy.PopTakesOldest(ring);
        var (code, next) := Emcy.Pop(ring);
        var _, calls := FanOut(reg);
        assert Emcy.Contents(ring)[..1] == [code];
        return Deliveries([code], calls), next, true;
      }
      return [], ring, false;
    }
    delivered, rest := DrainAll(ring, reg);
    halted := false;
  }

  /** The drain when the fan-out goes through: every code, oldest first,
      is delivered to the occupied slots, and the ring ends empty. */
  method DrainAll(ring: Emcy.Ring, reg: Registry) returns (delivered: seq<Delivery>, rest: Emcy.Ring)
    requires Emcy.Valid(ring) && !reg.locked && reg.sz <= |reg.subs|
    ensures Emcy.Valid(rest) && rest.queue == ring.queue && rest.head == ring.head
    ensures Emcy.Contents(rest) == []
    ensures delivered == Deliveries(Emcy.Contents(ring), Occupants(reg.subs[..reg.sz]))
  {
    var occ := Occupants(reg.subs[..reg.sz]);
    delivered, rest := [], ring;
    ghost var popped: seq<Emcy.Code> := [];
    while Emcy.CircCnt(rest.head, rest.tail, |rest.queue|) != 0
      invariant Emcy.Valid(rest) && rest.queue == ring.queue && rest.head == ring.head
      invariant popped + Emcy.Contents(rest) == Emcy.Contents(ring)
      invariant delivered == Deliveries(popped, occ)
      decreases |Emcy.Contents(rest)|
    {
      DrainStep(ring, rest, popped, occ);
      var (code, next) := Emcy.Pop(rest);
      rest := next;
      var _, calls := FanOut(reg);
      delivered := delivered + Deliveries([code], calls);
      popped := popped + [code];
    }
    Emcy.CircMacros(rest);
    assert popped == Emcy.Contents(ring);
  }

  /** One pop of the drain keeps the popped codes and the ring together
      equal to the codes that were waiting. */
  lemma DrainStep(ring: Emcy.Ring, rest: Emcy.Ring, popped: seq<Emcy.Code>, occ: seq<Slot>)
    requires Emcy.Valid(ring) && Emcy.Valid(rest)
    requires Emcy.CircCnt(rest.head, rest.tail, |rest.queue|) != 0
    requires popped + Emcy.Contents(rest) == Emcy.Contents(ring)
    ensures var (code, next) := Emcy.Pop(rest);
      && (popped + [code]) + Emcy.Contents(next) == Emcy.Contents(ring)
      && Deliveries(popped + [code], occ) == Deliveries(popped, occ) + Deliveries([code], occ)
  {
    Emcy.CircMacros(rest);
    Emcy.PopTakesOldest(rest);
    var (code, next) := Emcy.Pop(rest);
    TakeFirst(popped, Emcy.Contents(rest), Emcy.Contents(ring));
    DeliveriesAppend(popped, [code], occ);
  }

  lemma TakeFirst<T>(done: seq<T>, left: seq<T>, all: seq<T>)
    requires done + left == all && left != []
    ensures (done + [left[0]]) + left[1..] == all
  {
    assert left == [left[0]] + left[1..];
  }
}
