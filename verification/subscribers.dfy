/** The external subscriber lists (state and emergency): arrays of
    callback/context slots with a first-fit subscribe, an unsubscribe that
    only empties a slot, and a fan-out that calls every occupied slot in
    index order. Both lists share this code in the servo.

    `Subscribe` and `Unsubscribe` are the intended behaviour;
    `SubscribeAsWritten` and `UnsubscribeAsWritten` keep the defects of the
    code (growth storing a byte count, unzeroed new slots, a lock left held,
    a negative slot written). The lock is part of the state so that a lock
    left held shows up as a later call blocking. */
module Subscribers {
  import opened Outcomes
  import opened Bits

  /** Callback and context pointers; a NULL (0) callback marks the slot
      empty. */
  datatype Slot = Slot(cb: int, ctx: int)
  {
    predicate Occupied()
    {
      cb != 0
    }
  }

  const Vacant: Slot := Slot(0, 0)

  /** The allocated array, the recorded size `sz`, and whether the list's
      lock is still held after a call returned. */
  datatype Registry = Registry(subs: seq<Slot>, sz: nat, locked: bool)

  /** The invariant the intended operations keep: the recorded size is the
      array length, at least one slot, and the lock is free between calls. */
  predicate Valid(r: Registry)
  {
    r.sz == |r.subs| && r.sz >= 1 && !r.locked
  }

  /** What a call does: returns a value with the new list, blocks forever on
      a lock nobody will release, or touches memory outside the array. */
  datatype Step<T> = Done(value: T, reg: Registry) | Blocks | Faults

  /** The occupied slots in index order: who the fan-out calls. */
  function Occupants(s: seq<Slot>): (o: seq<Slot>)
    ensures |o| <= |s|
  {
    if s == [] then []
    else (if s[0].Occupied() then [s[0]] else []) + Occupants(s[1..])
  }

  /** Exactly the occupied slots are called. */
  lemma {:induction false} OccupantsMembers(s: seq<Slot>, x: Slot)
    ensures x in Occupants(s) <==> x in s && x.Occupied()
    decreases |s|
  {
    if s != [] {
      OccupantsMembers(s[1..], x);
      assert x in s <==> x == s[0] || x in s[1..];
    }
  }

  lemma {:induction false} OccupantsAppend(a: seq<Slot>, b: seq<Slot>)
    ensures Occupants(a + b) == Occupants(a) + Occupants(b)
    decreases |a|
  {
    if a != [] {
      var h := if a[0].Occupied() then [a[0]] else [];
      assert (a + b)[0] == a[0];
      assert (a + b)[1..] == a[1..] + b;
      OccupantsAppend(a[1..], b);
      assert Occupants(a + b) == h + Occupants(a[1..] + b);
      assert Occupants(a) == h + Occupants(a[1..]);
    } else {
      assert a + b == b;
    }
  }

  lemma {:induction false} OccupantsOfVacant(s: seq<Slot>)
    requires forall i :: 0 <= i < |s| ==> !s[i].Occupied()
    ensures Occupants(s) == []
    decreases |s|
  {
    if s != [] {
      OccupantsOfVacant(s[1..]);
    }
  }

  /** The list as the servo allocates it: `size` zeroed slots. */
  function Init(size: nat): (r: Registry)
    requires size >= 1
    ensures Valid(r) && r.sz == size && Occupants(r.subs) == []
  {
    var subs := seq(size, _ => Vacant);
    OccupantsOfVacant(subs);
    Registry(subs, size, false)
  }

  /** The first-fit scan from `from`: the first vacant slot below sz, or sz
      when every slot is taken; None when the scan reads past the array. */
  function FirstVacant(subs: seq<Slot>, sz: nat, from: nat): (k: Option<nat>)
    requires from <= sz
    decreases sz - from
    ensures k.Some? ==> from <= k.value <= sz
    ensures k.Some? && k.value < sz ==> k.value < |subs| && !subs[k.value].Occupied()
    ensures k.Some? ==> forall i :: from <= i < k.value ==> i < |subs| && subs[i].Occupied()
    ensures k.None? <==> from < sz && sz > |subs| && forall i :: from <= i < |subs| ==> subs[i].Occupied()
  {
    if from == sz then Some(sz)
    else if from >= |subs| then None
    else if !subs[from].Occupied() then Some(from)
    else FirstVacant(subs, sz, from + 1)
  }

  /** The final write of subscribe: store the slot and return its index. */
  function Place(subs: seq<Slot>, sz: nat, slot: nat, cb: int, ctx: int): (s: Step<Result<nat>>)
    ensures slot < |subs| ==> s == Done(Ok(slot), Registry(subs[slot := Slot(cb, ctx)], sz, false))
    ensures slot >= |subs| ==> s.Faults?
  {
    if slot < |subs| then Done(Ok(slot), Registry(subs[slot := Slot(cb, ctx)], sz, false))
    else Faults
  }

  /** Subscribe as intended: first-fit, and when every slot is taken the
      array doubles in elements with the new slots empty. `growOk` is
      whether the reallocation succeeded. */
  function Subscribe(r: Registry, cb: int, ctx: int, growOk: bool): (s: Step<Result<nat>>)
    ensures Valid(r) ==> s.Done?
    ensures Valid(r) && s.Done? && s.value.Ok? ==>
      var k := s.value.value;
      && k <= r.sz
      && (forall i :: 0 <= i < k ==> r.subs[i].Occupied())
      && (k < r.sz ==> !r.subs[k].Occupied())
      && Valid(s.reg)
      && |s.reg.subs| == (if k < r.sz then r.sz else 2 * r.sz)
      && s.reg.subs[k] == Slot(cb, ctx)
      && (forall i :: 0 <= i < |r.subs| && i != k ==> s.reg.subs[i] == r.subs[i])
      && (forall i :: |r.subs| <= i < |s.reg.subs| && i != k ==> s.reg.subs[i] == Vacant)
    ensures Valid(r) && (growOk || exists i :: 0 <= i < |r.subs| && !r.subs[i].Occupied()) ==> s.value.Ok?
    ensures Valid(r) && !growOk && (forall i :: 0 <= i < |r.subs| ==> r.subs[i].Occupied()) ==> s == Done(Err(ENoMem), r)
    ensures Valid(r) && s.Done? && s.value.Err? ==>
      && s.value.error == ENoMem && !growOk && s.reg == r
      && (forall i :: 0 <= i < |r.subs| ==> r.subs[i].Occupied())
  {
    if r.locked then Blocks
    else match FirstVacant(r.subs, r.sz, 0)
      case None => Faults
      case Some(slot) =>
        if slot < r.sz then Place(r.subs, r.sz, slot, cb, ctx)
        else if !growOk then Done(Err(ENoMem), r)
        else
          assert r.sz <= |r.subs| by {
            if r.sz > 0 {
              assert r.sz - 1 < |r.subs|;
            }
          }
          var grown := r.subs[..r.sz] + seq(r.sz, _ => Vacant);
          Place(grown, 2 * r.sz, slot, cb, ctx)
  }

  /** Subscribe as written: the doubled size is a byte count
      (2 * sz * sizeof(slot)) stored as the element count, and the slots
      added by realloc hold whatever `junk` says was in memory. */
  function SubscribeAsWritten(r: Registry, cb: int, ctx: int, growOk: bool, slotBytes: nat, junk: int -> Slot): (s: Step<Result<nat>>)
    requires slotBytes >= 1
    ensures r.locked ==> s.Blocks?
    ensures s.Done? && s.value.Ok? ==> s.value.value < |s.reg.subs| && s.reg.subs[s.value.value] == Slot(cb, ctx)
    ensures s.Done? && s.value.Ok? && s.value.value == r.sz ==>
      |s.reg.subs| == 2 * r.sz && s.reg.sz == (2 * r.sz * slotBytes) % SizeModulus
  {
    if r.locked then Blocks
    else match FirstVacant(r.subs, r.sz, 0)
      case None => Faults
      case Some(slot) =>
        if slot < r.sz then Place(r.subs, r.sz, slot, cb, ctx)
        else if !growOk then Done(Err(ENoMem), r)
        else
          assert r.sz <= |r.subs| by {
            if r.sz > 0 {
              assert r.sz - 1 < |r.subs|;
            }
          }
          var bytes := (2 * r.sz * slotBytes) % SizeModulus;
          var grown := r.subs[..r.sz] + seq(r.sz, i => junk(i));
          Place(grown, bytes, slot, cb, ctx)
  }

  /** Unsubscribe as intended: an in-range slot is emptied; any other slot
      number, negative included, leaves the list unchanged and the lock
      released. */
  function Unsubscribe(r: Registry, slot: int): (s: Step<()>)
    ensures Valid(r) ==> s.Done? && Valid(s.reg)
    ensures Valid(r) && 0 <= slot < r.sz ==> s.reg.subs == r.subs[slot := Vacant]
    ensures Valid(r) && !(0 <= slot < r.sz) ==> s.reg == r
  {
    if r.locked then Blocks
    else if slot < 0 || slot >= r.sz then Done((), r)
    else if slot >= |r.subs| then Faults
    else Done((), r.(subs := r.subs[slot := Vacant]))
  }

  /** Unsubscribe as written: a slot at or past sz returns with the lock
      still held, and a negative slot is written outside the array. */
  function UnsubscribeAsWritten(r: Registry, slot: int): (s: Step<()>)
    ensures Valid(r) && 0 <= slot < r.sz ==> s == Unsubscribe(r, slot)
    ensures Valid(r) && slot >= r.sz ==> s.Done? && s.reg.subs == r.subs && s.reg.locked
    ensures Valid(r) && slot < 0 ==> s.Faults?
  {
    if r.locked then Blocks
    else if slot >= r.sz then Done((), r.(locked := true))
    else if slot < 0 || slot >= |r.subs| then Faults
    else Done((), r.(subs := r.subs[slot := Vacant]))
  }

  /** The fan-out loop of the monitors: under the list's lock, every slot
      below sz with a callback is called, in index order. `calls` are the
      callbacks made before the loop ended: all occupied slots below sz, or,
      when sz runs past the array, every occupied slot of the array before
      the read outside it. */
  method FanOut(r: Registry) returns (s: Step<seq<Slot>>, calls: seq<Slot>)
    ensures r.locked ==> s.Blocks? && calls == []
    ensures !r.locked && r.sz <= |r.subs| ==> s == Done(calls, r) && calls == Occupants(r.subs[..r.sz])
    ensures !r.locked && r.sz > |r.subs| ==> s.Faults? && calls == Occupants(r.subs)
  {
    calls := [];
    if r.locked {
      return Blocks, calls;
    }
    var i := 0;
    while i < r.sz
      invariant 0 <= i <= r.sz && i <= |r.subs|
      invariant calls == Occupants(r.subs[..i])
    {
      if i == |r.subs| {
        assert r.subs[..i] == r.subs;
        return Faults, calls;
      }
      assert r.subs[..i + 1] == r.subs[..i] + [r.subs[i]];
      OccupantsAppend(r.subs[..i], [r.subs[i]]);
      if r.subs[i].Occupied() {
        calls := calls + [r.subs[i]];
      }
      i := i + 1;
    }
    return Done(calls, r), calls;
  }

  /** The array after a successful subscribe at slot k: the slots below k,
      the new slot, then the old slots above k or the empty slots growth
      added. */
  lemma SubscribeShape(r: Registry, cb: int, ctx: int, growOk: bool)
    requires Valid(r)
    requires Subscribe(r, cb, ctx, growOk).value.Ok?
    ensures var s := Subscribe(r, cb, ctx, growOk);
      var k := s.value.value;
      && k <= |r.subs|
      && s.reg.subs == r.subs[..k] + [Slot(cb, ctx)] + s.reg.subs[k + 1..]
      && (k < |r.subs| ==> !r.subs[k].Occupied() && s.reg.subs[k + 1..] == r.subs[k + 1..])
      && (forall i :: k < i < |s.reg.subs| && k == |r.subs| ==> s.reg.subs[i] == Vacant)
  {
    var s := Subscribe(r, cb, ctx, growOk);
    var k := s.value.value;
    var t := s.reg.subs;
    assert t == t[..k] + [t[k]] + t[k + 1..];
    assert t[..k] == r.subs[..k];
  }

  /** A new subscriber is called after every subscriber in a lower slot and
      before every one in a higher slot; nobody else is added or dropped. */
  lemma SubscribeInsertsInOrder(r: Registry, cb: int, ctx: int, growOk: bool)
    requires Valid(r) && cb != 0
    requires Subscribe(r, cb, ctx, growOk).value.Ok?
    ensures var s := Subscribe(r, cb, ctx, growOk);
      var k := s.value.value;
      Occupants(s.reg.subs) == Occupants(r.subs[..k]) + [Slot(cb, ctx)] + Occupants(r.subs[k..])
  {
    var s := Subscribe(r, cb, ctx, growOk);
    var k := s.value.value;
    var after := s.reg.subs[k + 1..];
    SubscribeShape(r, cb, ctx, growOk);
    if k < |r.subs| {
      VacantHead(r.subs[k..]);
      assert r.subs[k..][1..] == after;
    } else {
      OccupantsOfVacant(after);
      assert r.subs[k..] == [];
    }
    InsertOrder(r.subs[..k], Slot(cb, ctx), after, r.subs[k..]);
  }

  lemma VacantHead(s: seq<Slot>)
    requires s != [] && !s[0].Occupied()
    ensures Occupants(s) == Occupants(s[1..])
  {
  }

  lemma InsertOrder(pre: seq<Slot>, x: Slot, after: seq<Slot>, was: seq<Slot>)
    requires x.Occupied() && Occupants(after) == Occupants(was)
    ensures Occupants(pre + [x] + after) == Occupants(pre) + [x] + Occupants(was)
  {
    OccupantsAppend(pre + [x], after);
    OccupantsAppend(pre, [x]);
    assert Occupants([x]) == [x];
  }

  /** Emptying an occupied slot drops exactly that subscriber from the
      fan-out, keeping the others in order. */
  lemma UnsubscribeDropsOne(r: Registry, slot: int)
    requires Valid(r) && 0 <= slot < r.sz
    ensures Occupants(Unsubscribe(r, slot).reg.subs) == Occupants(r.subs[..slot]) + Occupants(r.subs[slot + 1..])
  {
    var t := Unsubscribe(r, slot).reg.subs;
    assert t == t[..slot] + [Vacant] + t[slot + 1..];
    assert t[..slot] == r.subs[..slot] && t[slot + 1..] == r.subs[slot + 1..];
    OccupantsAppend(t[..slot] + [Vacant], t[slot + 1..]);
    OccupantsAppend(t[..slot], [Vacant]);
  }

  /** Nothing is renumbered: a freed slot is the one handed out next when
      every lower slot is taken. */
  lemma FreedSlotIsReused(r: Registry, slot: int, cb: int, ctx: int, growOk: bool)
    requires Valid(r) && 0 <= slot < r.sz
    requires forall i :: 0 <= i < slot ==> r.subs[i].Occupied()
    ensures var u := Unsubscribe(r, slot).reg;
      Subscribe(u, cb, ctx, growOk).value == Ok(slot)
  {
    var u := Unsubscribe(r, slot).reg;
    var s := Subscribe(u, cb, ctx, growOk);
    assert !u.subs[slot].Occupied();
  }

  /** A list of two grows to four on the third subscription, which gets
      slot 2. */
  lemma ThirdSubscriberDoubles()
    ensures var r0 := Init(2);
      var s1 := Subscribe(r0, 1, 0, true);
      var s2 := Subscribe(s1.reg, 2, 0, true);
      var s3 := Subscribe(s2.reg, 3, 0, true);
      && s1.value == Ok(0) && s2.value == Ok(1) && s3.value == Ok(2)
      && s3.reg.sz == 4 && Valid(s3.reg)
  {
    var r0 := Init(2);
    var s1 := Subscribe(r0, 1, 0, true);
    assert !r0.subs[0].Occupied();
    var s2 := Subscribe(s1.reg, 2, 0, true);
    assert s1.reg.subs[0].Occupied() && !s1.reg.subs[1].Occupied();
    var s3 := Subscribe(s2.reg, 3, 0, true);
    assert s2.reg.subs[0].Occupied() && s2.reg.subs[1].Occupied();
  }

  /** As written, growing a full list of two with 16-byte slots records
      64 as its size while the array holds 4 slots, so the next fan-out
      reads past the array. */
  lemma AsWrittenGrowthRecordsBytes(junk: int -> Slot)
    ensures var r := Registry([Slot(1, 0), Slot(2, 0)], 2, false);
      var s := SubscribeAsWritten(r, 3, 0, true, 16, junk);
      s.Done? && s.value == Ok(2) && s.reg.sz == 64 && |s.reg.subs| == 4
  {
  }

  /** As written, the slots realloc adds are not cleared: memory that looks
      like a callback is called by the next fan-out though nobody
      subscribed it. */
  lemma AsWrittenGrowthKeepsJunk()
    ensures var r := Registry([Slot(1, 0), Slot(2, 0)], 2, false);
      var s := SubscribeAsWritten(r, 3, 0, true, 16, _ => Slot(7, 9));
      Slot(7, 9) in Occupants(s.reg.subs) && Slot(7, 9) !in Occupants(r.subs)
  {
    var r := Registry([Slot(1, 0), Slot(2, 0)], 2, false);
    var s := SubscribeAsWritten(r, 3, 0, true, 16, _ => Slot(7, 9));
    assert s.reg.subs[3] == Slot(7, 9);
    OccupantsMembers(s.reg.subs, Slot(7, 9));
    OccupantsMembers(r.subs, Slot(7, 9));
  }

  /** As written, an out-of-range unsubscribe leaves the lock held, so the
      next subscribe or unsubscribe blocks; intended, it changes nothing. */
  lemma AsWrittenUnsubscribeLeaksLock(r: Registry, cb: int, ctx: int, growOk: bool, other: int)
    requires Valid(r)
    ensures var u := UnsubscribeAsWritten(r, r.sz).reg;
      Subscribe(u, cb, ctx, growOk).Blocks? && Unsubscribe(u, other).Blocks?
    ensures Unsubscribe(r, r.sz) == Done((), r)
  {
  }

  /** As written, a negative slot passes the range check and is written
      before the array; intended, it changes nothing. */
  lemma AsWrittenNegativeSlotFaults(r: Registry)
    requires Valid(r)
    ensures UnsubscribeAsWritten(r, -1).Faults?
    ensures Unsubscribe(r, -1) == Done((), r)
  {
  }
}
