/** The emergency queue: a ring of 32-bit emergency codes over a
    power-of-two array whose head and tail indices advance by masking. The
    emergency callback pushes (dropping the oldest code when the ring is
    full) and the emergency monitor pops in arrival order. */
module Emcy {
  import opened Bits

  /** uint32_t emergency code */
  type Code = x: int | 0 <= x < 0x1_0000_0000

  /** The fixed array and the two indices; the array length is the ring
      size (EMCY_QUEUE_SZ). */
  datatype Ring = Ring(queue: seq<Code>, head: int, tail: int)

  predicate Valid(r: Ring)
  {
    && IsPow2(|r.queue|) && |r.queue| <= SizeModulus
    && 0 <= r.head < |r.queue| && 0 <= r.tail < |r.queue|
  }

  /** `x & (n - 1)` */
  function Mask(x: nat, n: int): nat
    requires IsPow2(n)
  {
    BitAnd(x, n - 1)
  }

  /** CIRC_CNT: codes between tail and head, with size_t subtraction. */
  function CircCnt(h: int, t: int, n: int): nat
    requires IsPow2(n)
  {
    Mask((h - t) % SizeModulus, n)
  }

  /** CIRC_SPACE: free cells, one cell always being kept empty. */
  function CircSpace(h: int, t: int, n: int): nat
    requires IsPow2(n)
  {
    CircCnt(t, h + 1, n)
  }

  /** The macros reduce modulo the ring size: size_t wrap-around is
      harmless because the size divides 2^64. */
  lemma CircCntIsMod(h: int, t: int, n: int)
    requires IsPow2(n) && n <= SizeModulus
    ensures CircCnt(h, t, n) == (h - t) % n
  {
    var x := (h - t) % SizeModulus;
    DividesSizeModulus(n);
    MaskIsMod(x, n);
    ModOfMod(h - t, SizeModulus, n);
  }

  /** The cell after x, wrapping from the last cell to 0. */
  function Next(x: int, n: int): int
  {
    if x + 1 == n then 0 else x + 1
  }

  /** Advancing an index by masking steps to the next cell. */
  lemma MaskNext(x: int, n: int)
    requires IsPow2(n) && 0 <= x < n
    ensures Mask(x + 1, n) == Next(x, n)
  {
    MaskIsMod(x + 1, n);
    if x + 1 == n {
      DivModUnique(x + 1, n, 1, 0);
    } else {
      DivModUnique(x + 1, n, 0, x + 1);
    }
  }

  /** Number of unread codes, without the modular arithmetic. */
  function Count(r: Ring): nat
    requires Valid(r)
  {
    if r.head >= r.tail then r.head - r.tail else r.head - r.tail + |r.queue|
  }

  /** CIRC_CNT is the number of unread codes, never more than size - 1,
      and CIRC_SPACE is 0 exactly when size - 1 codes are unread. */
  lemma CircMacros(r: Ring)
    requires Valid(r)
    ensures CircCnt(r.head, r.tail, |r.queue|) == Count(r) < |r.queue|
    ensures CircSpace(r.head, r.tail, |r.queue|) == 0 <==> Count(r) == |r.queue| - 1
  {
    var n, h, t := |r.queue|, r.head, r.tail;
    CircCntIsMod(h, t, n);
    CircCntIsMod(t, h + 1, n);
    if h >= t {
      DivModUnique(h - t, n, 0, h - t);
      DivModUnique(t - h - 1, n, -1, t - h - 1 + n);
    } else {
      DivModUnique(h - t, n, -1, h - t + n);
      DivModUnique(t - h - 1, n, 0, t - h - 1);
    }
  }

  /** The cell i steps after t. */
  function Cell(t: int, i: int, n: int): (c: int)
    requires 0 <= t < n && 0 <= i < n
    ensures 0 <= c < n
  {
    if t + i < n then t + i else t + i - n
  }

  /** `count` codes read from cell t onwards. */
  function Unread(q: seq<Code>, t: int, count: nat): (s: seq<Code>)
    requires 0 <= t < |q|
    ensures |s| == count
    decreases count
  {
    if count == 0 then [] else [q[t]] + Unread(q, Next(t, |q|), count - 1)
  }

  /** Writing cell t + count and reading one more appends that code. */
  lemma {:induction false} UnreadSnoc(q: seq<Code>, t: int, count: nat, code: Code)
    requires 0 <= t < |q| && count < |q|
    ensures Unread(q[Cell(t, count, |q|) := code], t, count + 1) == Unread(q, t, count) + [code]
    decreases count
  {
    var n := |q|;
    var h := Cell(t, count, n);
    var q' := q[h := code];
    assert Unread(q', t, count + 1) == [q'[t]] + Unread(q', Next(t, n), count);
    if count == 0 {
      assert q'[t] == code;
    } else {
      assert h != t && q'[t] == q[t];
      assert h == Cell(Next(t, n), count - 1, n);
      UnreadSnoc(q, Next(t, n), count - 1, code);
      assert Unread(q, t, count) == [q[t]] + Unread(q, Next(t, n), count - 1);
      assert [q[t]] + (Unread(q, Next(t, n), count - 1) + [code]) == Unread(q, t, count) + [code];
    }
  }

  /** The unread codes, oldest first: the FIFO the ring represents. */
  function Contents(r: Ring): (s: seq<Code>)
    requires Valid(r)
    ensures |s| == Count(r) < |r.queue|
  {
    Unread(r.queue, r.tail, Count(r))
  }

  /** The ring after initialisation: head and tail at 0, whatever the
      array holds. */
  lemma InitIsEmpty(queue: seq<Code>)
    requires IsPow2(|queue|) && |queue| <= SizeModulus
    ensures Valid(Ring(queue, 0, 0)) && Contents(Ring(queue, 0, 0)) == []
  {
  }

  /** on_emcy: when no space is left the tail advances (the oldest code is
      dropped), then the code is stored at the head and the head advances. */
  function Push(r: Ring, code: Code): (r': Ring)
    requires Valid(r)
    ensures Valid(r') && r'.queue == r.queue[r.head := code]
    ensures r'.head == Next(r.head, |r.queue|)
    ensures r'.tail == if Count(r) == |r.queue| - 1 then Next(r.tail, |r.queue|) else r.tail
  {
    var n := |r.queue|;
    MaskNext(r.tail, n);
    MaskNext(r.head, n);
    CircMacros(r);
    var tail := if CircSpace(r.head, r.tail, n) == 0 then Mask(r.tail + 1, n) else r.tail;
    Ring(r.queue[r.head := code], Mask(r.head + 1, n), tail)
  }

  /** A push appends the new code last; when size - 1 codes are already
      unread it first evicts exactly the oldest one. */
  lemma PushEvictsOldest(r: Ring, code: Code)
    requires Valid(r)
    ensures var s := Contents(r);
      Contents(Push(r, code)) == if |s| == |r.queue| - 1 then (s + [code])[1..] else s + [code]
  {
    if Count(r) == |r.queue| - 1 {
      PushWhenFull(r, code);
    } else {
      PushWhenRoom(r, code);
    }
  }

  lemma PushWhenFull(r: Ring, code: Code)
    requires Valid(r) && Count(r) == |r.queue| - 1
    ensures Contents(Push(r, code)) == (Contents(r) + [code])[1..]
  {
    var n := |r.queue|;
    var r' := Push(r, code);
    assert Count(r') == n - 1;
    if n > 1 {
      var t1 := Next(r.tail, n);
      assert r.head == Cell(t1, n - 2, n);
      UnreadSnoc(r.queue, t1, n - 2, code);
      assert Contents(r)[1..] == Unread(r.queue, t1, n - 2);
    }
  }

  lemma PushWhenRoom(r: Ring, code: Code)
    requires Valid(r) && Count(r) < |r.queue| - 1
    ensures Contents(Push(r, code)) == Contents(r) + [code]
  {
    var r' := Push(r, code);
    assert Count(r') == Count(r) + 1;
    assert r.head == Cell(r.tail, Count(r), |r.queue|);
    UnreadSnoc(r.queue, r.tail, Count(r), code);
  }

  /** One step of the drain: the code at the tail and the ring after the
      tail advanced. */
  function Pop(r: Ring): (p: (Code, Ring))
    requires Valid(r) && CircCnt(r.head, r.tail, |r.queue|) > 0
    ensures Valid(p.1) && p.1.queue == r.queue && p.1.head == r.head
    ensures p.1.tail == Next(r.tail, |r.queue|)
  {
    MaskNext(r.tail, |r.queue|);
    (r.queue[r.tail], Ring(r.queue, r.head, Mask(r.tail + 1, |r.queue|)))
  }

  /** Popping yields the oldest unread code and leaves the rest in order. */
  lemma PopTakesOldest(r: Ring)
    requires Valid(r) && CircCnt(r.head, r.tail, |r.queue|) > 0
    ensures Pop(r).0 == Contents(r)[0]
    ensures Contents(Pop(r).1) == Contents(r)[1..]
  {
    CircMacros(r);
    assert Count(Pop(r).1) == Count(r) - 1;
  }

  /** The last k elements of s (all of s when it is shorter). */
  function Keep<T>(s: seq<T>, k: nat): (t: seq<T>)
    ensures |t| <= k && |t| <= |s|
  {
    if |s| <= k then s else s[|s| - k..]
  }

  lemma KeepAppend<T>(x: seq<T>, y: seq<T>, k: nat)
    ensures Keep(Keep(x, k) + y, k) == Keep(x + y, k)
  {
    if |x| > k {
      var kx := x[|x| - k..];
      assert Keep(x, k) == kx && |kx| == k;
      if y == [] {
        assert kx + y == kx && x + y == x;
      } else {
        var a, b := Keep(kx + y, k), Keep(x + y, k);
        assert a == (kx + y)[|y|..] && b == (x + y)[|x| + |y| - k..];
        assert |a| == |b| == k;
        forall i | 0 <= i < k
          ensures a[i] == b[i]
        {
          if |y| + i < k {
            assert a[i] == kx[|y| + i] == x[|x| - k + |y| + i];
          } else {
            assert a[i] == y[|y| + i - k];
          }
        }
      }
    }
  }

  /** One push is the queue of the last size - 1 codes. */
  lemma PushKeepsLast(r: Ring, code: Code)
    requires Valid(r)
    ensures Contents(Push(r, code)) == Keep(Contents(r) + [code], |r.queue| - 1)
  {
    PushEvictsOldest(r, code);
  }

  /** One more push keeps the queue equal to the last size - 1 codes of
      everything pushed so far. */
  lemma PushStep(r0: Ring, r: Ring, codes: seq<Code>, i: nat)
    requires Valid(r0) && Valid(r) && |r.queue| == |r0.queue| && i < |codes|
    requires Contents(r) == Keep(Contents(r0) + codes[..i], |r0.queue| - 1)
    ensures Contents(Push(r, codes[i])) == Keep(Contents(r0) + codes[..i + 1], |r0.queue| - 1)
  {
    PushKeepsLast(r, codes[i]);
    KeepStep(Contents(r0), codes, i, |r0.queue| - 1, Contents(r), Contents(Push(r, codes[i])));
  }

  lemma KeepStep<T>(base: seq<T>, codes: seq<T>, i: nat, k: nat, cur: seq<T>, next: seq<T>)
    requires i < |codes|
    requires cur == Keep(base + codes[..i], k) && next == Keep(cur + [codes[i]], k)
    ensures next == Keep(base + codes[..i + 1], k)
  {
    KeepAppend(base + codes[..i], [codes[i]], k);
    assert codes[..i + 1] == codes[..i] + [codes[i]];
    assert base + codes[..i] + [codes[i]] == base + codes[..i + 1];
  }

  /** The emergency callback run once per code, in order: whatever the
      traffic, the ring then holds the last size - 1 codes, oldest first. */
  method PushAll(r: Ring, codes: seq<Code>) returns (r': Ring)
    requires Valid(r)
    ensures Valid(r') && |r'.queue| == |r.queue|
    ensures Contents(r') == Keep(Contents(r) + codes, |r.queue| - 1)
  {
    r' := r;
    var i := 0;
    assert Contents(r) + codes[..0] == Contents(r);
    while i < |codes|
      invariant 0 <= i <= |codes|
      invariant Valid(r') && |r'.queue| == |r.queue|
      invariant Contents(r') == Keep(Contents(r) + codes[..i], |r.queue| - 1)
    {
      PushStep(r, r', codes, i);
      r' := Push(r', codes[i]);
      i := i + 1;
    }
    assert codes[..i] == codes;
  }

  /** With four cells, pushing 1, 2, 3, 4, 5 into an empty ring keeps only
      the last three codes. */
  lemma FourCellsKeepThree(queue: seq<Code>, r1: Ring, r2: Ring, r3: Ring, r4: Ring, r5: Ring)
    requires |queue| == 4 && Valid(Ring(queue, 0, 0))
    requires r1 == Push(Ring(queue, 0, 0), 1) && r2 == Push(r1, 2) && r3 == Push(r2, 3)
    requires r4 == Push(r3, 4) && r5 == Push(r4, 5)
    ensures Contents(r3) == [1, 2, 3]
    ensures Contents(r5) == [3, 4, 5]
  {
    PushKeepsLast(Ring(queue, 0, 0), 1);
    PushKeepsLast(r1, 2);
    PushKeepsLast(r2, 3);
    assert Contents(r3) == [1, 2, 3];
    PushKeepsLast(r3, 4);
    assert Contents(r4) == [2, 3, 4];
    PushKeepsLast(r4, 5);
  }
}
