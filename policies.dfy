/** The three victim-selection policies. FIFO is a 500-slot ring (`fifoQueue`,
    `fifoIndex`), LRU a 500-slot table of stamps drawn from the counter
    `lruFrameCount`, and Random `rand() % nframes` with `rand()` an oracle value.
    None of them looks at the page or frame tables. */
module Policies {
  import opened Types

  // ---------------------------------------------------------------- FIFO

  /** The contents of `fifoQueue` and the value of `fifoIndex`. */
  datatype FifoQueue = FifoQueue(slots: seq<int>, next: int)

  predicate FifoValid(q: FifoQueue)
  {
    |q.slots| == QueueSlots && 0 <= q.next < QueueSlots
  }

  /** `initFIFO`: every slot becomes -1; `fifoIndex` is not reset. */
  function FifoInit(q: FifoQueue): (r: FifoQueue)
    requires FifoValid(q)
    ensures FifoValid(r) && r.next == q.next
    ensures Cleared(r)
  {
    FifoQueue(seq(QueueSlots, _ => Unmapped), q.next)
  }

  /** `addToFIFO`: exactly the slot under the index is written, and the index
      advances modulo 500. */
  function FifoAdd(q: FifoQueue, x: int): (r: FifoQueue)
    requires FifoValid(q)
    ensures FifoValid(r)
    ensures r.slots[q.next] == x && r.next == (q.next + 1) % QueueSlots
    ensures forall i :: 0 <= i < QueueSlots && i != q.next ==> r.slots[i] == q.slots[i]
  {
    FifoQueue(q.slots[q.next := x], (q.next + 1) % QueueSlots)
  }

  /** `replacePageFIFO`: whatever the slot under the index holds, which is the
      oldest entry of the ring. */
  function FifoVictim(q: FifoQueue): (v: int)
    requires FifoValid(q)
    ensures v == Ages(q)[0]
  {
    q.slots[q.next]
  }

  /** The ring read from the index onwards, oldest entry first. */
  function Ages(q: FifoQueue): (r: seq<int>)
    requires FifoValid(q)
    ensures |r| == QueueSlots
  {
    q.slots[q.next..] + q.slots[..q.next]
  }

  /** The ring after `addToFIFO` has been called with each of `xs` in turn. */
  function FifoAddAll(q: FifoQueue, xs: seq<int>): (r: FifoQueue)
    requires FifoValid(q)
    ensures FifoValid(r)
    decreases |xs|
  {
    if xs == [] then q else FifoAdd(FifoAddAll(q, xs[..|xs| - 1]), xs[|xs| - 1])
  }

  /** Every slot of the ring holds -1, as `initFIFO` leaves it. */
  predicate Cleared(q: FifoQueue)
    requires FifoValid(q)
  {
    forall i :: 0 <= i < QueueSlots ==> q.slots[i] == Unmapped
  }

  /** 500 slots of -1. */
  const Blank: seq<int> := seq(QueueSlots, _ => Unmapped)

  /** One insertion drops the oldest entry and appends the new one. */
  lemma AgesAfterAdd(q: FifoQueue, x: int)
    requires FifoValid(q)
    ensures Ages(FifoAdd(q, x)) == Ages(q)[1..] + [x]
  {
    var s := q.slots;
    var n := q.next;
    var t := s[n := x];
    assert Ages(q)[1..] == s[n + 1..] + s[..n] by {
      assert s[n..][1..] == s[n + 1..];
    }
    if n < QueueSlots - 1 {
      var r := FifoAdd(q, x);
      assert r.next == n + 1 && r.slots == t;
      assert t[n + 1..] == s[n + 1..];
      assert t[..n + 1] == s[..n] + [x];
      assert Ages(r) == s[n + 1..] + (s[..n] + [x]);
    } else {
      var r := FifoAdd(q, x);
      assert r.next == 0 && r.slots == t;
      assert t == s[..n] + [x];
      assert Ages(r) == t;
    }
  }

  /** From a cleared ring, the ring in age order is the last 500 values of 500
      blanks followed by everything added. */
  lemma {:induction false} AgesAfterAddAll(q: FifoQueue, xs: seq<int>)
    requires FifoValid(q) && Cleared(q)
    ensures Ages(FifoAddAll(q, xs)) == (Blank + xs)[|xs|..]
  {
    if xs == [] {
      assert Ages(q) == Blank;
    } else {
      var n := |xs| - 1;
      var prev := xs[..n];
      var r := FifoAddAll(q, prev);
      AgesAfterAddAll(q, prev);
      AgesAfterAdd(r, xs[n]);
      assert Blank + xs == Blank + prev + [xs[n]];
    }
  }

  /** From the cleared ring `initFIFO` leaves, the FIFO victim is the value added
      exactly 500 insertions earlier, and -1 until 500 insertions have wrapped. */
  lemma FifoVictimAfterAdds(q: FifoQueue, xs: seq<int>)
    requires FifoValid(q) && Cleared(q)
    ensures FifoVictim(FifoAddAll(q, xs))
         == if |xs| >= QueueSlots then xs[|xs| - QueueSlots] else Unmapped
  {
    AgesAfterAddAll(q, xs);
    PaddedAt(xs);
  }

  /** Entry `|xs|` of 500 blanks followed by `xs`. */
  lemma PaddedAt(xs: seq<int>)
    ensures (Blank + xs)[|xs|] == if |xs| >= QueueSlots then xs[|xs| - QueueSlots] else Unmapped
  {
    if |xs| < QueueSlots {
      assert (Blank + xs)[|xs|] == Blank[|xs|];
    }
  }

  // ---------------------------------------------------------------- LRU

  /** The contents of `lruTimestamps` and the value of `lruFrameCount`. */
  datatype LruTable = LruTable(stamps: seq<int>, clock: int)

  /** No stamp exceeds the counter, which never goes below zero. */
  predicate LruValid(l: LruTable)
  {
    |l.stamps| == StampSlots && 0 <= l.clock
    && forall i :: 0 <= i < StampSlots ==> l.stamps[i] <= l.clock
  }

  /** `initLRU`: every stamp becomes -1; the counter is not reset. */
  function LruInit(l: LruTable): (r: LruTable)
    requires LruValid(l)
    ensures LruValid(r) && r.clock == l.clock
    ensures forall i :: 0 <= i < StampSlots ==> r.stamps[i] == Unmapped
  {
    LruTable(seq(StampSlots, _ => Unmapped), l.clock)
  }

  /** `updateLRUTimestamp`: the slot gets the incremented counter, a stamp
      strictly greater than every stamp assigned before. */
  function LruTouch(l: LruTable, slot: int): (r: LruTable)
    requires LruValid(l) && 0 <= slot < StampSlots
    ensures LruValid(r) && r.clock == l.clock + 1 && r.stamps[slot] == r.clock
    ensures forall i :: 0 <= i < StampSlots ==> l.stamps[i] < r.stamps[slot]
    ensures forall i :: 0 <= i < StampSlots && i != slot ==> r.stamps[i] == l.stamps[i]
  {
    LruTable(l.stamps[slot := l.clock + 1], l.clock + 1)
  }

  /** The index the left-to-right scan of `replacePageLRU` settles on: a minimum
      stamp, the lowest index among equal minima since only a strictly smaller
      stamp moves the choice. */
  function LowestMin(s: seq<int>): (k: nat)
    requires |s| > 0
    ensures k < |s|
    ensures forall j :: 0 <= j < |s| ==> s[k] <= s[j]
    ensures forall j :: 0 <= j < k ==> s[k] < s[j]
    decreases |s|
  {
    if |s| == 1 then 0
    else
      var k := LowestMin(s[..|s| - 1]);
      if s[|s| - 1] < s[k] then |s| - 1 else k
  }

  /** `replacePageLRU`: scans all 500 slots, whatever `nframes` is. */
  function LruVictim(l: LruTable): (k: int)
    requires LruValid(l)
    ensures 0 <= k < StampSlots
  {
    LowestMin(l.stamps)
  }

  /** The slot stamped last is never the next LRU victim. */
  lemma LruSparesLastTouched(l: LruTable, slot: int)
    requires LruValid(l) && 0 <= slot < StampSlots
    ensures LruVictim(LruTouch(l, slot)) != slot
  {
    var r := LruTouch(l, slot);
    var other := if slot == 0 then 1 else 0;
    assert r.stamps[other] < r.stamps[slot];
  }

  // ---------------------------------------------------------------- Random

  /** `replacePageRAND`: `rand() % nframes`, with `rnd` the value `rand()`
      returned; `rand()` is never negative, so C's `%` and Dafny's agree. */
  function RandVictim(rnd: nat, nframes: nat): (f: int)
    requires nframes > 0
    ensures 0 <= f < nframes
    ensures rnd < nframes ==> f == rnd
  {
    rnd % nframes
  }
}
