/** The simulator's global state as a value, and what `handlePageFault`, one
    iteration of the replay loop in `main`, the loop as a whole and the whole
    run compute on it. */
module Simulation {
  import opened Types
  import opened PageTables
  import opened Policies
  import opened ReferenceStream

  /** Every global of the simulator: the two tables, the FIFO ring and index,
      and the LRU stamps and counter. */
  datatype State = State(tables: Tables, fifo: FifoQueue, lru: LruTable)

  predicate WellFormed(s: State)
  {
    Sized(s.tables) && FifoValid(s.fifo) && LruValid(s.lru)
  }

  /** The globals before `main` starts: C zero-initialises them, so every
      page claims frame 0 and every frame claims page 0. */
  function Initial(): (s: State)
    ensures WellFormed(s)
    ensures forall p :: 0 <= p < MaxPages ==> s.tables.pages[p] == 0
    ensures forall f :: 0 <= f < MaxFrames ==> s.tables.frames[f] == 0
    ensures forall i :: 0 <= i < QueueSlots ==> s.fifo.slots[i] == 0
    ensures forall i :: 0 <= i < StampSlots ==> s.lru.stamps[i] == 0
    ensures s.fifo.next == 0 && s.lru.clock == 0
  {
    State(Tables(seq(MaxPages, _ => 0), seq(MaxFrames, _ => 0)),
          FifoQueue(seq(QueueSlots, _ => 0), 0),
          LruTable(seq(StampSlots, _ => 0), 0))
  }

  /** The frame the policy names when no frame is free (lines 74-80). With an
      unrecognised algorithm `frameToUse` keeps its initial -1. */
  function Victim(s: State, alg: Algorithm, nframes: nat, rnd: nat): (v: int)
    requires WellFormed(s) && (alg == Rand ==> nframes > 0)
    ensures alg == Rand ==> 0 <= v < nframes
    ensures alg == Lru ==> 0 <= v < StampSlots && forall j :: 0 <= j < StampSlots ==> s.lru.stamps[v] <= s.lru.stamps[j]
    ensures alg == Fifo ==> v == Ages(s.fifo)[0]
    ensures alg == OtherAlgorithm ==> v == Unmapped
  {
    match alg
    case Rand => RandVictim(rnd, nframes)
    case Fifo => FifoVictim(s.fifo)
    case Lru => LruVictim(s.lru)
    case OtherAlgorithm => Unmapped
  }

  /** `handlePageFault` on the whole state; with no frames at all the random
      policy computes `rand() % 0`. */
  function Fault(s: State, page: int, nframes: nat, alg: Algorithm, rnd: nat): (r: Outcome<Placement>)
    requires WellFormed(s) && 0 <= page < MaxPages && nframes <= MaxFrames
    ensures alg == Rand && nframes == 0 ==> r == DivisionByZero
    ensures r.Ok? ==>
      && Sized(r.value.tables) && 0 <= r.value.frame < MaxFrames
      && r.value.tables.frames[r.value.frame] == page && r.value.tables.pages[page] == r.value.frame
    ensures FirstEmpty(s.tables.frames, nframes) != Unmapped ==>
      r.Ok? && r.value.frame == FirstEmpty(s.tables.frames, nframes) && r.value.evicted == Unmapped
    ensures FirstEmpty(s.tables.frames, nframes) == Unmapped && alg == OtherAlgorithm ==>
      r == OutOfBounds(FrameToPageArray, Unmapped)
    ensures FirstEmpty(s.tables.frames, nframes) == Unmapped && alg == Rand && nframes > 0 ==>
      (r.Ok? <==> 0 <= s.tables.frames[Victim(s, alg, nframes, rnd)] < MaxPages)
  {
    if alg == Rand && nframes == 0 then DivisionByZero
    else HandleFault(s.tables, page, nframes, Victim(s, alg, nframes, rnd))
  }

  /** Whether a reference faulted, and the state after it. */
  datatype Accessed = Accessed(fault: bool, state: State)

  /** One iteration of the replay loop (lines 132-141): a hit changes nothing; a
      fault runs the handler and then feeds the PAGE (not the frame the handler
      chose) to `addToFIFO` or `updateLRUTimestamp`. */
  function Access(s: State, page: int, nframes: nat, alg: Algorithm, rnd: nat): (r: Outcome<Accessed>)
    requires WellFormed(s) && 0 <= page < MaxPages && nframes <= MaxFrames
    ensures r.Ok? ==> WellFormed(r.value.state)
    ensures r.Ok? ==> (r.value.fault <==> s.tables.pages[page] == Unmapped)
    ensures r.Ok? ==> r.value.state.tables.pages[page] != Unmapped
    ensures s.tables.pages[page] != Unmapped ==> r == Ok(Accessed(false, s))
    ensures r.Ok? && r.value.fault && alg == Fifo ==> r.value.state.fifo == FifoAdd(s.fifo, page)
    ensures r.Ok? && r.value.fault && alg == Lru ==>
      page < StampSlots && r.value.state.lru == LruTouch(s.lru, page)
  {
    if s.tables.pages[page] != Unmapped then Ok(Accessed(false, s))
    else
      var placed :- Fault(s, page, nframes, alg, rnd);
      var s' := s.(tables := placed.tables);
      match alg
      case Fifo => Ok(Accessed(true, s'.(fifo := FifoAdd(s.fifo, page))))
      case Lru =>
        if page < StampSlots then Ok(Accessed(true, s'.(lru := LruTouch(s.lru, page))))
        else OutOfBounds(LruTimestampsArray, page)
      case _ => Ok(Accessed(true, s'))
  }

  /** The fault count and the state after replaying a stream. */
  datatype Replayed = Replayed(faults: nat, state: State)

  predicate PagesFit(refs: seq<int>)
  {
    forall i :: 0 <= i < |refs| ==> 0 <= refs[i] < MaxPages
  }

  /** The replay loop of `main` (lines 130-142), reference `i` drawing the
      oracle value `rnd[i]` should the random policy need one. */
  function Replay(s: State, refs: seq<int>, nframes: nat, alg: Algorithm, rnd: seq<nat>): (r: Outcome<Replayed>)
    requires WellFormed(s) && PagesFit(refs) && nframes <= MaxFrames && |rnd| == |refs|
    ensures r.Ok? ==> WellFormed(r.value.state) && r.value.faults <= |refs|
    decreases |refs|
  {
    if refs == [] then Ok(Replayed(0, s))
    else
      var n := |refs| - 1;
      var before :- Replay(s, refs[..n], nframes, alg, rnd[..n]);
      Extend(before, Access(before.state, refs[n], nframes, alg, rnd[n]))
  }

  /** The replay so far followed by the outcome of one more reference. */
  function Extend(before: Replayed, step: Outcome<Accessed>): Outcome<Replayed>
  {
    if step.Ok? then Ok(Replayed(before.faults + (if step.value.fault then 1 else 0), step.value.state))
    else step.PropagateFailure()
  }

  /** Replaying one more reference is one more access after the shorter replay. */
  lemma ReplayStep(s: State, refs: seq<int>, nframes: nat, alg: Algorithm, rnd: seq<nat>, i: nat)
    requires WellFormed(s) && PagesFit(refs) && nframes <= MaxFrames && |rnd| == |refs| && i < |refs|
    requires Replay(s, refs[..i], nframes, alg, rnd[..i]).Ok?
    ensures var before := Replay(s, refs[..i], nframes, alg, rnd[..i]).value;
      var step := Access(before.state, refs[i], nframes, alg, rnd[i]);
      Replay(s, refs[..i + 1], nframes, alg, rnd[..i + 1]) == Extend(before, step)
  {
    var longer := refs[..i + 1];
    var draws := rnd[..i + 1];
    assert longer[..i] == refs[..i] && draws[..i] == rnd[..i];
    assert longer[i] == refs[i] && draws[i] == rnd[i];
    ReplayLast(s, longer, nframes, alg, draws);
  }

  /** A non-empty stream is replayed by replaying all but its last reference
      and then accessing that one. */
  lemma ReplayLast(s: State, refs: seq<int>, nframes: nat, alg: Algorithm, rnd: seq<nat>)
    requires WellFormed(s) && PagesFit(refs) && nframes <= MaxFrames && |rnd| == |refs| && refs != []
    requires Replay(s, refs[..|refs| - 1], nframes, alg, rnd[..|refs| - 1]).Ok?
    ensures var before := Replay(s, refs[..|refs| - 1], nframes, alg, rnd[..|refs| - 1]).value;
      var step := Access(before.state, refs[|refs| - 1], nframes, alg, rnd[|refs| - 1]);
      Replay(s, refs, nframes, alg, rnd) == Extend(before, step)
  {
  }

  /** Once a prefix of the stream reaches undefined behaviour, so does the stream. */
  lemma {:induction false} ReplayUndefinedPersists(s: State, refs: seq<int>, nframes: nat, alg: Algorithm, rnd: seq<nat>, k: nat)
    requires WellFormed(s) && PagesFit(refs) && nframes <= MaxFrames && |rnd| == |refs|
    requires k <= |refs| && !Replay(s, refs[..k], nframes, alg, rnd[..k]).Ok?
    ensures Replay(s, refs, nframes, alg, rnd) == Replay(s, refs[..k], nframes, alg, rnd[..k])
    decreases |refs| - k
  {
    if k == |refs| {
      assert refs[..k] == refs && rnd[..k] == rnd;
    } else {
      assert refs[..k + 1][..k] == refs[..k] && rnd[..k + 1][..k] == rnd[..k];
      ReplayUndefinedPersists(s, refs, nframes, alg, rnd, k + 1);
    }
  }

  /** One pass of the replay loop from the replay of the first `i` references:
      an access that completes extends that replay by one reference, and one
      that reaches undefined behaviour decides the whole replay. */
  lemma ReplayLoopStep(s: State, refs: seq<int>, nframes: nat, alg: Algorithm, rnd: seq<nat>, i: nat, faults: nat, st: State)
    requires WellFormed(s) && PagesFit(refs) && nframes <= MaxFrames && |rnd| == |refs| && i < |refs|
    requires Replay(s, refs[..i], nframes, alg, rnd[..i]) == Ok(Replayed(faults, st))
    ensures var step := Access(st, refs[i], nframes, alg, rnd[i]);
      && (step.Ok? ==> Replay(s, refs[..i + 1], nframes, alg, rnd[..i + 1])
                         == Ok(Replayed(faults + (if step.value.fault then 1 else 0), step.value.state)))
      && (!step.Ok? ==> Replay(s, refs, nframes, alg, rnd) == step.PropagateFailure())
  {
    ReplayStep(s, refs, nframes, alg, rnd, i);
    var step := Access(st, refs[i], nframes, alg, rnd[i]);
    var longer := Replay(s, refs[..i + 1], nframes, alg, rnd[..i + 1]);
    assert longer == Extend(Replayed(faults, st), step);
    if step.Ok? {
      assert longer == Ok(Replayed(faults + (if step.value.fault then 1 else 0), step.value.state));
    } else {
      assert longer == step.PropagateFailure();
      ReplayUndefinedPersists(s, refs, nframes, alg, rnd, i + 1);
    }
  }

  /** One access fills at most one empty frame, and only when it faults. */
  lemma AccessEmptyCount(st: State, page: int, nframes: nat, alg: Algorithm, rnd: nat)
    requires WellFormed(st) && 0 <= page < MaxPages && nframes <= MaxFrames
    requires Access(st, page, nframes, alg, rnd).Ok?
    ensures var a := Access(st, page, nframes, alg, rnd).value;
      && EmptyCount(a.state.tables.frames, nframes) <= EmptyCount(st.tables.frames, nframes)
      && EmptyCount(st.tables.frames, nframes)
         <= EmptyCount(a.state.tables.frames, nframes) + (if a.fault then 1 else 0)
  {
    if st.tables.pages[page] == Unmapped {
      var v := if alg == Rand && nframes == 0 then 0 else Victim(st, alg, nframes, rnd);
      FaultEmptyCount(st.tables, page, nframes, v);
    }
  }

  /** Empty frames never come back during a replay, and each fault fills at most one. */
  lemma {:induction false} ReplayEmptyFrames(s: State, refs: seq<int>, nframes: nat, alg: Algorithm, rnd: seq<nat>)
    requires WellFormed(s) && PagesFit(refs) && nframes <= MaxFrames && |rnd| == |refs|
    requires Replay(s, refs, nframes, alg, rnd).Ok?
    ensures var done := Replay(s, refs, nframes, alg, rnd).value;
      && EmptyCount(done.state.tables.frames, nframes) <= EmptyCount(s.tables.frames, nframes)
      && EmptyCount(s.tables.frames, nframes) <= EmptyCount(done.state.tables.frames, nframes) + done.faults
    decreases |refs|
  {
    if refs != [] {
      var n := |refs| - 1;
      ReplayEmptyFrames(s, refs[..n], nframes, alg, rnd[..n]);
      var before := Replay(s, refs[..n], nframes, alg, rnd[..n]).value;
      AccessEmptyCount(before.state, refs[n], nframes, alg, rnd[n]);
    }
  }

  /** Under the random policy with at least one frame, a replay of pages below
      `npages` from consistent tables never reaches undefined behaviour, and the
      page and frame tables stay inverse to each other throughout. */
  lemma {:induction false} RandomReplayConsistent(s: State, refs: seq<int>, npages: nat, nframes: nat, rnd: seq<nat>)
    requires WellFormed(s) && Consistent(s.tables, npages, nframes) && 0 < nframes
    requires |rnd| == |refs| && forall i :: 0 <= i < |refs| ==> 0 <= refs[i] < npages
    ensures Replay(s, refs, nframes, Rand, rnd).Ok?
    ensures Consistent(Replay(s, refs, nframes, Rand, rnd).value.state.tables, npages, nframes)
    decreases |refs|
  {
    if refs != [] {
      var n := |refs| - 1;
      RandomReplayConsistent(s, refs[..n], npages, nframes, rnd[..n]);
      var before := Replay(s, refs[..n], nframes, Rand, rnd[..n]).value;
      var page := refs[n];
      if before.state.tables.pages[page] == Unmapped {
        FaultKeepsConsistent(before.state.tables, page, npages, nframes, RandVictim(rnd[n], nframes));
      }
    }
  }

  /** The FIFO ring, started at index `start`, has had `k` insertions since it was
      cleared: the index has moved `k` places and no slot it has not yet reached
      has been written. */
  ghost predicate FreshSince(q: FifoQueue, start: int, k: nat)
  {
    && FifoValid(q) && 0 <= start < QueueSlots && k < QueueSlots
    && q.next == (start + k) % QueueSlots
    && forall j :: 0 <= j < QueueSlots && k <= (j - start) % QueueSlots ==> q.slots[j] == Unmapped
  }

  /** The modular facts behind one insertion into a ring that has not wrapped. */
  lemma RingOffset(start: int, k: nat)
    requires 0 <= start < QueueSlots && k < QueueSlots
    ensures (((start + k) % QueueSlots) - start) % QueueSlots == k
    ensures (((start + k) % QueueSlots) + 1) % QueueSlots == (start + k + 1) % QueueSlots
  {
  }

  /** One FIFO access from a ring with `k` insertions since it was cleared and
      `k` frames filled: a fault must find a free frame (the victim slot is still
      -1), so it fills one more frame and makes one more insertion. */
  lemma FifoAccessStep(st: State, page: int, nframes: nat, rnd: nat, start: int, k: nat)
    requires WellFormed(st) && 0 <= page < MaxPages && nframes < QueueSlots
    requires k <= nframes && EmptyCount(st.tables.frames, nframes) == nframes - k
    requires FreshSince(st.fifo, start, k)
    requires Access(st, page, nframes, Fifo, rnd).Ok?
    ensures var a := Access(st, page, nframes, Fifo, rnd).value;
      var k' := k + (if a.fault then 1 else 0);
      && k' <= nframes
      && EmptyCount(a.state.tables.frames, nframes) == nframes - k'
      && FreshSince(a.state.fifo, start, k')
  {
    if st.tables.pages[page] == Unmapped {
      var t := st.tables;
      var q := st.fifo;
      RingOffset(start, k);
      if FirstEmpty(t.frames, nframes) == Unmapped {
        assert false;
      }
      FaultEmptyCount(t, page, nframes, FifoVictim(q));
      var after := FifoAdd(q, page);
      forall j | 0 <= j < QueueSlots && k + 1 <= (j - start) % QueueSlots
        ensures after.slots[j] == Unmapped
      {
        assert j != q.next;
      }
    }
  }

  /** With fewer than 500 frames, FIFO replay from all-empty frames and a cleared
      ring can never evict: while the ring has not wrapped its victim is -1, and
      `frameToPage[-1]` is read as soon as every frame is full. So a replay that
      completes has faulted at most `nframes` times, and every fault filled a
      free frame. */
  lemma {:induction false} FifoReplayNeverEvicts(s: State, refs: seq<int>, nframes: nat, rnd: seq<nat>)
    requires WellFormed(s) && PagesFit(refs) && nframes < QueueSlots && |rnd| == |refs|
    requires EmptyCount(s.tables.frames, nframes) == nframes
    requires Cleared(s.fifo)
    ensures Replay(s, refs, nframes, Fifo, rnd).Ok? ==>
      var done := Replay(s, refs, nframes, Fifo, rnd).value;
      && done.faults <= nframes
      && EmptyCount(done.state.tables.frames, nframes) == nframes - done.faults
      && FreshSince(done.state.fifo, s.fifo.next, done.faults)
    decreases |refs|
  {
    if refs == [] {
      assert s.fifo.next == (s.fifo.next + 0) % QueueSlots;
    } else {
      var n := |refs| - 1;
      FifoReplayNeverEvicts(s, refs[..n], nframes, rnd[..n]);
      if Replay(s, refs, nframes, Fifo, rnd).Ok? {
        var before := Replay(s, refs[..n], nframes, Fifo, rnd[..n]).value;
        assert Replay(s, refs, nframes, Fifo, rnd) == Extend(before, Access(before.state, refs[n], nframes, Fifo, rnd[n]));
        FifoAccessStep(before.state, refs[n], nframes, rnd[n], s.fifo.next, before.faults);
      }
    }
  }

  /** The five command-line arguments, with the two strings as enumerations. */
  datatype Config = Config(npages: nat, nframes: nat, algorithm: Algorithm, nrefs: nat, locality: Locality)

  /** The sizes the fixed global arrays can hold. */
  predicate Fits(c: Config)
  {
    c.npages <= MaxPages && c.nframes <= MaxFrames
  }

  /** The two numbers `main` prints. */
  datatype Report = Report(faults: nat, emptyFrames: nat)

  /** The globals after `initPageTable` and, for its algorithm, `initFIFO` or `initLRU`. */
  function Setup(s: State, c: Config): (r: State)
    requires WellFormed(s) && Fits(c)
    ensures WellFormed(r)
  {
    State(InitTables(s.tables, c.npages, c.nframes),
          if c.algorithm == Fifo then FifoInit(s.fifo) else s.fifo,
          if c.algorithm == Lru then LruInit(s.lru) else s.lru)
  }

  /** `main` after argument parsing (lines 121-144): generate the stream, set up
      the tables and the policy, replay, and count the empty frames. With
      `npages == 0` the first `rand() % npages` divides by zero. */
  function Run(s: State, c: Config, genRnd: seq<nat>, evictRnd: seq<nat>): (r: Outcome<Report>)
    requires WellFormed(s) && Fits(c) && |genRnd| == c.nrefs && |evictRnd| == c.nrefs
    ensures c.npages == 0 && c.nrefs > 0 ==> r == DivisionByZero
    ensures c.nrefs == 0 ==> r == Ok(Report(0, c.nframes))
    ensures r.Ok? ==> r.value.faults <= c.nrefs && r.value.emptyFrames <= c.nframes
  {
    InitTablesEmpty(s.tables, c.npages, c.nframes);
    if c.npages == 0 && c.nrefs > 0 then DivisionByZero
    else
      var refs := Generate(c.npages, c.locality, genRnd);
      var done :- Replay(Setup(s, c), refs, c.nframes, c.algorithm, evictRnd);
      Ok(Report(done.faults, EmptyCount(done.state.tables.frames, c.nframes)))
  }

  /** What a completed run reports: at most one fault per reference, at most
      `nframes` empty frames, and no more frames filled than faults taken. */
  lemma RunReport(s: State, c: Config, genRnd: seq<nat>, evictRnd: seq<nat>)
    requires WellFormed(s) && Fits(c) && |genRnd| == c.nrefs && |evictRnd| == c.nrefs
    requires Run(s, c, genRnd, evictRnd).Ok?
    ensures var report := Run(s, c, genRnd, evictRnd).value;
      && report.faults <= c.nrefs
      && report.emptyFrames <= c.nframes
      && c.nframes <= report.emptyFrames + report.faults
  {
    var refs := Generate(c.npages, c.locality, genRnd);
    var ready := Setup(s, c);
    InitTablesEmpty(s.tables, c.npages, c.nframes);
    ReplayEmptyFrames(ready, refs, c.nframes, c.algorithm, evictRnd);
  }

  /** A run under the random policy with at least one frame, and at least one
      page whenever there are references, always completes, and the frames it
      leaves occupied hold distinct pages, so there are at most `npages` of
      them. */
  lemma RandomRunCompletes(s: State, c: Config, genRnd: seq<nat>, evictRnd: seq<nat>)
    requires WellFormed(s) && Fits(c) && |genRnd| == c.nrefs && |evictRnd| == c.nrefs
    requires c.algorithm == Rand && c.nframes > 0 && (c.npages > 0 || c.nrefs == 0)
    ensures Run(s, c, genRnd, evictRnd).Ok?
    ensures c.nframes - Run(s, c, genRnd, evictRnd).value.emptyFrames <= c.npages
  {
    var refs := Generate(c.npages, c.locality, genRnd);
    var ready := Setup(s, c);
    InitTablesEmpty(s.tables, c.npages, c.nframes);
    RandomReplayConsistent(ready, refs, c.npages, c.nframes, evictRnd);
    var done := Replay(ready, refs, c.nframes, Rand, evictRnd).value;
    OccupiedEqualsMapped(done.state.tables, c.npages, c.nframes);
  }

  /** Under FIFO with fewer than 500 frames a run completes only if it never
      needs to evict: it takes at most `nframes` faults, and every frame it
      filled is still occupied. */
  lemma FifoRunNeverEvicts(s: State, c: Config, genRnd: seq<nat>, evictRnd: seq<nat>)
    requires WellFormed(s) && Fits(c) && |genRnd| == c.nrefs && |evictRnd| == c.nrefs
    requires c.algorithm == Fifo && c.nframes < QueueSlots
    requires Run(s, c, genRnd, evictRnd).Ok?
    ensures var report := Run(s, c, genRnd, evictRnd).value;
      report.faults <= c.nframes && report.emptyFrames == c.nframes - report.faults
  {
    var refs := Generate(c.npages, c.locality, genRnd);
    var ready := Setup(s, c);
    InitTablesEmpty(s.tables, c.npages, c.nframes);
    FifoReplayNeverEvicts(ready, refs, c.nframes, evictRnd);
  }

  /** Under an unrecognised algorithm, a reference to an unmapped page that
      finds no free frame below `nframes` indexes `frameToPage` with -1. */
  lemma UnknownAlgorithmFault(s: State, page: int, nframes: nat, rnd: nat)
    requires WellFormed(s) && 0 <= page < MaxPages && nframes <= MaxFrames
    requires s.tables.pages[page] == Unmapped && FirstEmpty(s.tables.frames, nframes) == Unmapped
    ensures Access(s, page, nframes, OtherAlgorithm, rnd) == OutOfBounds(FrameToPageArray, Unmapped)
  {
  }

  /** The first three entries of both tables, and which LRU slots have been
      stamped: the slots below `stamped` hold a stamp, the rest still -1. */
  ghost predicate TraceView(s: State, pages: seq<int>, frames: seq<int>, stamped: nat)
  {
    && WellFormed(s) && |pages| == 3 && |frames| == 3 && stamped <= 3
    && s.tables.pages[0] == pages[0] && s.tables.pages[1] == pages[1] && s.tables.pages[2] == pages[2]
    && s.tables.frames[0] == frames[0] && s.tables.frames[1] == frames[1] && s.tables.frames[2] == frames[2]
    && (forall i :: 0 <= i < stamped ==> s.lru.stamps[i] > Unmapped)
    && (forall i :: stamped <= i < StampSlots ==> s.lru.stamps[i] == Unmapped)
  }

  lemma LruTraceSetup()
    ensures TraceView(Setup(Initial(), Config(3, 2, Lru, 4, Low)), [-1, -1, -1], [-1, -1, 0], 0)
  {
  }

  lemma LruTraceFirst(s: State) returns (s1: State)
    requires TraceView(s, [-1, -1, -1], [-1, -1, 0], 0)
    ensures Access(s, 0, 2, Lru, 0) == Ok(Accessed(true, s1))
    ensures TraceView(s1, [0, -1, -1], [0, -1, 0], 1)
  {
    assert FirstEmpty(s.tables.frames, 2) == 0;
    s1 := Access(s, 0, 2, Lru, 0).value.state;
  }

  lemma LruTraceSecond(s: State) returns (s2: State)
    requires TraceView(s, [0, -1, -1], [0, -1, 0], 1)
    ensures Access(s, 1, 2, Lru, 0) == Ok(Accessed(true, s2))
    ensures TraceView(s2, [0, 1, -1], [0, 1, 0], 2)
  {
    assert FirstEmpty(s.tables.frames, 2) == 1;
    s2 := Access(s, 1, 2, Lru, 0).value.state;
  }

  /** Page 2 finds no free frame; the lowest stamp is the -1 of slot 2, whose
      `frameToPage` entry names page 0. */
  lemma LruTraceFourth(s: State) returns (s4: State)
    requires TraceView(s, [0, 1, -1], [0, 1, 0], 2)
    ensures Access(s, 2, 2, Lru, 0) == Ok(Accessed(true, s4))
    ensures s4.tables.pages[0] == Unmapped && s4.tables.frames[0] == 0
    ensures s4.tables.pages[2] == 2 && s4.tables.frames[2] == 2
  {
    assert FirstEmpty(s.tables.frames, 2) == Unmapped;
    assert LruVictim(s.lru) == 2 by {
      var k := LruVictim(s.lru);
      assert s.lru.stamps[k] <= s.lru.stamps[2];
    }
    s4 := Access(s, 2, 2, Lru, 0).value.state;
  }

  /** The first two references of the trace: two faults into the two free frames. */
  lemma LruTraceOpening(s0: State, refs: seq<int>, rnd: seq<nat>) returns (s2: State)
    requires TraceView(s0, [-1, -1, -1], [-1, -1, 0], 0)
    requires |refs| == 4 && refs[0] == 0 && refs[1] == 1 && refs[2] == 0 && refs[3] == 2
    requires |rnd| == 4 && rnd[0] == 0 && rnd[1] == 0 && rnd[2] == 0 && rnd[3] == 0
    ensures PagesFit(refs)
    ensures Replay(s0, refs[..2], 2, Lru, rnd[..2]) == Ok(Replayed(2, s2))
    ensures TraceView(s2, [0, 1, -1], [0, 1, 0], 2)
  {
    assert PagesFit(refs);
    var s1 := LruTraceFirst(s0);
    assert Replay(s0, refs[..1], 2, Lru, rnd[..1]) == Ok(Replayed(1, s1)) by {
      ReplayStep(s0, refs, 2, Lru, rnd, 0);
    }
    s2 := LruTraceSecond(s1);
    ReplayStep(s0, refs, 2, Lru, rnd, 1);
  }

  /** The third reference, page 0 again, hits. */
  lemma LruTraceHit(s0: State, refs: seq<int>, rnd: seq<nat>, s2: State)
    requires WellFormed(s0) && PagesFit(refs) && |refs| == 4 && |rnd| == 4 && refs[2] == 0
    requires Replay(s0, refs[..2], 2, Lru, rnd[..2]) == Ok(Replayed(2, s2))
    requires TraceView(s2, [0, 1, -1], [0, 1, 0], 2)
    ensures Replay(s0, refs[..3], 2, Lru, rnd[..3]) == Ok(Replayed(2, s2))
  {
    assert Access(s2, 0, 2, Lru, rnd[2]) == Ok(Accessed(false, s2));
    ReplayStep(s0, refs, 2, Lru, rnd, 2);
  }

  /** Replaying 0, 1, 0, 2 under LRU with two frames from the set-up state. */
  lemma LruTraceReplay(s0: State, refs: seq<int>, rnd: seq<nat>)
    requires TraceView(s0, [-1, -1, -1], [-1, -1, 0], 0)
    requires |refs| == 4 && refs[0] == 0 && refs[1] == 1 && refs[2] == 0 && refs[3] == 2
    requires |rnd| == 4 && rnd[0] == 0 && rnd[1] == 0 && rnd[2] == 0 && rnd[3] == 0
    ensures PagesFit(refs)
    ensures var done := Replay(s0, refs, 2, Lru, rnd);
      && done.Ok? && done.value.faults == 3
      && done.value.state.tables.pages[0] == Unmapped && done.value.state.tables.frames[0] == 0
      && done.value.state.tables.pages[2] == 2 && done.value.state.tables.frames[2] == 2
  {
    var s2 := LruTraceOpening(s0, refs, rnd);
    LruTraceHit(s0, refs, rnd, s2);
    var s4 := LruTraceFourth(s2);
    assert refs[..4] == refs && rnd[..4] == rnd;
    ReplayStep(s0, refs, 2, Lru, rnd, 3);
  }

  /** The LRU scan covers all 500 slots, so with two frames the third page
      referenced evicts slot 2, a slot no frame uses. Its `frameToPage` entry
      still holds the startup 0: page 0 is unmapped while frame 0 holds it, and
      page 2 lands outside the frames, so the two maps stop being inverse. */
  lemma LruTraceBreaksInverse()
    ensures var done := Replay(Setup(Initial(), Config(3, 2, Lru, 4, Low)), [0, 1, 0, 2], 2, Lru, [0, 0, 0, 0]);
      && done.Ok? && done.value.faults == 3
      && done.value.state.tables.pages[0] == Unmapped && done.value.state.tables.frames[0] == 0
      && done.value.state.tables.pages[2] == 2 && done.value.state.tables.frames[2] == 2
      && !Consistent(done.value.state.tables, 3, 2)
  {
    LruTraceSetup();
    LruTraceReplay(Setup(Initial(), Config(3, 2, Lru, 4, Low)), [0, 1, 0, 2], [0, 0, 0, 0]);
  }
}
